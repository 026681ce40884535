/**
 What one delivery update, one new window and one message do, field by field
 (server/carbon/rebroadcaster/ai_registration.py).
 */
module AiEffects {
  import opened Options
  import opened LatinText
  import opened Words
  import R = Retry
  import opened Confirmations
  import opened AiWindows
  import opened AiRegistration
  import AiRuns

  // ----- messages

  /**
   A registration body is four zero bytes and the type, and ends with the name of 1 to 32
   bytes whose length is at offset 15.
   */
  predicate WellFormed(body: string) {
    && 18 <= |body| <= 49 && body[..4] == ['\0', '\0', '\0', '\0'] && body[4] as int == 0x05
    && UnpackShort(body[15..17]) == |body| - 17
  }

  /** The body cut out is the well-formed beginning of the message, if it has one. */
  lemma BodyIff(logical: string, body: string)
    ensures CurrentBody(logical) == Some(body) <==> body <= logical && WellFormed(body)
  {
    if CurrentBody(logical) == Some(body) {
      assert body[..4] == logical[..4] && body[15..17] == logical[15..17];
    }
    if body <= logical && WellFormed(body) {
      assert body[..4] == logical[..4] && body[15..17] == logical[15..17];
      assert logical[..|body|] == body;
    }
  }

  /** Only the four bytes of the controller are cleared. */
  lemma SanitizedBytes(body: string)
    requires |body| >= 17
    ensures |Sanitized(body)| == |body|
    ensures forall k :: 0 <= k < |body| ==> Sanitized(body)[k] == if 11 <= k < 15 then '\0' else body[k]
  {
  }

  /** Cars are admitted in the order in which messages ask for them. */
  lemma {:induction false} AdmittedAppends(cars: seq<Car>, logicals: seq<string>, k: nat)
    requires k <= |logicals|
    ensures Admitted(cars, logicals[..k]) <= Admitted(cars, logicals)
    decreases |logicals|
  {
    if k == |logicals| {
      assert logicals[..k] == logicals;
    } else {
      var init := logicals[..|logicals| - 1];
      assert init[..k] == logicals[..k];
      AdmittedAppends(cars, init, k);
    }
  }

  // ----- delivery

  predicate Leaves(w: Wire, x: Reliable, finished: bool, now: real) {
    || (w.acknowledgement % SEQUENCE_SPAN - x.final) % SEQUENCE_SPAN < SEQUENCE_HALF
    || finished
    || x.retry.retriesSent >= POLICY.maximumRetries || x.retry.deadline <= now
  }

  /** The first window of the list that stays. */
  ghost predicate FirstLeft(w: Wire, ws: seq<Reliable>, x: Reliable, finished: bool, now: real) {
    exists i :: 0 <= i < |ws| && ws[i] == x && forall j :: 0 <= j < i ==> Leaves(w, ws[j], finished, now)
  }

  /**
   A window that stays is sent when the update is forced, and else when it is the first of them
   and its wait is over.
   */
  ghost predicate SentNow(w: Wire, x: Reliable, force: bool, finished: bool, now: real) {
    && !Leaves(w, x, finished, now)
    && (force || (FirstLeft(w, w.pending, x, finished, now) && x.retry.retryNotBefore <= now))
  }

  /** The datagram carries the window's packets, with the latest sequence of the client. */
  ghost predicate Carries(sending: Sending, w: Wire, x: Reliable, now: real) {
    && sending.number == x.number && sending.time == now && |sending.packets| == |x.records| + 1
    && forall q :: 0 <= q <= |x.records| ==>
         PacketFits(sending.packets[q], x.base, w.lastClient % SEQUENCE_SPAN, x.records, q)
  }

  lemma LeavesIff(w: Wire, x: Reliable, finished: bool, now: real)
    requires WindowValid(x)
    ensures Survives(w, x, finished, now) <==> !Leaves(w, x, finished, now)
  {
  }

  lemma {:induction false} FirstSurvivor(w: Wire, ws: seq<Reliable>, limit: int, finished: bool, now: real)
    requires Ordered(ws, limit)
    ensures var left := Survivors(w, ws, finished, now);
      if left == [] then forall j :: 0 <= j < |ws| ==> Leaves(w, ws[j], finished, now)
      else FirstLeft(w, ws, left[0], finished, now) && !Leaves(w, left[0], finished, now)
    decreases |ws|
  {
    if ws != [] {
      var (init, x) := (ws[..|ws| - 1], ws[|ws| - 1]);
      FirstSurvivor(w, init, x.number, finished, now);
      LeavesIff(w, x, finished, now);
      var before := Survivors(w, init, finished, now);
      if before == [] {
        assert forall j :: 0 <= j < |init| ==> Leaves(w, ws[j], finished, now) by {
          assert forall j :: 0 <= j < |init| ==> init[j] == ws[j];
        }
      } else {
        var i :| 0 <= i < |init| && init[i] == before[0]
          && forall j :: 0 <= j < i ==> Leaves(w, init[j], finished, now);
        assert ws[i] == before[0] && forall j :: 0 <= j < i ==> ws[j] == init[j];
      }
    }
  }

  lemma {:induction false} NumbersApart(ws: seq<Reliable>, limit: int, i: nat, j: nat)
    requires Ordered(ws, limit) && i < j < |ws|
    ensures ws[i].number < ws[j].number
    decreases |ws|
  {
    var init := ws[..|ws| - 1];
    if j < |ws| - 1 {
      NumbersApart(init, ws[|ws| - 1].number, i, j);
      assert init[i] == ws[i] && init[j] == ws[j];
    } else {
      AiRuns.NumbersRise(ws, limit, i);
    }
  }

  lemma FirstIsUnique(w: Wire, ws: seq<Reliable>, limit: int, x: Reliable, y: Reliable, finished: bool, now: real)
    requires Ordered(ws, limit) && FirstLeft(w, ws, x, finished, now) && FirstLeft(w, ws, y, finished, now)
    requires !Leaves(w, x, finished, now) && !Leaves(w, y, finished, now)
    ensures x == y
  {
    var i :| 0 <= i < |ws| && ws[i] == x && forall j :: 0 <= j < i ==> Leaves(w, ws[j], finished, now);
    var k :| 0 <= k < |ws| && ws[k] == y && forall j :: 0 <= j < k ==> Leaves(w, ws[j], finished, now);
    assert i == k;
  }

  /** The first of the survivors is the first window that stays. */
  lemma FirstIff(w: Wire, active: seq<Reliable>, x: Reliable, finished: bool, now: real)
    requires WireValid(w) && active == Survivors(w, w.pending, finished, now) && !Leaves(w, x, finished, now)
    ensures active != [] && active[0] == x <==> FirstLeft(w, w.pending, x, finished, now)
  {
    FirstSurvivor(w, w.pending, w.issued, finished, now);
    if FirstLeft(w, w.pending, x, finished, now) && active != [] {
      FirstIsUnique(w, w.pending, w.issued, x, active[0], finished, now);
    }
  }

  /** The same number, the same window. */
  lemma PlaceOf(active: seq<Reliable>, limit: int, x: Reliable) returns (k: nat)
    requires Ordered(active, limit) && AiRuns.Find(active, x.number) == Some(x)
    ensures k < |active| && active[k] == x && forall j :: 0 <= j < |active| && active[j] == x ==> j == k
  {
    AiRuns.FoundIn(active, x.number);
    k :| 0 <= k < |active| && active[k] == x;
    forall j | 0 <= j < |active| && active[j] == x ensures j == k {
      if j < k {
        NumbersApart(active, limit, j, k);
      } else if k < j {
        NumbersApart(active, limit, k, j);
      }
    }
  }

  lemma ResendingCarries(w: Wire, x: Reliable, now: real)
    requires WindowValid(x)
    ensures Carries(Resending(w, x, now), w, x, now)
  {
    PacketCount(x.base, w.lastClient % SEQUENCE_SPAN, x.records);
  }

  /** What an update sends of one open window. */
  lemma UpdateSends(w: Wire, force: bool, finished: bool, now: real, x: Reliable)
    requires WireValid(w) && AiRuns.Find(w.pending, x.number) == Some(x)
    ensures var sent := AiRuns.Of(Update(w, force, finished, now).1, x.number);
      if SentNow(w, x, force, finished, now) then |sent| == 1 && Carries(sent[0], w, x, now)
      else sent == []
  {
    var active := Survivors(w, w.pending, finished, now);
    SurvivorsOrdered(w, w.pending, w.issued, finished, now);
    AiRuns.SurvivorFound(w, w.pending, w.issued, finished, now, x.number);
    AiRuns.FoundIsValid(w.pending, w.issued, x.number);
    LeavesIff(w, x, finished, now);
    if Leaves(w, x, finished, now) {
      AiRuns.StepMoves(w, AiRuns.Check(force, finished, now), x.number);
    } else {
      var k := PlaceOf(active, w.issued, x);
      FirstIff(w, active, x, finished, now);
      AiRuns.SentIff(w, active, w.issued, force, now, k);
      ResendingCarries(w, x, now);
    }
  }

  lemma UpdateMoves(w: Wire, force: bool, finished: bool, now: real, x: Reliable)
    requires WireValid(w) && AiRuns.Find(w.pending, x.number) == Some(x)
    ensures var (after, sent, _) := Update(w, force, finished, now);
      AiRuns.Find(after.pending, x.number) ==
        if Leaves(w, x, finished, now) then None
        else if AiRuns.Of(sent, x.number) == [] then Some(x) else Some(Retransmitted(x, now))
  {
    AiRuns.FoundIsValid(w.pending, w.issued, x.number);
    LeavesIff(w, x, finished, now);
    AiRuns.StepMoves(w, AiRuns.Check(force, finished, now), x.number);
  }

  /** A window that was sent counts one retry more and waits the longer for the next. */
  function Later(x: Reliable, now: real): Reliable {
    var sent := x.retry.retriesSent + 1;
    x.(retry := x.retry.(retriesSent := sent, retryNotBefore := R.Min(x.retry.deadline, now + x.retry.Delay(sent))))
  }

  /** What an update makes of one open window, and what it sends of it. */
  lemma UpdateOf(w: Wire, force: bool, finished: bool, now: real, x: Reliable)
    requires WireValid(w) && AiRuns.Find(w.pending, x.number) == Some(x)
    ensures var (after, sent, _) := Update(w, force, finished, now);
      var (mine, next) := (AiRuns.Of(sent, x.number), AiRuns.Find(after.pending, x.number));
      if Leaves(w, x, finished, now) then mine == [] && next == None
      else if !SentNow(w, x, force, finished, now) then mine == [] && next == Some(x)
      else |mine| == 1 && Carries(mine[0], w, x, now) && next == Some(Later(x, now))
  {
    UpdateSends(w, force, finished, now, x);
    UpdateMoves(w, force, finished, now, x);
  }

  /** A new window: the next numbers of the endpoint, all the records, a fresh schedule, and its first datagram. */
  lemma OpenOf(w: Wire, rs: seq<string>, now: real)
    requires WireValid(w) && rs != []
    ensures var (after, sending) := OpenWindow(w, rs, now);
      && |after.pending| == |w.pending| + 1 && after.pending[..|w.pending|] == w.pending
      && var x := after.pending[|w.pending|];
         && x.number == w.issued && x.records == rs && x.base == w.issued % SEQUENCE_SPAN
         && x.retry == R.Schedule(POLICY, now, now + 0.75, now + 30.0, 0)
         && Carries(sending, w, x, now)
         && after.issued == w.issued + |rs| + 1 && after.next == after.issued % SEQUENCE_SPAN
         && after.(issued := w.issued, next := w.next, pending := w.pending) == w
  {
    var x := OpenWindow(w, rs, now).0.pending[|w.pending|];
    AiRuns.OpenKeepsValid(w, rs, now);
    ResendingCarries(w, x, now);
  }

  /** The refresh of a guest: once, when nothing is open, with a window of all the records. */
  lemma RefreshOf(w: Wire, rs: seq<string>, now: real)
    requires WireValid(w) && rs != []
    ensures var (after, sent) := RefreshWindow(w, rs, now);
      if w.refreshed || w.pending != [] then after == w && sent == []
      else
        && |sent| == 1 && after.refreshed && |after.pending| == 1
        && after.pending[0].records == rs && after.pending[0].number == w.issued
        && Carries(sent[0], w, after.pending[0], now)
  {
    OpenOf(w, rs, now);
  }
}
