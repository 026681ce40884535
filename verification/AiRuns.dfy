/** Registration windows of one endpoint over whole runs. */
module AiRuns {
  import opened Options
  import R = Retry
  import opened Confirmations
  import opened AiWindows

  datatype Event =
    | Open(records: seq<string>, now: real)
    | Refresh(records: seq<string>, now: real)
    | Others(count: nat)
    | Heard(acknowledgement: int, sequence: int)
    | Check(force: bool, finished: bool, now: real)
    | Rematch

  /** `Others` are numbers that the rest of the publisher takes for messages of its own. */
  function Step(w: Wire, e: Event): (Wire, seq<Sending>)
    requires WireValid(w)
  {
    match e
    case Open(rs, now) =>
      if rs == [] then (w, [])
      else
        var (after, sending) := OpenWindow(w, rs, now);
        (after, [sending])
    case Refresh(rs, now) => if rs == [] then (w, []) else RefreshWindow(w, rs, now)
    case Others(n) => (w.(issued := w.issued + n, next := (w.next + n) % SEQUENCE_SPAN), [])
    case Heard(a, s) => (w.(acknowledgement := a, lastClient := s), [])
    case Check(force, finished, now) =>
      var (after, sendings, _) := Update(w, force, finished, now);
      (after, sendings)
    case Rematch => (w.(pending := [], refreshed := false), [])
  }

  // ----- the window with one number

  function Find(ws: seq<Reliable>, number: int): Option<Reliable> {
    if ws == [] then None
    else if ws[|ws| - 1].number == number then Some(ws[|ws| - 1])
    else Find(ws[..|ws| - 1], number)
  }

  /** Everything sent for the window with one number. */
  function Of(sendings: seq<Sending>, number: int): seq<Sending> {
    if sendings == [] then []
    else
      var last := sendings[|sendings| - 1];
      Of(sendings[..|sendings| - 1], number) + (if last.number == number then [last] else [])
  }

  lemma {:induction false} OfPlus(a: seq<Sending>, b: seq<Sending>, number: int)
    ensures Of(a + b, number) == Of(a, number) + Of(b, number)
  {
    if b == [] {
      assert a + b == a;
    } else {
      assert (a + b)[..|a + b| - 1] == a + b[..|b| - 1];
      OfPlus(a, b[..|b| - 1], number);
    }
  }

  lemma {:induction false} OrderedBelow(ws: seq<Reliable>, limit: int, number: int)
    requires Ordered(ws, limit) && number >= limit
    ensures Find(ws, number) == None
  {
    if ws != [] {
      OrderedBelow(ws[..|ws| - 1], ws[|ws| - 1].number, number);
    }
  }

  lemma {:induction false} FoundIsValid(ws: seq<Reliable>, limit: int, number: int)
    requires Ordered(ws, limit) && Find(ws, number).Some?
    ensures var x := Find(ws, number).value; x.number == number && WindowValid(x) && number + |x.records| < limit
  {
    if ws[|ws| - 1].number != number {
      FoundIsValid(ws[..|ws| - 1], ws[|ws| - 1].number, number);
    }
  }

  lemma {:induction false} SurvivorFound(w: Wire, ws: seq<Reliable>, limit: int, finished: bool, now: real, number: int)
    requires Ordered(ws, limit)
    ensures Find(Survivors(w, ws, finished, now), number) ==
            match Find(ws, number)
            case None => None
            case Some(x) => if Survives(w, x, finished, now) then Some(x) else None
  {
    if ws != [] {
      var (init, x) := (ws[..|ws| - 1], ws[|ws| - 1]);
      SurvivorFound(w, init, x.number, finished, now, number);
      OrderedBelow(init, x.number, x.number);
      var before := Survivors(w, init, finished, now);
      assert (before + [x])[..|before|] == before;
      assert before + [] == before;
    }
  }

  ghost predicate AllLive(ws: seq<Reliable>, now: real) {
    forall i :: 0 <= i < |ws| ==> !ws[i].retry.Exhausted(now)
  }

  lemma {:induction false} SurvivorsLive(w: Wire, ws: seq<Reliable>, finished: bool, now: real)
    ensures AllLive(Survivors(w, ws, finished, now), now)
  {
    if ws != [] {
      SurvivorsLive(w, ws[..|ws| - 1], finished, now);
    }
  }

  /** Retrying changes one schedule for every datagram it sends, and nothing else. */
  ghost predicate Moved(w: Wire, was: Option<Reliable>, next: Option<Reliable>, sent: seq<Sending>, now: real) {
    match was
    case None => next == None && sent == []
    case Some(x) =>
      || (next == was && sent == [])
      || (x.records != [] && next == Some(Retransmitted(x, now)) && sent == [Resending(w, x, now)])
  }

  lemma {:induction false} RetryMoves(w: Wire, active: seq<Reliable>, limit: int, force: bool, now: real, number: int)
    requires Ordered(active, limit) && AllLive(active, now)
    ensures Ordered(Retried(active, force, now), limit)
    ensures Moved(w, Find(active, number), Find(Retried(active, force, now), number),
      Of(SendingsBelow(w, active, limit, force, now), number), now)
  {
    if active != [] {
      var (init, x) := (active[..|active| - 1], active[|active| - 1]);
      RetryMoves(w, init, x.number, force, now, number);
      OrderedBelow(init, x.number, x.number);
      assert active == init + [x];
      RetriedOrdered(w, init, x, limit, force, now);
      RetriedFound(w, init, x, limit, force, now, number);
    }
  }

  lemma RetriedOrdered(w: Wire, init: seq<Reliable>, x: Reliable, limit: int, force: bool, now: real)
    requires Ordered(init + [x], limit) && !x.retry.Exhausted(now) && Ordered(Retried(init, force, now), x.number)
    ensures Ordered(Retried(init + [x], force, now), limit)
  {
    assert (init + [x])[..|init|] == init;
    var before := Retried(init, force, now);
    var y := if Resends(x, |init|, force, now) then Retransmitted(x, now) else x;
    assert (before + [y])[..|before|] == before;
  }

  lemma FindLast(ws: seq<Reliable>, x: Reliable, number: int)
    ensures Find(ws + [x], number) == if x.number == number then Some(x) else Find(ws, number)
  {
    assert (ws + [x])[..|ws|] == ws;
  }

  lemma {:induction false} RetryLast(w: Wire, init: seq<Reliable>, x: Reliable, limit: int, force: bool, now: real)
    requires Ordered(init + [x], limit) && Ordered(init, x.number) && x.records != []
    ensures Retried(init + [x], force, now)
         == Retried(init, force, now) + [if Resends(x, |init|, force, now) then Retransmitted(x, now) else x]
    ensures SendingsBelow(w, init + [x], limit, force, now)
         == SendingsBelow(w, init, x.number, force, now) + SendingOf(w, x, |init|, force, now)
  {
    var active := init + [x];
    assert active[..|active| - 1] == init && active[|init|] == x;
  }

  lemma {:induction false} RetriedFound(w: Wire, init: seq<Reliable>, x: Reliable, limit: int, force: bool, now: real,
      number: int)
    requires Ordered(init + [x], limit) && Ordered(init, x.number) && Find(init, x.number) == None && x.records != []
    requires Moved(w, Find(init, number), Find(Retried(init, force, now), number),
      Of(SendingsBelow(w, init, x.number, force, now), number), now)
    ensures Moved(w, Find(init + [x], number), Find(Retried(init + [x], force, now), number),
      Of(SendingsBelow(w, init + [x], limit, force, now), number), now)
  {
    var y := if Resends(x, |init|, force, now) then Retransmitted(x, now) else x;
    RetryLast(w, init, x, limit, force, now);
    FindLast(init, x, number);
    FindLast(Retried(init, force, now), y, number);
    OneSending(w, x, |init|, force, now, SendingsBelow(w, init, x.number, force, now), number);
  }

  lemma OneSending(w: Wire, x: Reliable, i: nat, force: bool, now: real, sent: seq<Sending>, number: int)
    requires x.records != []
    ensures Of(sent + SendingOf(w, x, i, force, now), number)
         == Of(sent, number) + if x.number == number then SendingOf(w, x, i, force, now) else []
  {
    var more := SendingOf(w, x, i, force, now);
    OfPlus(sent, more, number);
    assert more != [] ==> more[..|more| - 1] == [];
  }

  /** A retry walk sends each window exactly when it is forced to, or when the window is the first and due. */
  lemma {:induction false} SentIff(w: Wire, active: seq<Reliable>, limit: int, force: bool, now: real, k: nat)
    requires Ordered(active, limit) && k < |active|
    ensures active[k].records != []
    ensures Of(SendingsBelow(w, active, limit, force, now), active[k].number)
         == if force || (k == 0 && active[0].retry.Due(now)) then [Resending(w, active[k], now)] else []
    decreases |active|
  {
    var (i, x) := (|active| - 1, active[|active| - 1]);
    NumbersRise(active, limit, k);
    var sent := SendingsBelow(w, active[..i], x.number, force, now);
    OneSending(w, x, i, force, now, sent, active[k].number);
    if k < i {
      SentIff(w, active[..i], x.number, force, now, k);
    } else {
      NothingSentAbove(w, active[..i], x.number, force, now, x.number);
    }
  }

  lemma {:induction false} NumbersRise(ws: seq<Reliable>, limit: int, k: nat)
    requires Ordered(ws, limit) && k < |ws|
    ensures k < |ws| - 1 ==> ws[k].number < ws[|ws| - 1].number
    ensures ws[k].number < limit && WindowValid(ws[k])
    decreases |ws|
  {
    if k < |ws| - 1 {
      NumbersRise(ws[..|ws| - 1], ws[|ws| - 1].number, k);
    }
  }

  lemma {:induction false} NothingSentAbove(w: Wire, active: seq<Reliable>, limit: int, force: bool, now: real,
      number: int)
    requires Ordered(active, limit) && number >= limit
    ensures Of(SendingsBelow(w, active, limit, force, now), number) == []
    decreases |active|
  {
    if active != [] {
      var (i, x) := (|active| - 1, active[|active| - 1]);
      NothingSentAbove(w, active[..i], x.number, force, now, number);
      OneSending(w, x, i, force, now, SendingsBelow(w, active[..i], x.number, force, now), number);
    }
  }

  /** A step keeps every endpoint's windows valid and apart. */
  lemma StepKeepsValid(w: Wire, e: Event)
    requires WireValid(w)
    ensures WireValid(Step(w, e).0)
  {
    match e
    case Open(rs, now) =>
      if rs != [] {
        OpenKeepsValid(w, rs, now);
      }
    case Refresh(rs, now) =>
      if rs != [] {
        OpenKeepsValid(w, rs, now);
      }
    case Others(n) =>
      OrderedHigher(w.pending, w.issued, w.issued + n);
    case Heard(_, _) =>
    case Check(force, finished, now) =>
      var active := Survivors(w, w.pending, finished, now);
      SurvivorsOrdered(w, w.pending, w.issued, finished, now);
      SurvivorsLive(w, w.pending, finished, now);
      RetryMoves(w, active, w.issued, force, now, 0);
    case Rematch =>
  }

  lemma OrderedHigher(ws: seq<Reliable>, limit: int, higher: int)
    requires Ordered(ws, limit) && limit <= higher
    ensures Ordered(ws, higher)
  {
  }

  lemma OpenKeepsValid(w: Wire, rs: seq<string>, now: real)
    requires WireValid(w) && rs != []
    ensures WireValid(OpenWindow(w, rs, now).0)
  {
    var after := OpenWindow(w, rs, now).0;
    assert after.pending[..|w.pending|] == w.pending;
    SpanPlus(w.issued, |rs|);
    SpanPlus(w.issued + |rs|, 1);
  }

  lemma SpanPlus(a: int, b: int)
    ensures (a % SEQUENCE_SPAN + b) % SEQUENCE_SPAN == (a + b) % SEQUENCE_SPAN
  {
    ShiftBySpans(a % SEQUENCE_SPAN + b, a / SEQUENCE_SPAN);
  }

  /** What one step does to the window with a number that was given out. */
  lemma StepMoves(w: Wire, e: Event, number: int)
    requires WireValid(w) && number < w.issued
    ensures e.Check? ==>
      (match Find(w.pending, number)
       case None => Find(Step(w, e).0.pending, number) == None && Of(Step(w, e).1, number) == []
       case Some(x) =>
         if Survives(w, x, e.finished, e.now)
         then Moved(w, Some(x), Find(Step(w, e).0.pending, number), Of(Step(w, e).1, number), e.now)
         else Find(Step(w, e).0.pending, number) == None && Of(Step(w, e).1, number) == [])
    ensures !e.Check? ==> Of(Step(w, e).1, number) == []
    ensures !e.Check? && !e.Rematch? ==> Find(Step(w, e).0.pending, number) == Find(w.pending, number)
    ensures e.Rematch? ==> Find(Step(w, e).0.pending, number) == None
    ensures Step(w, e).0.issued >= w.issued
  {
    assert Of([], number) == [];
    match e
    case Open(rs, now) =>
      if rs != [] {
        OpenLeavesOthers(w, rs, now, number);
      }
    case Refresh(rs, now) =>
      if rs != [] {
        OpenLeavesOthers(w, rs, now, number);
      }
    case Others(_) =>
    case Heard(_, _) =>
    case Check(force, finished, now) =>
      var active := Survivors(w, w.pending, finished, now);
      SurvivorsOrdered(w, w.pending, w.issued, finished, now);
      SurvivorsLive(w, w.pending, finished, now);
      SurvivorFound(w, w.pending, w.issued, finished, now, number);
      RetryMoves(w, active, w.issued, force, now, number);
    case Rematch =>
  }

  lemma OpenLeavesOthers(w: Wire, rs: seq<string>, now: real, number: int)
    requires WireValid(w) && rs != [] && number != w.issued
    ensures Find(OpenWindow(w, rs, now).0.pending, number) == Find(w.pending, number)
    ensures Of([OpenWindow(w, rs, now).1], number) == []
  {
    var (after, sending) := OpenWindow(w, rs, now);
    assert after.pending[..|w.pending|] == w.pending;
    assert [sending][..0] == [];
  }

  /**
   A window disappears only because its acknowledgement came, its retries or time ran out (which
   is reported), or the race is over.
   */
  lemma LeavesOnlyWhenDone(w: Wire, e: Event, number: int)
    requires WireValid(w) && Find(w.pending, number).Some?
    ensures Find(Step(w, e).0.pending, number).None? <==>
      var x := Find(w.pending, number).value;
      e.Rematch? || (e.Check? && (Acknowledged(w, x) || e.finished || x.retry.Exhausted(e.now)))
    ensures var x := Find(w.pending, number).value;
      e.Check? && !Acknowledged(w, x) && !e.finished && x.retry.Exhausted(e.now) ==>
        Update(w, e.force, e.finished, e.now).2
  {
    FoundIsValid(w.pending, w.issued, number);
    StepMoves(w, e, number);
    FoundIn(w.pending, number);
  }

  lemma {:induction false} FoundIn(ws: seq<Reliable>, number: int)
    requires Find(ws, number).Some?
    ensures exists i :: 0 <= i < |ws| && ws[i] == Find(ws, number).value
  {
    if ws[|ws| - 1].number != number {
      FoundIn(ws[..|ws| - 1], number);
      var i :| 0 <= i < |ws| - 1 && ws[..|ws| - 1][i] == Find(ws[..|ws| - 1], number).value;
      assert ws[i] == Find(ws, number).value;
    }
  }

  /**
   While the client's true counter is within 2^27, the acknowledgement that retires a window is
   one past its last message.
   */
  lemma AcknowledgedMeans(w: Wire, number: int)
    requires WireValid(w) && Find(w.pending, number).Some?
    requires var last := number + |Find(w.pending, number).value.records|;
             -SEQUENCE_HALF < w.acknowledgement - last < SEQUENCE_HALF
    ensures Acknowledged(w, Find(w.pending, number).value) <==>
      w.acknowledgement >= number + |Find(w.pending, number).value.records|
  {
    FoundIsValid(w.pending, w.issued, number);
    WrappedOrder(w.acknowledgement, number + |Find(w.pending, number).value.records|);
  }

  // ----- runs

  function Run(w: Wire, events: seq<Event>): Wire
    requires WireValid(w)
    decreases |events|
  {
    if events == [] then w else StepKeepsValid(w, events[0]); Run(Step(w, events[0]).0, events[1..])
  }

  function Log(w: Wire, events: seq<Event>): seq<Sending>
    requires WireValid(w)
    decreases |events|
  {
    if events == [] then []
    else StepKeepsValid(w, events[0]); Step(w, events[0]).1 + Log(Step(w, events[0]).0, events[1..])
  }

  /** Datagrams that carry the messages of one window under its own numbers, before a deadline. */
  ghost predicate Carry(sendings: seq<Sending>, base: int, records: seq<string>, deadline: real)
    requires records != []
  {
    forall i :: 0 <= i < |sendings| ==>
      sendings[i].time < deadline && exists a: int :: sendings[i].packets == Packets(base, a, records)
  }

  lemma CarryPlus(a: seq<Sending>, b: seq<Sending>, base: int, records: seq<string>, deadline: real)
    requires records != [] && Carry(a, base, records, deadline) && Carry(b, base, records, deadline)
    ensures Carry(a + b, base, records, deadline)
  {
  }

  /** A window that is gone is never sent again. */
  lemma {:induction false} GoneStaysGone(w: Wire, events: seq<Event>, number: int)
    requires WireValid(w) && number < w.issued && Find(w.pending, number).None?
    ensures Of(Log(w, events), number) == []
    decreases |events|
  {
    if events != [] {
      StepKeepsValid(w, events[0]);
      StepMoves(w, events[0], number);
      GoneStaysGone(Step(w, events[0]).0, events[1..], number);
      OfPlus(Step(w, events[0]).1, Log(Step(w, events[0]).0, events[1..]), number);
    }
  }

  /** An open window is sent again at most as often as its schedule allows, always the same, and before its deadline. */
  lemma {:induction false} OpenWindowFuture(w: Wire, events: seq<Event>, x: Reliable)
    requires WireValid(w) && Find(w.pending, x.number) == Some(x)
    ensures x.records != []
    ensures |Of(Log(w, events), x.number)| <= POLICY.maximumRetries - x.retry.retriesSent
    ensures Carry(Of(Log(w, events), x.number), x.base, x.records, x.retry.deadline)
    decreases |events|
  {
    FoundIsValid(w.pending, w.issued, x.number);
    if events != [] {
      var (e, number) := (events[0], x.number);
      var (after, sent, later) := (Step(w, e).0, Step(w, e).1, events[1..]);
      StepKeepsValid(w, e);
      StepMoves(w, e, number);
      OfPlus(sent, Log(after, later), number);
      StepCarries(w, e, x);
      match Find(after.pending, number)
      case None => GoneStaysGone(after, later, number);
      case Some(y) =>
        OpenWindowFuture(after, later, y);
        CarryPlus(Of(sent, number), Of(Log(after, later), number), x.base, x.records, x.retry.deadline);
    }
  }

  lemma {:induction false} StepCarries(w: Wire, e: Event, x: Reliable)
    requires WireValid(w) && Find(w.pending, x.number) == Some(x)
    ensures x.records != [] && Carry(Of(Step(w, e).1, x.number), x.base, x.records, x.retry.deadline)
    ensures |Of(Step(w, e).1, x.number)| == 1 ==> Find(Step(w, e).0.pending, x.number).Some?
    ensures match Find(Step(w, e).0.pending, x.number)
            case None => Of(Step(w, e).1, x.number) == []
            case Some(y) =>
              && y.number == x.number && y.base == x.base && y.records == x.records
              && y.retry.deadline == x.retry.deadline
              && y.retry.retriesSent == x.retry.retriesSent + |Of(Step(w, e).1, x.number)|
  {
    FoundIsValid(w.pending, w.issued, x.number);
    StepMoves(w, e, x.number);
  }

  /** A number not given out yet: whatever is sent under it is one window, at most nine times, within thirty seconds. */
  lemma {:induction false} NewWindowFuture(w: Wire, events: seq<Event>, number: int)
    requires WireValid(w) && number >= w.issued
    ensures |Of(Log(w, events), number)| <= 1 + POLICY.maximumRetries
    ensures Of(Log(w, events), number) != [] ==> OneWindow(Of(Log(w, events), number), number)
    decreases |events|
  {
    if events != [] {
      var e := events[0];
      var (after, sent, later) := (Step(w, e).0, Step(w, e).1, events[1..]);
      StepKeepsValid(w, e);
      OfPlus(sent, Log(after, later), number);
      StepToUnused(w, e, number);
      if number >= after.issued {
        NewWindowFuture(after, later, number);
        assert [] + Of(Log(after, later), number) == Of(Log(after, later), number);
      } else if Find(after.pending, number).Some? {
        var x := Find(after.pending, number).value;
        OpenWindowFuture(after, later, x);
        CarryPlus(Of(sent, number), Of(Log(after, later), number), x.base, x.records, x.retry.deadline);
        assert Repeats(Of(sent, number) + Of(Log(after, later), number), number, x.records);
      } else {
        GoneStaysGone(after, later, number);
      }
    }
  }

  /** Sendings of one window: the first opens it, all repeat its messages under the same numbers. */
  ghost predicate OneWindow(sendings: seq<Sending>, number: int)
    requires sendings != []
  {
    exists records: seq<string> :: Repeats(sendings, number, records)
  }

  ghost predicate Repeats(sendings: seq<Sending>, number: int, records: seq<string>)
    requires sendings != []
  {
    records != [] && Carry(sendings, number % SEQUENCE_SPAN, records, sendings[0].time + POLICY.timeout)
  }

  /** The state right after a number was given out: either nothing was sent under it, or one window was opened. */
  ghost predicate JustGiven(after: Wire, sent: seq<Sending>, number: int) {
    match Find(after.pending, number)
    case None => sent == []
    case Some(x) => Opens(x, sent, number)
  }

  ghost predicate Opens(x: Reliable, sent: seq<Sending>, number: int) {
    && |sent| == 1 && x.records != [] && x.base == number % SEQUENCE_SPAN && x.number == number
    && x.retry.deadline == sent[0].time + POLICY.timeout && x.retry.retriesSent == 0
    && Carry(sent, x.base, x.records, x.retry.deadline)
  }

  lemma StepToUnused(w: Wire, e: Event, number: int)
    requires WireValid(w) && number >= w.issued
    ensures number >= Step(w, e).0.issued ==> Of(Step(w, e).1, number) == []
    ensures number < Step(w, e).0.issued ==> JustGiven(Step(w, e).0, Of(Step(w, e).1, number), number)
  {
    OrderedBelow(w.pending, w.issued, number);
    assert Of([], number) == [];
    match e
    case Open(rs, now) =>
      if rs != [] {
        OpenUnused(w, rs, now, number);
      }
    case Refresh(rs, now) =>
      if rs != [] {
        OpenUnused(w, rs, now, number);
      }
    case Others(_) =>
    case Heard(_, _) =>
    case Check(force, finished, now) => CheckUnused(w, force, finished, now, number);
    case Rematch =>
  }

  lemma CheckUnused(w: Wire, force: bool, finished: bool, now: real, number: int)
    requires WireValid(w) && number >= w.issued
    ensures Of(Update(w, force, finished, now).1, number) == []
  {
    var active := Survivors(w, w.pending, finished, now);
    OrderedBelow(w.pending, w.issued, number);
    SurvivorsOrdered(w, w.pending, w.issued, finished, now);
    SurvivorsLive(w, w.pending, finished, now);
    SurvivorFound(w, w.pending, w.issued, finished, now, number);
    RetryMoves(w, active, w.issued, force, now, number);
  }

  lemma OpenUnused(w: Wire, rs: seq<string>, now: real, number: int)
    requires WireValid(w) && rs != [] && number >= w.issued
    ensures number == w.issued ==> JustGiven(OpenWindow(w, rs, now).0, Of([OpenWindow(w, rs, now).1], number), number)
    ensures number > w.issued ==>
      Of([OpenWindow(w, rs, now).1], number) == [] && Find(OpenWindow(w, rs, now).0.pending, number) == None
  {
    var (after, sending) := OpenWindow(w, rs, now);
    OrderedBelow(w.pending, w.issued, number);
    assert after.pending[..|w.pending|] == w.pending;
    assert [sending][..0] == [] && Of([], number) == [];
    if number == w.issued {
      assert w.next % SEQUENCE_SPAN == w.issued % SEQUENCE_SPAN;
      assert Of([sending], number) == [sending];
      assert sending.packets == Packets(number % SEQUENCE_SPAN, w.lastClient % SEQUENCE_SPAN, rs);
    }
  }
}
