/** Coordinator-owned cars: admission, relay and delivery as objects update them. */
module AiRegistration {
  import opened Options
  import opened LatinText
  import opened Words
  import R = Retry
  import C = Confirmations
  import opened AiWindows

  const CAR_TYPE := 0x05
  const MAX_NAME: nat := 0x20

  // ----- one registration message

  /** The leading registration without the history and footer behind it. */
  function CurrentBody(logical: string): Option<string> {
    if |logical| < 17 || logical[..4] != READY_MESSAGE[..4] || logical[4] as int != CAR_TYPE then None
    else
      var nameLength := UnpackShort(logical[15..17]);
      if nameLength == 0 || nameLength > MAX_NAME || 17 + nameLength > |logical| then None
      else Some(logical[..17 + nameLength])
  }

  predicate IsBody(body: string) {
    CurrentBody(body) == Some(body)
  }

  function CarId(body: string): nat
    requires |body| >= 9
  {
    UnpackWord(body[5..9])
  }

  /** The body with its controller set to nobody. */
  function Sanitized(body: string): string
    requires |body| >= 17
  {
    body[..11] + ['\0', '\0', '\0', '\0'] + body[15..]
  }

  /** What is cut out is a complete body, whatever follows it. */
  lemma CurrentBodyIgnoresHistory(logical: string, tail: string)
    requires CurrentBody(logical).Some?
    ensures var body := CurrentBody(logical).value;
            body <= logical && 18 <= |body| <= 17 + MAX_NAME && CurrentBody(body + tail) == Some(body) && IsBody(body)
  {
    var body := CurrentBody(logical).value;
    var more := body + tail;
    assert more[..4] == logical[..4] && more[15..17] == logical[15..17];
    assert more[..|body|] == body;
    assert body[..4] == logical[..4] && body[15..17] == logical[15..17];
    assert body[..|body|] == body;
  }

  /** Clearing the controller keeps a body a body, of the same car. */
  lemma SanitizedIsBody(body: string)
    requires IsBody(body)
    ensures IsBody(Sanitized(body)) && CarId(Sanitized(body)) == CarId(body)
    ensures Sanitized(Sanitized(body)) == Sanitized(body)
  {
    var clean := Sanitized(body);
    assert clean[..4] == body[..4] && clean[15..17] == body[15..17] && clean[5..9] == body[5..9];
    assert clean[..|clean|] == clean;
  }

  // ----- admission

  datatype Car = Car(id: nat, body: string)

  predicate Known(cars: seq<Car>, id: nat) {
    exists i :: 0 <= i < |cars| && cars[i].id == id
  }

  /** The car a message asks for, cleaned. */
  function Asked(logical: string): Option<Car> {
    match CurrentBody(logical)
    case None => None
    case Some(body) =>
      if |body| < 17 || CarId(body) == 0 then None else Some(Car(CarId(body), Sanitized(body)))
  }

  /** The cars that messages add to those already known. */
  function Admitted(cars: seq<Car>, logicals: seq<string>): seq<Car> {
    if logicals == [] then []
    else
      var before := Admitted(cars, logicals[..|logicals| - 1]);
      match Asked(logicals[|logicals| - 1])
      case None => before
      case Some(car) => if Known(cars + before, car.id) then before else before + [car]
  }

  ghost predicate Registry(cars: seq<Car>) {
    && (forall i :: 0 <= i < |cars| ==>
      IsBody(cars[i].body) && 0 < cars[i].id == CarId(cars[i].body) && Sanitized(cars[i].body) == cars[i].body)
    && forall i, j :: 0 <= i < j < |cars| ==> cars[i].id != cars[j].id
  }

  lemma AskedIsBody(logical: string)
    requires Asked(logical).Some?
    ensures var car := Asked(logical).value;
      IsBody(car.body) && 0 < car.id == CarId(car.body) && Sanitized(car.body) == car.body
  {
    CurrentBodyIgnoresHistory(logical, "");
    SanitizedIsBody(CurrentBody(logical).value);
  }

  ghost predicate AllKnown(cars: seq<Car>, logicals: seq<string>) {
    forall i :: 0 <= i < |logicals| && Asked(logicals[i]).Some? ==> Known(cars, Asked(logicals[i]).value.id)
  }

  ghost predicate AllFirst(logicals: seq<string>, added: seq<Car>) {
    forall k :: 0 <= k < |added| ==> FirstAsked(logicals, added[k])
  }

  /** Every car id is admitted once, with the body of the first message that asked for it. */
  lemma {:induction false} AdmissionOnce(cars: seq<Car>, logicals: seq<string>)
    requires Registry(cars)
    ensures Registry(cars + Admitted(cars, logicals))
    ensures AllKnown(cars + Admitted(cars, logicals), logicals)
    ensures AllFirst(logicals, Admitted(cars, logicals))
  {
    if logicals == [] {
      assert cars + [] == cars;
    } else {
      var (init, last) := (logicals[..|logicals| - 1], logicals[|logicals| - 1]);
      assert logicals == init + [last];
      AdmissionOnce(cars, init);
      if Asked(last).Some? {
        AdmitLast(cars, init, last);
      } else {
        FirstAskedStays(cars, init, last);
      }
    }
  }

  /** A car taken from the first message with its id. */
  ghost predicate FirstAsked(logicals: seq<string>, car: Car) {
    exists i :: 0 <= i < |logicals| && Asked(logicals[i]) == Some(car)
      && forall j :: 0 <= j < i && Asked(logicals[j]).Some? ==> Asked(logicals[j]).value.id != car.id
  }

  lemma FirstAskedStays(cars: seq<Car>, init: seq<string>, last: string)
    requires AllFirst(init, Admitted(cars, init))
    ensures AllFirst(init + [last], Admitted(cars, init))
  {
    var all := init + [last];
    forall k | 0 <= k < |Admitted(cars, init)| ensures FirstAsked(all, Admitted(cars, init)[k]) {
      var car := Admitted(cars, init)[k];
      var i :| 0 <= i < |init| && Asked(init[i]) == Some(car)
        && forall j :: 0 <= j < i && Asked(init[j]).Some? ==> Asked(init[j]).value.id != car.id;
      assert Asked(all[i]) == Some(car);
    }
  }

  lemma AdmitLast(cars: seq<Car>, init: seq<string>, last: string)
    requires Registry(cars + Admitted(cars, init)) && Asked(last).Some?
    requires AllKnown(cars + Admitted(cars, init), init) && AllFirst(init, Admitted(cars, init))
    ensures Registry(cars + Admitted(cars, init + [last]))
    ensures AllKnown(cars + Admitted(cars, init + [last]), init + [last])
    ensures AllFirst(init + [last], Admitted(cars, init + [last]))
  {
    var all := init + [last];
    var (before, car) := (cars + Admitted(cars, init), Asked(last).value);
    assert all[..|all| - 1] == init && all[|init|] == last;
    FirstAskedStays(cars, init, last);
    AskedIsBody(last);
    if !Known(before, car.id) {
      assert Admitted(cars, all) == Admitted(cars, init) + [car];
      assert cars + Admitted(cars, all) == before + [car];
      KnownMore(before, car);
      assert Asked(all[|init|]) == Some(car);
      assert forall j :: 0 <= j < |init| ==> all[j] == init[j];
      assert FirstAsked(all, car);
      RegistryMore(before, car);
    }
  }

  lemma KnownMore(cars: seq<Car>, car: Car)
    ensures Known(cars + [car], car.id)
    ensures forall id: nat :: Known(cars, id) ==> Known(cars + [car], id)
  {
    var more := cars + [car];
    assert more[|cars|] == car;
    forall id: nat | Known(cars, id) ensures Known(more, id) {
      var i :| 0 <= i < |cars| && cars[i].id == id;
      assert more[i].id == id;
    }
  }

  lemma RegistryMore(cars: seq<Car>, car: Car)
    requires Registry(cars) && !Known(cars, car.id)
    requires IsBody(car.body) && 0 < car.id == CarId(car.body) && Sanitized(car.body) == car.body
    ensures Registry(cars + [car])
  {
  }

  function AdmitAll(cars: seq<Car>, batches: seq<seq<string>>): seq<Car>
    decreases |batches|
  {
    if batches == [] then cars else AdmitAll(cars + Admitted(cars, batches[0]), batches[1..])
  }

  /** Over any run of relays a car keeps its first body and is never admitted again. */
  lemma {:induction false} RelaysAdmitOnce(cars: seq<Car>, batches: seq<seq<string>>)
    requires Registry(cars)
    ensures Registry(AdmitAll(cars, batches)) && cars <= AdmitAll(cars, batches)
    ensures forall b :: 0 <= b < |batches| ==> AllKnown(AdmitAll(cars, batches), batches[b])
    decreases |batches|
  {
    if batches != [] {
      var more := cars + Admitted(cars, batches[0]);
      AdmissionOnce(cars, batches[0]);
      RelaysAdmitOnce(more, batches[1..]);
      var last := AdmitAll(cars, batches);
      forall id: nat | Known(more, id) ensures Known(last, id) {
        var i :| 0 <= i < |more| && more[i].id == id;
        assert last[i] == more[i];
      }
      forall b | 0 <= b < |batches| ensures AllKnown(last, batches[b]) {
        assert b > 0 ==> batches[b] == batches[1..][b - 1];
      }
    }
  }

  /** The body of every car, in order. */
  function Bodies(cars: seq<Car>): (bodies: seq<string>)
    ensures |bodies| == |cars| && forall i :: 0 <= i < |cars| ==> bodies[i] == cars[i].body
  {
    if cars == [] then [] else Bodies(cars[..|cars| - 1]) + [cars[|cars| - 1].body]
  }

  // ----- the stages of a delivery update

  function Unacknowledged(w: Wire, ws: seq<Reliable>): seq<Reliable> {
    if ws == [] then []
    else Unacknowledged(w, ws[..|ws| - 1]) + (if Acknowledged(w, ws[|ws| - 1]) then [] else [ws[|ws| - 1]])
  }

  function Unexhausted(ws: seq<Reliable>, now: real): seq<Reliable> {
    if ws == [] then []
    else Unexhausted(ws[..|ws| - 1], now) + (if ws[|ws| - 1].retry.Exhausted(now) then [] else [ws[|ws| - 1]])
  }

  predicate AnyExhausted(ws: seq<Reliable>, now: real) {
    exists i :: 0 <= i < |ws| && ws[i].retry.Exhausted(now)
  }

  /** Filtering in stages leaves the survivors and reports the same failures. */
  lemma {:induction false} StagesAgree(w: Wire, ws: seq<Reliable>, finished: bool, now: real)
    ensures Survivors(w, ws, finished, now) == if finished then [] else Unexhausted(Unacknowledged(w, ws), now)
    ensures Reports(w, ws, finished, now) <==> !finished && AnyExhausted(Unacknowledged(w, ws), now)
  {
    if ws != [] {
      var (init, x) := (ws[..|ws| - 1], ws[|ws| - 1]);
      StagesAgree(w, init, finished, now);
      var before := Unacknowledged(w, init);
      assert before + [] == before;
      assert (before + [x])[..|before|] == before;
      ExhaustedMore(before, x, now);
      assert Reports(w, ws, finished, now) <==>
        Reports(w, init, finished, now) || (!Acknowledged(w, x) && !finished && x.retry.Exhausted(now)) by {
        if Reports(w, init, finished, now) {
          var i :| 0 <= i < |init| && !Acknowledged(w, init[i]) && !finished && init[i].retry.Exhausted(now);
          assert ws[i] == init[i];
        }
      }
    }
  }

  lemma ExhaustedMore(ws: seq<Reliable>, x: Reliable, now: real)
    ensures AnyExhausted(ws + [x], now) <==> AnyExhausted(ws, now) || x.retry.Exhausted(now)
  {
    var more := ws + [x];
    if AnyExhausted(ws, now) {
      var i :| 0 <= i < |ws| && ws[i].retry.Exhausted(now);
      assert more[i] == ws[i];
    }
    assert more[|ws|] == x;
  }

  /** The update, stage by stage. */
  lemma UpdateInStages(w: Wire, force: bool, finished: bool, now: real)
    requires WireValid(w)
    ensures Unacknowledged(w, w.pending) == [] || finished ==>
      Update(w, force, finished, now) == (w.(pending := []), [], false)
    ensures Unacknowledged(w, w.pending) != [] && !finished ==>
      var active := Unexhausted(Unacknowledged(w, w.pending), now);
      Ordered(active, w.issued) && Update(w, force, finished, now)
        == (w.(pending := Retried(active, force, now)), Sendings(w, active, force, now),
          AnyExhausted(Unacknowledged(w, w.pending), now))
  {
    StagesAgree(w, w.pending, finished, now);
    SurvivorsOrdered(w, w.pending, w.issued, finished, now);
  }

  lemma {:induction false} OrderedPrefix(ws: seq<Reliable>, limit: int, i: nat)
    requires Ordered(ws, limit) && i <= |ws|
    ensures Ordered(ws[..i], limit)
    decreases |ws|
  {
    if i < |ws| {
      var x := ws[|ws| - 1];
      OrderedPrefix(ws[..|ws| - 1], x.number, i);
      assert ws[..|ws| - 1][..i] == ws[..i];
    } else {
      assert ws[..i] == ws;
    }
  }

  /** One more window of the retry walk. */
  lemma RetryOne(w: Wire, active: seq<Reliable>, i: nat, force: bool, now: real)
    requires i < |active| && Ordered(active, w.issued)
    ensures Ordered(active[..i], w.issued) && Ordered(active[..i + 1], w.issued) && active[i].records != []
    ensures active[i].base % C.SEQUENCE_SPAN == active[i].base
    ensures Retried(active[..i + 1], force, now)
         == Retried(active[..i], force, now)
           + [if Resends(active[i], i, force, now) then Retransmitted(active[i], now) else active[i]]
    ensures |Retried(active[..i], force, now)| == i
    ensures Sendings(w, active[..i + 1], force, now)
         == Sendings(w, active[..i], force, now)
           + (if Resends(active[i], i, force, now) then [Resending(w, active[i], now)] else [])
  {
    OrderedPrefix(active, w.issued, i);
    OrderedPrefix(active, w.issued, i + 1);
    assert active[..i + 1][..i] == active[..i];
    RetriedLength(active[..i], force, now);
    SendingsSame(w, active[..i], w.issued, active[i].number, force, now);
  }

  lemma {:induction false} RetriedLength(active: seq<Reliable>, force: bool, now: real)
    ensures |Retried(active, force, now)| == |active|
  {
    if active != [] {
      RetriedLength(active[..|active| - 1], force, now);
    }
  }

  lemma SendingsSame(w: Wire, active: seq<Reliable>, limit: int, other: int, force: bool, now: real)
    requires Ordered(active, limit) && Ordered(active, other)
    ensures SendingsBelow(w, active, limit, force, now) == SendingsBelow(w, active, other, force, now)
  {
  }

  // ----- objects

  class Endpoint {
    var issued: int
    var next: int
    var acknowledgement: int
    var lastClient: int
    var pending: seq<Reliable>
    var refreshed: bool

    function View(): Wire
      reads this
    {
      Wire(issued, next, acknowledgement, lastClient, pending, refreshed)
    }

    constructor ()
      ensures View() == Wire(0x101, 0x101, 0xFF, 0xFF, [], false) && WireValid(View())
    {
      issued, next, acknowledgement, lastClient := 0x101, 0x101, 0xFF, 0xFF;
      pending, refreshed := [], false;
    }

    /** The packets of a window, under new numbers or, for a retry, under the given ones. */
    method AppendWindow(records: seq<string>, again: Option<int>) returns (base: int, final: int, packets: seq<Packet>)
      requires records != []
      modifies this
      ensures base == (if again.None? then old(next) else again.value) % C.SEQUENCE_SPAN
      ensures final == (base + |records|) % C.SEQUENCE_SPAN
      ensures packets == Packets(base, lastClient % C.SEQUENCE_SPAN, records)
      ensures View() == if again.Some? then old(View())
                        else old(View()).(issued := old(issued) + |records| + 1, next := (final + 1) % C.SEQUENCE_SPAN)
    {
      base := (if again.None? then next else again.value) % C.SEQUENCE_SPAN;
      var client := lastClient % C.SEQUENCE_SPAN;
      packets := [];
      for index := 0 to |records|
        invariant packets == RecordPackets(base, client, records[..index])
      {
        var repeated := if index == 0 then [records[index]] else [records[index], records[index - 1]];
        packets := packets + [Packet(Word(|repeated| - 1, base + index), client, repeated)];
        assert records[..index + 1][..index] == records[..index];
      }
      assert records[..|records|] == records;
      packets := packets + [ReadyPacket(base, client, records)];
      final := (base + |records|) % C.SEQUENCE_SPAN;
      if again.None? {
        issued := issued + |records| + 1;
        next := (final + 1) % C.SEQUENCE_SPAN;
      }
    }

    method Publish(records: seq<string>, now: real) returns (sending: Sending)
      requires records != []
      modifies this
      ensures (View(), sending) == OpenWindow(old(View()), records, now)
    {
      var number := issued;
      var base, final, packets := AppendWindow(records, None);
      pending := pending + [Reliable(number, records, base, final, POLICY.Begin(now))];
      sending := Sending(number, now, packets);
    }

    method DropAcknowledged() returns (left: seq<Reliable>)
      ensures left == Unacknowledged(View(), pending)
    {
      left := [];
      for i := 0 to |pending|
        invariant left == Unacknowledged(View(), pending[..i])
      {
        assert pending[..i + 1][..i] == pending[..i];
        if !Acknowledged(View(), pending[i]) {
          left := left + [pending[i]];
        }
      }
      assert pending[..|pending|] == pending;
    }

    /** Confirms, drops and sends again; `failed` reports windows that ran out of retries or time. */
    method UpdateDelivery(force: bool, finished: bool, now: real) returns (failed: bool, sent: seq<Sending>)
      requires WireValid(View())
      modifies this
      ensures (View(), sent, failed) == Update(old(View()), force, finished, now)
    {
      var unconfirmed := DropAcknowledged();
      UpdateInStages(View(), force, finished, now);
      if unconfirmed == [] || finished {
        pending := [];
        return false, [];
      }
      var active, exhausted := DropExhausted(unconfirmed, now);
      sent := Retransmit(active, force, now);
      failed := exhausted;
    }

    /** The retry walk over the windows that are left. */
    method Retransmit(active: seq<Reliable>, force: bool, now: real) returns (sent: seq<Sending>)
      requires Ordered(active, issued)
      modifies this
      ensures View() == old(View()).(pending := Retried(active, force, now))
      ensures sent == Sendings(old(View()), active, force, now)
    {
      ghost var was := View();
      sent := [];
      var walked := [];
      OrderedPrefix(active, issued, 0);
      for i := 0 to |active|
        invariant View() == was && Ordered(active[..i], issued)
        invariant walked == Retried(active[..i], force, now) && sent == Sendings(was, active[..i], force, now)
      {
        RetryOne(was, active, i, force, now);
        var x := active[i];
        if Resends(x, i, force, now) {
          var sending := Resend(x, now);
          sent, x := sent + [sending], x.(retry := x.retry.Retried(now));
        }
        walked := walked + [x];
      }
      assert active[..|active|] == active;
      pending := walked;
    }

    method Resend(x: Reliable, now: real) returns (sending: Sending)
      requires x.records != []
      modifies this
      ensures View() == old(View()) && sending == Resending(View(), x, now)
    {
      var _, _, packets := AppendWindow(x.records, Some(x.base));
      sending := Sending(x.number, now, packets);
    }
  }

  method DropExhausted(windows: seq<Reliable>, now: real) returns (active: seq<Reliable>, failed: bool)
    ensures active == Unexhausted(windows, now)
    ensures failed <==> AnyExhausted(windows, now)
  {
    active, failed := [], false;
    for i := 0 to |windows|
      invariant active == Unexhausted(windows[..i], now)
      invariant failed <==> exists k :: 0 <= k < i && windows[k].retry.Exhausted(now)
    {
      assert windows[..i + 1][..i] == windows[..i];
      if windows[i].retry.ExhaustionReason(now).Live? {
        active := active + [windows[i]];
      } else {
        failed := true;
      }
    }
    assert windows[..|windows|] == windows;
  }

  class Race {
    var cars: seq<Car>

    constructor ()
      ensures cars == [] && Registry(cars)
    {
      cars := [];
    }

    method Admit(logicals: seq<string>) returns (added: seq<Car>)
      requires Registry(cars)
      modifies this
      ensures added == Admitted(old(cars), logicals) && cars == old(cars) + added && Registry(cars)
    {
      added := [];
      for i := 0 to |logicals|
        invariant added == Admitted(old(cars), logicals[..i]) && cars == old(cars) + added
      {
        assert logicals[..i + 1][..i] == logicals[..i];
        var asked := Asked(logicals[i]);
        if asked.Some? && !Known(cars, asked.value.id) {
          cars := cars + [asked.value];
          added := added + [asked.value];
        }
      }
      assert logicals[..|logicals|] == logicals;
      AdmissionOnce(old(cars), logicals);
    }

    /** Admits new cars and opens one window with all of them at every destination. */
    method Relay(destinations: seq<Endpoint>, logicals: seq<string>, now: real) returns (replies: seq<Sending>)
      requires Registry(cars) && forall i, j :: 0 <= i < j < |destinations| ==> destinations[i] != destinations[j]
      modifies this, destinations
      ensures cars == old(cars) + Admitted(old(cars), logicals) && Registry(cars)
      ensures Admitted(old(cars), logicals) == [] ==>
        replies == [] && forall i :: 0 <= i < |destinations| ==> destinations[i].View() == old(destinations[i].View())
      ensures Admitted(old(cars), logicals) != [] ==>
        && |replies| == |destinations| && Bodies(Admitted(old(cars), logicals)) != []
        && forall i :: 0 <= i < |destinations| ==>
          (destinations[i].View(), replies[i])
            == OpenWindow(old(destinations[i].View()), Bodies(Admitted(old(cars), logicals)), now)
    {
      var added := Admit(logicals);
      replies := [];
      if added == [] {
        return;
      }
      var records := Bodies(added);
      for i := 0 to |destinations|
        invariant cars == old(cars) + added && |replies| == i
        invariant forall k :: 0 <= k < i ==>
          (destinations[k].View(), replies[k]) == OpenWindow(old(destinations[k].View()), records, now)
        invariant forall k :: i <= k < |destinations| ==> destinations[k].View() == old(destinations[k].View())
      {
        var sending := destinations[i].Publish(records, now);
        replies := replies + [sending];
      }
    }

    /** Republishes the whole registry, once, to guests that have no window open. */
    method RefreshReadyGuests(guests: seq<Endpoint>, now: real) returns (replies: seq<seq<Sending>>)
      requires forall i, j :: 0 <= i < j < |guests| ==> guests[i] != guests[j]
      modifies guests
      ensures Bodies(cars) == [] ==> replies == [] && forall i :: 0 <= i < |guests| ==>
        guests[i].View() == old(guests[i].View())
      ensures Bodies(cars) != [] ==>
        && |replies| == |guests|
        && forall i :: 0 <= i < |guests| ==>
          (guests[i].View(), replies[i]) == RefreshWindow(old(guests[i].View()), Bodies(cars), now)
    {
      var records := Bodies(cars);
      replies := [];
      if records == [] {
        return;
      }
      for i := 0 to |guests|
        invariant |replies| == i
        invariant forall k :: 0 <= k < i ==>
          (guests[k].View(), replies[k]) == RefreshWindow(old(guests[k].View()), records, now)
        invariant forall k :: i <= k < |guests| ==> guests[k].View() == old(guests[k].View())
      {
        if !guests[i].refreshed && guests[i].pending == [] {
          var sending := guests[i].Publish(records, now);
          replies := replies + [[sending]];
          guests[i].refreshed := true;
        } else {
          replies := replies + [[]];
        }
      }
    }
  }
}
