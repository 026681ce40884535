/** Following the append-only policy events, and the close gate (server/common/enforcement.py). */
module PolicyEvents {
  import opened Options
  import opened LatinText

  datatype Event = Event(id: nat, account: string, action: string)

  /** Rows by id; every id is positive and used once. */
  predicate Ordered(stream: seq<Event>) {
    && (forall i :: 0 <= i < |stream| ==> stream[i].id > 0)
    && forall i, j :: 0 <= i < j < |stream| ==> stream[i].id < stream[j].id
  }

  function After(stream: seq<Event>, cursor: int): seq<Event> {
    if stream == [] then []
    else
      var bound := if cursor < 0 then 0 else cursor;
      (if stream[0].id > bound then [stream[0]] else []) + After(stream[1..], cursor)
  }

  /** The query of one batch. */
  function EventsAfter(stream: seq<Event>, cursor: int, batch: nat): seq<Event> {
    var all := After(stream, cursor);
    if |all| <= batch then all else all[..batch]
  }

  /** `calls` counts the calls of the handler so far; `handled` has the events of those that succeeded. */
  datatype Monitor = Monitor(cursor: int, handled: seq<Event>, calls: nat)

  datatype Outcome = Outcome(monitor: Monitor, ok: bool)

  /** The handler on consecutive events until its first failure; its `n`-th call succeeds when `works(n)`. */
  function Deliver(events: seq<Event>, m: Monitor, works: nat -> bool): Outcome
    decreases |events|
  {
    if events == [] then Outcome(m, true)
    else if !works(m.calls) then Outcome(m.(calls := m.calls + 1), false)
    else Deliver(events[1..], Monitor(events[0].id, m.handled + [events[0]], m.calls + 1), works)
  }

  /** Batches until one fails, is short or is empty. */
  function Poll(stream: seq<Event>, m: Monitor, batch: nat, works: nat -> bool): Monitor
    requires batch > 0 && Ordered(stream)
    decreases |After(stream, m.cursor)|
  {
    var events := EventsAfter(stream, m.cursor, batch);
    if events == [] then m
    else
      var out := Deliver(events, m, works);
      if !out.ok || |events| < batch then out.monitor
      else
        BatchMovesOn(stream, m, batch, works);
        Poll(stream, out.monitor, batch, works)
  }

  // ----- what lies after a cursor

  /** The cursor of a follower that is past the first `k` events. */
  function CursorAt(stream: seq<Event>, k: nat): int
    requires k <= |stream|
  {
    if k == 0 then 0 else stream[k - 1].id
  }

  lemma {:induction false} AfterIsSuffix(stream: seq<Event>, cursor: int) returns (k: nat)
    requires Ordered(stream)
    ensures k <= |stream| && After(stream, cursor) == stream[k..]
    ensures k < |stream| ==> stream[k].id > cursor
    ensures k > 0 ==> stream[k - 1].id <= cursor
    decreases |stream|
  {
    if stream == [] {
      k := 0;
    } else {
      var rest := AfterIsSuffix(stream[1..], cursor);
      k := rest + 1;
      if stream[0].id > cursor {
        k := 0;
        assert After(stream, cursor) == [stream[0]] + stream[1..];
      } else {
        assert stream[1..][rest..] == stream[rest + 1..];
        assert rest == 0 || stream[1..][rest - 1] == stream[rest];
      }
    }
  }

  lemma AfterCursorAt(stream: seq<Event>, k: nat)
    requires Ordered(stream) && k <= |stream|
    ensures After(stream, CursorAt(stream, k)) == stream[k..]
  {
    var j := AfterIsSuffix(stream, CursorAt(stream, k));
    assert j == k;
  }

  /** Deliveries handle a beginning of the events, all of them exactly when no call fails. */
  lemma {:induction false} DeliverIs(events: seq<Event>, m: Monitor, works: nat -> bool) returns (n: nat)
    ensures n <= |events| && Deliver(events, m, works).ok == (n == |events|)
    ensures Deliver(events, m, works).monitor.handled == m.handled + events[..n]
    ensures Deliver(events, m, works).monitor.cursor == if n == 0 then m.cursor else events[n - 1].id
    decreases |events|
  {
    if events != [] && works(m.calls) {
      var (e, rest) := (events[0], events[1..]);
      var next := Monitor(e.id, m.handled + [e], m.calls + 1);
      var k := DeliverIs(rest, next, works);
      n := k + 1;
      assert events[..n] == [e] + rest[..k];
      assert m.handled + events[..n] == next.handled + rest[..k];
    } else {
      n := 0;
      assert events[..0] == [] && m.handled + [] == m.handled;
    }
  }

  /** A full batch that succeeded leaves fewer events. */
  lemma BatchMovesOn(stream: seq<Event>, m: Monitor, batch: nat, works: nat -> bool)
    requires batch > 0 && Ordered(stream)
    requires EventsAfter(stream, m.cursor, batch) != [] && Deliver(EventsAfter(stream, m.cursor, batch), m, works).ok
    ensures var events := EventsAfter(stream, m.cursor, batch);
            After(stream, Deliver(events, m, works).monitor.cursor) == After(stream, m.cursor)[|events|..]
  {
    var k := AfterIsSuffix(stream, m.cursor);
    var events := EventsAfter(stream, m.cursor, batch);
    var n := DeliverIs(events, m, works);
    var last := k + |events|;
    assert events[|events| - 1] == stream[last - 1];
    assert CursorAt(stream, last) == Deliver(events, m, works).monitor.cursor;
    AfterCursorAt(stream, last);
    assert stream[k..][|events|..] == stream[last..];
  }

  lemma {:induction false} DeliverPlus(a: seq<Event>, b: seq<Event>, m: Monitor, works: nat -> bool)
    ensures Deliver(a + b, m, works)
         == if Deliver(a, m, works).ok then Deliver(b, Deliver(a, m, works).monitor, works) else Deliver(a, m, works)
    decreases |a|
  {
    if a == [] {
      assert a + b == b;
    } else {
      assert (a + b)[1..] == a[1..] + b;
      if works(m.calls) {
        DeliverPlus(a[1..], b, Monitor(a[0].id, m.handled + [a[0]], m.calls + 1), works);
      }
    }
  }

  /** Reading in batches does the same as one pass over everything after the cursor. */
  lemma {:induction false} BatchesAreInvisible(stream: seq<Event>, m: Monitor, batch: nat, works: nat -> bool)
    requires batch > 0 && Ordered(stream)
    ensures Poll(stream, m, batch, works) == Deliver(After(stream, m.cursor), m, works).monitor
    decreases |After(stream, m.cursor)|
  {
    var (all, events) := (After(stream, m.cursor), EventsAfter(stream, m.cursor, batch));
    if events == [] {
      assert all == [];
    } else {
      var out := Deliver(events, m, works);
      assert all == events + all[|events|..];
      DeliverPlus(events, all[|events|..], m, works);
      if out.ok {
        if |events| < batch {
          assert all[|events|..] == [];
        } else {
          BatchMovesOn(stream, m, batch, works);
          BatchesAreInvisible(stream, out.monitor, batch, works);
        }
      }
    }
  }

  // ----- runs with growth and repeated polls

  /**
   The monitor was started when the stream had `start` events: it has handled a gap-free,
   repeat-free piece from there on, and its cursor is the id of the last event of it.
   */
  ghost predicate Follows(stream: seq<Event>, start: nat, m: Monitor) {
    && start + |m.handled| <= |stream|
    && m.handled == stream[start..start + |m.handled|]
    && m.cursor == CursorAt(stream, start + |m.handled|)
  }

  datatype Happening =
    | Append(events: seq<Event>)
    | Batch(size: nat)
    | PollOnce(size: nat)

  datatype World = World(stream: seq<Event>, monitor: Monitor)

  /** `Batch` is one reading of the store and its deliveries, so that events may also appear within a poll. */
  function Step(w: World, h: Happening, works: nat -> bool): World
    requires Ordered(w.stream)
  {
    match h
    case Append(events) => if Ordered(w.stream + events) then w.(stream := w.stream + events) else w
    case Batch(size) => w.(monitor := Deliver(EventsAfter(w.stream, w.monitor.cursor, size), w.monitor, works).monitor)
    case PollOnce(size) => if size == 0 then w else w.(monitor := Poll(w.stream, w.monitor, size, works))
  }

  function Run(w: World, happenings: seq<Happening>, works: nat -> bool): World
    requires Ordered(w.stream)
    decreases |happenings|
  {
    if happenings == [] then w else Run(Step(w, happenings[0], works), happenings[1..], works)
  }

  lemma FollowsMore(stream: seq<Event>, start: nat, m: Monitor, n: nat, after: Monitor)
    requires Follows(stream, start, m) && start + |m.handled| + n <= |stream|
    requires after.handled == m.handled + stream[start + |m.handled|..start + |m.handled| + n]
    requires after.cursor == CursorAt(stream, start + |m.handled| + n)
    ensures Follows(stream, start, after) && m.handled <= after.handled
  {
    var k := start + |m.handled|;
    assert stream[start..k] + stream[k..k + n] == stream[start..k + n];
  }

  lemma DeliverFollows(stream: seq<Event>, start: nat, m: Monitor, events: seq<Event>, works: nat -> bool)
    requires Follows(stream, start, m) && start + |m.handled| + |events| <= |stream|
    requires events == stream[start + |m.handled|..start + |m.handled| + |events|]
    ensures Follows(stream, start, Deliver(events, m, works).monitor)
      && m.handled <= Deliver(events, m, works).monitor.handled
  {
    var n := DeliverIs(events, m, works);
    PartOfPiece(stream, start + |m.handled|, events, n);
    FollowsMore(stream, start, m, n, Deliver(events, m, works).monitor);
  }

  lemma PartOfPiece(stream: seq<Event>, k: nat, events: seq<Event>, n: nat)
    requires k + |events| <= |stream| && events == stream[k..k + |events|] && n <= |events|
    ensures events[..n] == stream[k..k + n] && (n > 0 ==> events[n - 1] == stream[k + n - 1])
  {
  }

  lemma AppendFollows(stream: seq<Event>, events: seq<Event>, start: nat, m: Monitor)
    requires Follows(stream, start, m)
    ensures Follows(stream + events, start, m)
  {
    var k := start + |m.handled|;
    assert (stream + events)[start..k] == stream[start..k];
  }

  /** One reading of the store, of at most `size` events. */
  lemma BatchFollows(stream: seq<Event>, start: nat, m: Monitor, size: nat, works: nat -> bool)
    requires Ordered(stream) && Follows(stream, start, m)
    ensures var after := Deliver(EventsAfter(stream, m.cursor, size), m, works).monitor;
            Follows(stream, start, after) && m.handled <= after.handled
  {
    var k := start + |m.handled|;
    AfterCursorAt(stream, k);
    var events := EventsAfter(stream, m.cursor, size);
    assert events == stream[k..k + |events|];
    DeliverFollows(stream, start, m, events, works);
  }

  lemma StepFollows(w: World, start: nat, h: Happening, works: nat -> bool)
    requires Ordered(w.stream) && Follows(w.stream, start, w.monitor)
    ensures Ordered(Step(w, h, works).stream) && Follows(Step(w, h, works).stream, start, Step(w, h, works).monitor)
    ensures w.stream <= Step(w, h, works).stream && w.monitor.handled <= Step(w, h, works).monitor.handled
  {
    match h
    case Append(events) => AppendFollows(w.stream, events, start, w.monitor);
    case Batch(size) => BatchFollows(w.stream, start, w.monitor, size, works);
    case PollOnce(size) =>
      if size > 0 {
        BatchesAreInvisible(w.stream, w.monitor, size, works);
        BatchFollows(w.stream, start, w.monitor, |After(w.stream, w.monitor.cursor)|, works);
      }
  }

  /**
   Over any run of polls, failures and new events, what was handled is a gap-free, repeat-free
   beginning of the events since the start.
   */
  lemma {:induction false} RunFollows(w: World, start: nat, happenings: seq<Happening>, works: nat -> bool)
    requires Ordered(w.stream) && Follows(w.stream, start, w.monitor)
    ensures Follows(Run(w, happenings, works).stream, start, Run(w, happenings, works).monitor)
    ensures w.monitor.handled <= Run(w, happenings, works).monitor.handled
    decreases |happenings|
  {
    if happenings != [] {
      StepFollows(w, start, happenings[0], works);
      RunFollows(Step(w, happenings[0], works), start, happenings[1..], works);
    }
  }

  /** A poll in which the handler never fails catches up completely. */
  lemma PollCatchesUp(stream: seq<Event>, start: nat, m: Monitor, batch: nat, works: nat -> bool)
    requires Ordered(stream) && Follows(stream, start, m) && batch > 0 && forall n :: works(n)
    ensures Poll(stream, m, batch, works).handled == stream[start..]
  {
    var k := start + |m.handled|;
    BatchesAreInvisible(stream, m, batch, works);
    AfterCursorAt(stream, k);
    AllDelivered(stream[k..], m, works);
    assert stream[start..k] + stream[k..] == stream[start..];
  }

  lemma {:induction false} AllDelivered(events: seq<Event>, m: Monitor, works: nat -> bool)
    requires forall n :: works(n)
    ensures Deliver(events, m, works).monitor.handled == m.handled + events
    decreases |events|
  {
    if events != [] {
      AllDelivered(events[1..], Monitor(events[0].id, m.handled + [events[0]], m.calls + 1), works);
      assert m.handled + [events[0]] + events[1..] == m.handled + events;
    }
  }

  class AccountPolicyMonitor {
    const batch: nat
    var cursor: int
    var calls: nat
    ghost var handled: seq<Event>

    ghost function View(): Monitor
      reads this
    {
      Monitor(cursor, handled, calls)
    }

    /** A monitor that starts with the latest id of the stream. */
    constructor (stream: seq<Event>, batch: nat)
      requires Ordered(stream) && batch > 0
      ensures this.batch == batch && Follows(stream, |stream|, View())
    {
      this.batch := batch;
      cursor := if stream == [] then 0 else stream[|stream| - 1].id;
      calls, handled := 0, [];
    }

    method PollOnce(stream: seq<Event>, works: nat -> bool) returns (delivered: nat)
      requires Ordered(stream) && batch > 0
      modifies this
      ensures View() == Deliver(After(stream, old(cursor)), old(View()), works).monitor
      ensures delivered == |handled| - |old(handled)|
    {
      delivered := 0;
      BatchesAreInvisible(stream, View(), batch, works);
      while true
        invariant Poll(stream, View(), batch, works) == Poll(stream, old(View()), batch, works)
        invariant delivered == |handled| - |old(handled)|
        decreases |After(stream, cursor)|
      {
        var events := EventsAfter(stream, cursor, batch);
        if events == [] {
          return;
        }
        ghost var before := View();
        var ok, count := DeliverBatch(events, works);
        delivered := delivered + count;
        if !ok || |events| < batch {
          return;
        }
        BatchMovesOn(stream, before, batch, works);
      }
    }

    method DeliverBatch(events: seq<Event>, works: nat -> bool) returns (ok: bool, count: nat)
      modifies this
      ensures Outcome(View(), ok) == Deliver(events, old(View()), works)
      ensures |handled| == |old(handled)| + count
    {
      count := 0;
      for i := 0 to |events|
        invariant Deliver(events[i..], View(), works) == Deliver(events, old(View()), works)
        invariant |handled| == |old(handled)| + count
      {
        assert events[i..][1..] == events[i + 1..];
        var works' := works(calls);
        calls := calls + 1;
        if !works' {
          return false, count;
        }
        cursor := events[i].id;
        handled := handled + [events[i]];
        count := count + 1;
      }
      ok := true;
    }
  }

  // ----- the close gate

  datatype CloseRequest = CloseRequest(reason: string, grace: real, now: real)

  datatype Gate = Gate(deadline: Option<real>, reason: string)

  function Normalized(reason: string): string {
    var text := Strip(reason);
    if text == "" then "account-policy" else text
  }

  /** The second result tells whether this request was the first; a negative grace is refused. */
  function Requested(g: Gate, r: CloseRequest): (Gate, bool) {
    if r.grace < 0.0 then (g, false)
    else
      var deadline := r.now + r.grace;
      var earlier := g.deadline.None? || deadline < g.deadline.value;
      var reason := if g.reason == "" then Normalized(r.reason) else g.reason;
      (Gate(if earlier then Some(deadline) else g.deadline, reason), g.deadline.None?)
  }

  function RequestAll(g: Gate, rs: seq<CloseRequest>): Gate
    decreases |rs|
  {
    if rs == [] then g else RequestAll(Requested(g, rs[0]).0, rs[1..])
  }

  /** The requests that answered true. */
  function Firsts(g: Gate, rs: seq<CloseRequest>): nat
    decreases |rs|
  {
    if rs == [] then 0 else (if Requested(g, rs[0]).1 then 1 else 0) + Firsts(Requested(g, rs[0]).0, rs[1..])
  }

  ghost predicate Asked(rs: seq<CloseRequest>, deadline: real) {
    exists i :: 0 <= i < |rs| && rs[i].grace >= 0.0 && rs[i].now + rs[i].grace == deadline
  }

  /** However requests arrive, an active gate closes at the earliest moment asked for and keeps its reason. */
  lemma {:induction false} GateOnlyTightens(g: Gate, rs: seq<CloseRequest>)
    ensures var after := RequestAll(g, rs);
            && (g.deadline.Some? ==> after.deadline.Some? && after.deadline.value <= g.deadline.value)
            && (g.reason != "" ==> after.reason == g.reason)
            && (after.deadline.Some? ==> after.deadline == g.deadline || Asked(rs, after.deadline.value))
            && (forall i :: 0 <= i < |rs| && rs[i].grace >= 0.0 ==>
              after.deadline.Some? && after.deadline.value <= rs[i].now + rs[i].grace)
            && Firsts(g, rs) == (if g.deadline.None? && after.deadline.Some? then 1 else 0)
    decreases |rs|
  {
    if rs != [] {
      var (next, rest) := (Requested(g, rs[0]).0, rs[1..]);
      GateOnlyTightens(next, rest);
      var after := RequestAll(g, rs);
      forall i | 0 <= i < |rs| && rs[i].grace >= 0.0
        ensures after.deadline.Some? && after.deadline.value <= rs[i].now + rs[i].grace
      {
        assert i > 0 ==> rest[i - 1] == rs[i];
      }
      if after.deadline.Some? && Asked(rest, after.deadline.value) {
        var i :| 0 <= i < |rest| && rest[i].grace >= 0.0 && rest[i].now + rest[i].grace == after.deadline.value;
        assert rs[i + 1] == rest[i];
      } else if after.deadline.Some? && after.deadline == next.deadline && next.deadline != g.deadline {
        assert rs[0].now + rs[0].grace == after.deadline.value;
      }
    }
  }

  /** The reason of a gate is that of its first accepted request, stripped, or "account-policy" without one. */
  lemma {:induction false} GateReason(rs: seq<CloseRequest>, k: nat)
    requires k < |rs| && rs[k].grace >= 0.0 && forall i :: 0 <= i < k ==> rs[i].grace < 0.0
    ensures var text := Strip(rs[k].reason);
      RequestAll(Gate(None, ""), rs).reason == if text == "" then "account-policy" else text
    decreases k
  {
    if k > 0 {
      GateReason(rs[1..], k - 1);
    } else {
      GateOnlyTightens(Requested(Gate(None, ""), rs[0]).0, rs[1..]);
    }
  }

  class PolicyCloseGate {
    const grace: real
    var deadline: Option<real>
    var reason: string

    function View(): Gate
      reads this
    {
      Gate(deadline, reason)
    }

    constructor (grace: real)
      requires grace >= 0.0
      ensures this.grace == grace && View() == Gate(None, "")
    {
      this.grace := grace;
      deadline, reason := None, "";
    }

    /** `ok` is false when the source raises ValueError; nothing changes then. */
    method Request(reason: string, grace: real, now: real) returns (ok: bool, first: bool)
      modifies this
      ensures ok == (grace >= 0.0)
      ensures (View(), first) == Requested(old(View()), CloseRequest(reason, grace, now))
    {
      ok, first := grace >= 0.0, false;
      if !ok {
        return;
      }
      var wanted := now + grace;
      first := deadline.None?;
      if deadline.None? || wanted < deadline.value {
        deadline := Some(wanted);
      }
      if this.reason == "" {
        this.reason := Normalized(reason);
      }
    }
  }
}
