/** Overlapping-history windows of one endpoint (server/carbon/rebroadcaster/ai_registration.py). */
module AiWindows {
  import R = Retry
  import opened Confirmations

  const POLICY := R.Policy(0.75, 3.0, 8, 30.0)

  /** The message that ends every window: four zero bytes and the type of READY. */
  const READY_MESSAGE: string := ['\0', '\0', '\0', '\0', 0x0F as char]

  /** `word` holds the number of history records above the 28 bits of the sequence. */
  datatype Packet = Packet(word: int, acknowledgement: int, records: seq<string>)

  function Word(history: nat, sequence: int): int {
    history * SEQUENCE_SPAN + sequence % SEQUENCE_SPAN
  }

  /** One packet for each record: the record, and the one before it. */
  function RecordPackets(base: int, acknowledgement: int, rs: seq<string>): seq<Packet> {
    if rs == [] then []
    else
      var i := |rs| - 1;
      var records := if i == 0 then [rs[i]] else [rs[i], rs[i - 1]];
      RecordPackets(base, acknowledgement, rs[..i]) + [Packet(Word(|records| - 1, base + i), acknowledgement, records)]
  }

  /** READY, with the last two records as its history. */
  function ReadyPacket(base: int, acknowledgement: int, rs: seq<string>): Packet
    requires rs != []
  {
    var n := |rs|;
    var records := [READY_MESSAGE, rs[n - 1]] + (if n > 1 then [rs[n - 2]] else []);
    Packet(Word(|records| - 1, base + n), acknowledgement, records)
  }

  function Packets(base: int, acknowledgement: int, rs: seq<string>): seq<Packet>
    requires rs != []
  {
    RecordPackets(base, acknowledgement, rs) + [ReadyPacket(base, acknowledgement, rs)]
  }

  // ----- what a window carries

  /** The message with the `i`-th number of the window. */
  function MessageAt(rs: seq<string>, i: nat): string
    requires i <= |rs|
  {
    if i < |rs| then rs[i] else READY_MESSAGE
  }

  /** How many older messages the `q`-th packet repeats. */
  function History(n: nat, q: nat): nat {
    if q == 0 then 0 else if q < n || n == 1 then 1 else 2
  }

  /** Packet `q` has the `q`-th number, its history count, and its messages newest first. */
  ghost predicate PacketFits(p: Packet, base: int, acknowledgement: int, rs: seq<string>, q: nat)
    requires q <= |rs|
  {
    && p.word / SEQUENCE_SPAN == History(|rs|, q) && p.word % SEQUENCE_SPAN == (base + q) % SEQUENCE_SPAN
    && p.acknowledgement == acknowledgement
    && |p.records| == History(|rs|, q) + 1 <= q + 1
    && forall k :: 0 <= k < |p.records| ==> p.records[k] == MessageAt(rs, q - k)
  }

  lemma {:induction false} RecordPacketAt(base: int, acknowledgement: int, rs: seq<string>, q: nat)
    requires q < |rs|
    ensures |RecordPackets(base, acknowledgement, rs)| == |rs|
    ensures var p := RecordPackets(base, acknowledgement, rs)[q];
            && p.word == Word(if q == 0 then 0 else 1, base + q) && p.acknowledgement == acknowledgement
            && p.records == if q == 0 then [rs[0]] else [rs[q], rs[q - 1]]
  {
    var i := |rs| - 1;
    if i > 0 {
      RecordPacketAt(base, acknowledgement, rs[..i], if q < i then q else 0);
    }
  }

  lemma PacketAt(base: int, acknowledgement: int, rs: seq<string>, q: nat)
    requires rs != [] && q <= |rs|
    ensures |Packets(base, acknowledgement, rs)| == |rs| + 1
    ensures PacketFits(Packets(base, acknowledgement, rs)[q], base, acknowledgement, rs, q)
  {
    RecordPacketAt(base, acknowledgement, rs, if q < |rs| then q else 0);
  }

  /** A packet holds the message with a number: its own, or one that its history counts back to. */
  ghost predicate Holds(p: Packet, number: int, message: string) {
    exists k :: 0 <= k < |p.records| && HoldsAt(p, k, number, message)
  }

  predicate HoldsAt(p: Packet, k: nat, number: int, message: string)
    requires k < |p.records|
  {
    (p.word - k) % SEQUENCE_SPAN == number % SEQUENCE_SPAN && p.records[k] == message
  }

  /** Some received packet, by its place in the window, holds the message with a number. */
  ghost predicate Recovered(packets: seq<Packet>, received: set<nat>, number: int, message: string) {
    exists q :: q in received && q < |packets| && Holds(packets[q], number, message)
  }

  lemma SameShift(a: int, b: int, k: int)
    requires a % SEQUENCE_SPAN == b % SEQUENCE_SPAN
    ensures (a - k) % SEQUENCE_SPAN == (b - k) % SEQUENCE_SPAN
  {
    assert a - k == (b - k) + (a / SEQUENCE_SPAN - b / SEQUENCE_SPAN) * SEQUENCE_SPAN;
    ShiftBySpans(b - k, a / SEQUENCE_SPAN - b / SEQUENCE_SPAN);
  }

  lemma SameNumber(a: int, b: int)
    requires a % SEQUENCE_SPAN == b % SEQUENCE_SPAN && -SEQUENCE_SPAN < a - b < SEQUENCE_SPAN
    ensures a == b
  {
    SameShift(a, b, b);
  }

  lemma PacketHolds(base: int, acknowledgement: int, rs: seq<string>, q: nat, k: nat)
    requires rs != [] && q <= |rs| && k <= History(|rs|, q)
    ensures |Packets(base, acknowledgement, rs)| == |rs| + 1 && k <= q
    ensures Holds(Packets(base, acknowledgement, rs)[q], base + (q - k), MessageAt(rs, q - k))
  {
    PacketAt(base, acknowledgement, rs, q);
    var p := Packets(base, acknowledgement, rs)[q];
    SameShift(p.word, base + q, k);
    assert HoldsAt(p, k, base + (q - k), MessageAt(rs, q - k));
  }

  /** A packet holds nothing else: a number of the window comes with its own message, from a packet that repeats it. */
  lemma HoldsOnly(p: Packet, base: int, acknowledgement: int, rs: seq<string>, q: nat, i: nat, message: string)
    requires |rs| < SEQUENCE_SPAN && q <= |rs| && i <= |rs|
    requires PacketFits(p, base, acknowledgement, rs, q) && Holds(p, base + i, message)
    ensures q - History(|rs|, q) <= i <= q && message == MessageAt(rs, i)
  {
    var k :| 0 <= k < |p.records| && HoldsAt(p, k, base + i, message);
    SameShift(p.word, base + q, k);
    SameNumber(base + q - k, base + i);
  }

  lemma RepeatedBy(n: nat, q: nat, i: nat)
    requires 1 <= n && q <= n && i <= n && q - History(n, q) <= i <= q
    ensures q == i || (i < n && q == i + 1) || (i + 2 == n && q == n)
  {
  }

  lemma PacketCount(base: int, acknowledgement: int, rs: seq<string>)
    requires rs != []
    ensures |Packets(base, acknowledgement, rs)| == |rs| + 1
    ensures forall q :: 0 <= q <= |rs| ==>
      PacketFits(Packets(base, acknowledgement, rs)[q], base, acknowledgement, rs, q)
  {
    PacketAt(base, acknowledgement, rs, 0);
    forall q | 0 <= q <= |rs| ensures PacketFits(Packets(base, acknowledgement, rs)[q], base, acknowledgement, rs, q) {
      PacketAt(base, acknowledgement, rs, q);
    }
  }

  lemma ReadFromOne(packets: seq<Packet>, base: int, acknowledgement: int, rs: seq<string>, received: set<nat>, i: nat)
    requires rs != [] && i <= |rs| < SEQUENCE_SPAN && |packets| == |rs| + 1
    requires forall q :: 0 <= q <= |rs| ==> PacketFits(packets[q], base, acknowledgement, rs, q)
    requires Recovered(packets, received, base + i, MessageAt(rs, i))
    ensures i in received || (i < |rs| && i + 1 in received) || (i + 2 == |rs| && |rs| in received)
  {
    var q :| q in received && q < |packets| && Holds(packets[q], base + i, MessageAt(rs, i));
    HoldsOnly(packets[q], base, acknowledgement, rs, q, i, MessageAt(rs, i));
    RepeatedBy(|rs|, q, i);
  }

  /**
   Message `i` can be read from the received packets exactly when its own or the next one is
   among them, or, for the last record but one, the last packet.
   */
  lemma RecoveredIff(base: int, acknowledgement: int, rs: seq<string>, received: set<nat>, i: nat)
    requires rs != [] && i <= |rs| < SEQUENCE_SPAN
    ensures Recovered(Packets(base, acknowledgement, rs), received, base + i, MessageAt(rs, i)) <==>
      (i in received || (i < |rs| && i + 1 in received) || (i + 2 == |rs| && |rs| in received))
  {
    var packets := Packets(base, acknowledgement, rs);
    PacketHolds(base, acknowledgement, rs, i, 0);
    if i < |rs| {
      PacketHolds(base, acknowledgement, rs, i + 1, 1);
    }
    if i + 2 == |rs| {
      PacketHolds(base, acknowledgement, rs, |rs|, 2);
    }
    if Recovered(packets, received, base + i, MessageAt(rs, i)) {
      PacketCount(base, acknowledgement, rs);
      ReadFromOne(packets, base, acknowledgement, rs, received, i);
    }
  }

  /** Every record is in its own packet and in the next one. */
  lemma RecordIsInTwoPackets(base: int, acknowledgement: int, rs: seq<string>, i: nat)
    requires i < |rs|
    ensures |Packets(base, acknowledgement, rs)| == |rs| + 1
    ensures rs[i] in Packets(base, acknowledgement, rs)[i].records
    ensures rs[i] in Packets(base, acknowledgement, rs)[i + 1].records
  {
    PacketAt(base, acknowledgement, rs, i);
    PacketAt(base, acknowledgement, rs, i + 1);
    assert Packets(base, acknowledgement, rs)[i].records[0] == rs[i];
    assert Packets(base, acknowledgement, rs)[i + 1].records[1] == rs[i];
  }

  /** Losing any one packet of a window loses no record. */
  lemma AnyOneLossIsCovered(base: int, acknowledgement: int, rs: seq<string>, lost: nat, received: set<nat>, i: nat)
    requires i < |rs| && forall q :: 0 <= q <= |rs| && q != lost ==> q in received
    ensures Recovered(Packets(base, acknowledgement, rs), received, base + i, rs[i])
  {
    PacketHolds(base, acknowledgement, rs, i, 0);
    PacketHolds(base, acknowledgement, rs, i + 1, 1);
    assert i in received || i + 1 in received;
  }

  // ----- the endpoint

  /**
   A window waiting for its acknowledgement.  `number` is its first number before the
   reduction to 28 bits and stands for the identity of the window object.
   */
  datatype Reliable = Reliable(number: int, records: seq<string>, base: int, final: int, retry: R.Schedule)

  /** The fields of an endpoint that these windows use; `issued` is its next number before the reduction. */
  datatype Wire = Wire(issued: int, next: int, acknowledgement: int, lastClient: int, pending: seq<Reliable>,
    refreshed: bool)

  /** One datagram with the packets of a window. */
  datatype Sending = Sending(number: int, time: real, packets: seq<Packet>)

  predicate WindowValid(w: Reliable) {
    && w.records != [] && w.base == w.number % SEQUENCE_SPAN
    && w.final == (w.number + |w.records|) % SEQUENCE_SPAN
    && w.retry.policy == POLICY && w.retry.deadline == w.retry.openedAt + POLICY.timeout
    && w.retry.retriesSent <= POLICY.maximumRetries
  }

  /** Valid windows with numbers below `limit`, none overlapping the next. */
  predicate Ordered(ws: seq<Reliable>, limit: int) {
    ws == [] ||
    var x := ws[|ws| - 1];
    WindowValid(x) && x.number + |x.records| < limit && Ordered(ws[..|ws| - 1], x.number)
  }

  predicate WireValid(w: Wire) {
    w.next == w.issued % SEQUENCE_SPAN && Ordered(w.pending, w.issued)
  }

  /** A new window takes the endpoint's next numbers. */
  function OpenWindow(w: Wire, rs: seq<string>, now: real): (Wire, Sending)
    requires rs != []
  {
    var base := w.next % SEQUENCE_SPAN;
    var final := (base + |rs|) % SEQUENCE_SPAN;
    var window := Reliable(w.issued, rs, base, final, POLICY.Begin(now));
    (w.(issued := w.issued + |rs| + 1, next := (final + 1) % SEQUENCE_SPAN, pending := w.pending + [window]),
     Sending(w.issued, now, Packets(base, w.lastClient % SEQUENCE_SPAN, rs)))
  }

  /** The ready refresh happens once, and only when no window is open. */
  function RefreshWindow(w: Wire, rs: seq<string>, now: real): (Wire, seq<Sending>)
    requires rs != []
  {
    if w.refreshed || w.pending != [] then (w, [])
    else
      var (after, sending) := OpenWindow(w, rs, now);
      (after.(refreshed := true), [sending])
  }

  predicate Acknowledged(w: Wire, x: Reliable) {
    SequenceAcked(w.acknowledgement % SEQUENCE_SPAN, x.final)
  }

  /** Whether a window outlives a delivery update. */
  predicate Survives(w: Wire, x: Reliable, finished: bool, now: real) {
    !Acknowledged(w, x) && !finished && !x.retry.Exhausted(now)
  }

  function Survivors(w: Wire, pending: seq<Reliable>, finished: bool, now: real): seq<Reliable> {
    if pending == [] then []
    else
      var x := pending[|pending| - 1];
      Survivors(w, pending[..|pending| - 1], finished, now) + (if Survives(w, x, finished, now) then [x] else [])
  }

  /** Whether the update tells the caller that delivery failed. */
  predicate Reports(w: Wire, pending: seq<Reliable>, finished: bool, now: real) {
    exists i :: 0 <= i < |pending| && !Acknowledged(w, pending[i]) && !finished && pending[i].retry.Exhausted(now)
  }

  function Retransmitted(x: Reliable, now: real): Reliable {
    x.(retry := x.retry.Retried(now))
  }

  function Resending(w: Wire, x: Reliable, now: real): Sending
    requires x.records != []
  {
    Sending(x.number, now, Packets(x.base % SEQUENCE_SPAN, w.lastClient % SEQUENCE_SPAN, x.records))
  }

  /** Whether the `i`-th surviving window is sent again. */
  predicate Resends(x: Reliable, i: nat, force: bool, now: real) {
    force || (i == 0 && x.retry.Due(now))
  }

  function Retried(active: seq<Reliable>, force: bool, now: real): seq<Reliable> {
    if active == [] then []
    else
      var i := |active| - 1;
      Retried(active[..i], force, now)
        + [if Resends(active[i], i, force, now) then Retransmitted(active[i], now) else active[i]]
  }

  function Sendings(w: Wire, active: seq<Reliable>, force: bool, now: real): seq<Sending>
    requires Ordered(active, w.issued)
  {
    SendingsBelow(w, active, w.issued, force, now)
  }

  function SendingOf(w: Wire, x: Reliable, i: nat, force: bool, now: real): seq<Sending>
    requires x.records != []
  {
    if Resends(x, i, force, now) then [Resending(w, x, now)] else []
  }

  function SendingsBelow(w: Wire, active: seq<Reliable>, limit: int, force: bool, now: real): seq<Sending>
    requires Ordered(active, limit)
  {
    if active == [] then []
    else
      var (i, x) := (|active| - 1, active[|active| - 1]);
      SendingsBelow(w, active[..i], x.number, force, now)
      + SendingOf(w, x, i, force, now)
  }

  lemma {:induction false} SurvivorsOrdered(w: Wire, pending: seq<Reliable>, limit: int, finished: bool, now: real)
    requires Ordered(pending, limit)
    ensures Ordered(Survivors(w, pending, finished, now), limit)
  {
    if pending != [] {
      var (i, x) := (|pending| - 1, pending[|pending| - 1]);
      SurvivorsOrdered(w, pending[..i], x.number, finished, now);
      var before := Survivors(w, pending[..i], finished, now);
      if Survives(w, x, finished, now) {
        assert (before + [x])[..|before|] == before;
      } else {
        assert before + [] == before;
      }
    }
  }

  /** Acknowledged, finished and exhausted windows leave; of the others, those that are due are sent again. */
  function Update(w: Wire, force: bool, finished: bool, now: real): (Wire, seq<Sending>, bool)
    requires WireValid(w)
  {
    var active := Survivors(w, w.pending, finished, now);
    SurvivorsOrdered(w, w.pending, w.issued, finished, now);
    (w.(pending := Retried(active, force, now)), Sendings(w, active, force, now), Reports(w, w.pending, finished, now))
  }
}
