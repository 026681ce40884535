/**
 Cumulative-ACK confirmation windows (server/carbon/rebroadcaster/confirmations.py).
 A window is a value with a serial number that stands for its object identity.
 */
module Confirmations {
  import opened Options
  import opened Retry

  type Address = (string, int)

  const SEQUENCE_SPAN := 0x1000_0000
  const SEQUENCE_HALF := 0x0800_0000
  const RECENT_LIMIT := 256

  // ----- 28-bit sequence numbers

  predicate SequenceAcked(acknowledgement: int, target: int) {
    (acknowledgement - target) % SEQUENCE_SPAN < SEQUENCE_HALF
  }

  predicate SequenceNewer(candidate: int, current: int) {
    0 < (candidate - current) % SEQUENCE_SPAN < SEQUENCE_HALF
  }

  /** For true counters less than 2^27 apart, the tests on the transmitted 28 bits are integer order. */
  lemma WrappedOrder(acknowledgement: int, target: int)
    requires -SEQUENCE_HALF < acknowledgement - target < SEQUENCE_HALF
    ensures SequenceAcked(acknowledgement % SEQUENCE_SPAN, target % SEQUENCE_SPAN) <==> acknowledgement >= target
    ensures SequenceNewer(acknowledgement % SEQUENCE_SPAN, target % SEQUENCE_SPAN) <==> acknowledgement > target
  {
    WrapDifference(acknowledgement, target);
  }

  lemma WrapDifference(a: int, b: int)
    ensures (a % SEQUENCE_SPAN - b % SEQUENCE_SPAN) % SEQUENCE_SPAN == (a - b) % SEQUENCE_SPAN
  {
    var (p, q) := (a / SEQUENCE_SPAN, b / SEQUENCE_SPAN);
    assert a - b == (a % SEQUENCE_SPAN - b % SEQUENCE_SPAN) + (p - q) * SEQUENCE_SPAN;
    ShiftBySpans(a % SEQUENCE_SPAN - b % SEQUENCE_SPAN, p - q);
  }

  lemma ShiftBySpans(x: int, k: int)
    ensures (x + k * SEQUENCE_SPAN) % SEQUENCE_SPAN == x % SEQUENCE_SPAN
  {
  }

  // ----- windows

  datatype Window = Window(
    id: nat, tag: string, records: seq<string>, base: int, final: int, retry: Schedule,
    applicationConfirmation: bool, transportAcknowledged: bool, exhaustedLogged: bool)

  /** One walk over an endpoint's windows: what it does to each and which ones it sends. */
  datatype Pass =
    | Acknowledge(acknowledgement: int)
    | Confirm(tag: string)
    | Poll(now: real)
    | Replay(now: real, policy: Policy)
  {
    /** The window afterwards; None when the pass retires it. */
    function Visit(w: Window): Option<Window> {
      match this
      case Acknowledge(ack) =>
        if !SequenceAcked(ack, w.final) then Some(w)
        else if !w.applicationConfirmation then None
        else Some(w.(transportAcknowledged := true))
      case Confirm(tag) =>
        if w.applicationConfirmation && w.tag == tag then None else Some(w)
      case Poll(now) =>
        if w.transportAcknowledged then
          Some(if now >= w.retry.deadline then w.(exhaustedLogged := true) else w)
        else if w.retry.Exhausted(now) then Some(w.(exhaustedLogged := true))
        else if !w.retry.Due(now) then Some(w)
        else Some(w.(retry := w.retry.Retried(now)))
      case Replay(now, policy) =>
        if w.transportAcknowledged then Some(w)
        else if w.retry.Exhausted(now) then Some(w.(retry := policy.Begin(now), exhaustedLogged := false))
        else Some(w.(retry := w.retry.Deferred(now)))
    }

    predicate Sends(w: Window) {
      match this
      case Acknowledge(_) => false
      case Confirm(_) => false
      case Poll(now) => !w.transportAcknowledged && w.retry.Due(now)
      case Replay(_, _) => !w.transportAcknowledged
    }
  }

  function Kept(o: Option<Window>): seq<Window> {
    match o
    case None => []
    case Some(w) => [w]
  }

  function Walk(pass: Pass, windows: seq<Window>): seq<Window> {
    if windows == [] then []
    else Walk(pass, windows[..|windows| - 1]) + Kept(pass.Visit(windows[|windows| - 1]))
  }

  /** The records a walk transmits, window by window. */
  function Sent(pass: Pass, windows: seq<Window>): seq<string> {
    if windows == [] then []
    else
      var last := windows[|windows| - 1];
      Sent(pass, windows[..|windows| - 1]) + if pass.Sends(last) then last.records else []
  }

  type Pending = map<Address, seq<Window>>

  /** An endpoint without windows has no entry. */
  function Put(pending: Pending, address: Address, windows: seq<Window>): Pending {
    if windows == [] then pending - {address} else pending[address := windows]
  }

  function WindowsAt(pending: Pending, address: Address): seq<Window> {
    if address in pending then pending[address] else []
  }

  function NonEmptyRecords(records: seq<string>): seq<string> {
    if records == [] then []
    else
      var last := records[|records| - 1];
      NonEmptyRecords(records[..|records| - 1]) + if last == "" then [] else [last]
  }

  function FindTwin(windows: seq<Window>, final: int, records: seq<string>): Option<Window> {
    if windows == [] then None
    else if windows[0].final == final && windows[0].records == records then Some(windows[0])
    else FindTwin(windows[1..], final, records)
  }

  // ----- the manager

  datatype WireState = WireState(lastClientAcknowledgement: int, lastClientSequence: int)
  type Fingerprint = (int, int)

  /** The latest distinct fingerprints of one endpoint, oldest first, and the same as a set. */
  datatype Recent = Recent(order: seq<Fingerprint>, members: set<Fingerprint>) {
    predicate Valid() {
      && |order| <= RECENT_LIMIT
      && members == (set f | f in order)
      && forall i, j :: 0 <= i < j < |order| ==> order[i] != order[j]
    }

    function Note(f: Fingerprint): (r: Recent)
      requires Valid() && f !in members
      ensures r.Valid()
      ensures r.order == (if |order| < RECENT_LIMIT then order + [f] else order[1..] + [f])
    {
      if |order| < RECENT_LIMIT then Recent(order + [f], members + {f})
      else
        assert forall g :: g in order[1..] <==> g in order && g != order[0];
        Recent(order[1..] + [f], members - {order[0]} + {f})
    }
  }

  datatype State = State(
    pending: Pending, wires: map<Address, WireState>, highWater: map<Address, int>,
    recent: map<Address, Recent>, nextId: nat)

  /** Every step the manager and its surroundings can take. */
  datatype Step =
    | Inbound(address: Address, sequence: int, acknowledgement: int, checksum: int, trackSequence: bool)
    | Register(address: Address, records: seq<string>, base: int, final: int, tag: string,
               application: bool, now: real)
    | Ack(address: Address, acknowledgement: int)
    | ConfirmApplication(address: Address, tag: string)
    | PollAll(now: real)
    | ReplayPending(address: Address, now: real)
    | ClearEndpoint(address: Address)
    | SetWire(address: Address, wire: WireState)
    | DropWire(address: Address)

  function AfterAck(s: State, address: Address, acknowledgement: int): State {
    var ack := acknowledgement % SEQUENCE_SPAN;
    var high := if address !in s.highWater || SequenceNewer(ack, s.highWater[address]) then ack
                else s.highWater[address];
    s.(highWater := s.highWater[address := high],
       pending := Put(s.pending, address, Walk(Acknowledge(ack), WindowsAt(s.pending, address))))
  }

  function AfterRegister(s: State, policy: Policy, e: Step): State
    requires e.Register?
  {
    var payloads := NonEmptyRecords(e.records);
    var windows := WindowsAt(s.pending, e.address);
    var final := e.final % SEQUENCE_SPAN;
    if payloads == [] || FindTwin(windows, final, payloads).Some? then s
    else
      var w := Window(s.nextId, e.tag, payloads, e.base % SEQUENCE_SPAN, final,
                      policy.Begin(e.now), e.application, false, false);
      s.(pending := s.pending[e.address := windows + [w]], nextId := s.nextId + 1)
  }

  function AfterInbound(s: State, e: Step): State
    requires e.Inbound? && e.address in s.wires
    requires e.address in s.recent ==> s.recent[e.address].Valid()
  {
    var wire := s.wires[e.address].(lastClientAcknowledgement := e.acknowledgement % SEQUENCE_SPAN);
    var acked := AfterAck(s.(wires := s.wires[e.address := wire]), e.address, e.acknowledgement);
    if !e.trackSequence then acked
    else
      var received := e.sequence % SEQUENCE_SPAN;
      var seen := if e.address in s.recent then s.recent[e.address] else Recent([], {});
      var fingerprint := (received, e.checksum);
      acked.(wires := acked.wires[e.address := wire.(lastClientSequence := received)],
             recent := s.recent[e.address := if fingerprint in seen.members then seen else seen.Note(fingerprint)])
  }

  /** Polling visits every wired endpoint and forgets the windows of the others. */
  function AfterPoll(s: State, now: real): State {
    s.(pending := map a | a in s.pending && a in s.wires :: Walk(Poll(now), s.pending[a]))
  }

  ghost predicate Valid(s: State, policy: Policy) {
    && policy.Valid()
    && (forall a :: a in s.recent ==> s.recent[a].Valid())
    && (forall a :: a in s.pending ==> s.pending[a] != [] && Distinct(s.pending[a]))
    && (forall a, w :: a in s.pending && w in s.pending[a] ==> Sound(w, policy, s.nextId))
    && (forall a, b, v, w :: a in s.pending && b in s.pending && v in s.pending[a] && w in s.pending[b] && a != b ==>
      v.id != w.id)
  }

  predicate Sound(w: Window, policy: Policy, nextId: nat) {
    w.id < nextId && w.records != [] && w.retry.policy == policy && w.retry.retriesSent <= policy.maximumRetries
  }

  ghost predicate Distinct(windows: seq<Window>) {
    forall i, j :: 0 <= i < j < |windows| ==> windows[i].id != windows[j].id
  }

  function AfterConfirm(s: State, address: Address, tag: string): State {
    s.(pending := Put(s.pending, address, Walk(Confirm(tag), WindowsAt(s.pending, address))))
  }

  function AfterReplay(s: State, policy: Policy, address: Address, now: real): State {
    if address !in s.wires then s
    else s.(pending := Put(s.pending, address, Walk(Replay(now, policy), WindowsAt(s.pending, address))))
  }

  function AfterClear(s: State, address: Address): State {
    s.(pending := s.pending - {address}, highWater := s.highWater - {address}, recent := s.recent - {address})
  }

  function After(s: State, policy: Policy, e: Step): State
    requires Valid(s, policy)
  {
    match e
    case Inbound(address, _, _, _, _) => if address in s.wires then AfterInbound(s, e) else s
    case Register(_, _, _, _, _, _, _) => AfterRegister(s, policy, e)
    case Ack(address, acknowledgement) => AfterAck(s, address, acknowledgement)
    case ConfirmApplication(address, tag) => AfterConfirm(s, address, tag)
    case PollAll(now) => AfterPoll(s, now)
    case ReplayPending(address, now) => AfterReplay(s, policy, address, now)
    case ClearEndpoint(address) => AfterClear(s, address)
    case SetWire(address, wire) => s.(wires := s.wires[address := wire])
    case DropWire(address) => s.(wires := s.wires - {address})
  }
}
