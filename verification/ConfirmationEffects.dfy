/**
 What registering, receiving and acknowledging leave at an endpoint
 (server/carbon/rebroadcaster/confirmations.py).
 */
module ConfirmationEffects {
  import opened Options
  import opened Retry
  import opened Confirmations
  import opened ConfirmationRuns

  // ----- registering

  /** The records of two lists are those of the first and then those of the second. */
  lemma {:induction false} RecordsPlus(a: seq<string>, b: seq<string>)
    ensures NonEmptyRecords(a + b) == NonEmptyRecords(a) + NonEmptyRecords(b)
  {
    if b == [] {
      assert a + b == a;
    } else {
      assert (a + b)[..|a + b| - 1] == a + b[..|b| - 1];
      RecordsPlus(a, b[..|b| - 1]);
    }
  }

  /** A record is kept when it is not empty. */
  lemma OneRecord(record: string)
    ensures NonEmptyRecords([record]) == if record == "" then [] else [record]
  {
    assert [record][..0] == [];
  }

  lemma {:induction false} TwinIff(windows: seq<Window>, final: int, records: seq<string>)
    ensures FindTwin(windows, final, records).None? <==>
      forall i :: 0 <= i < |windows| ==> windows[i].final != final || windows[i].records != records
  {
    if windows != [] {
      TwinIff(windows[1..], final, records);
      assert forall i :: 0 < i < |windows| ==> windows[i] == windows[1..][i - 1];
    }
  }

  /** The same last number and the same records are open already. */
  ghost predicate OpenAlready(s: State, e: Step)
    requires e.Register?
  {
    exists i :: 0 <= i < |WindowsAt(s.pending, e.address)|
      && WindowsAt(s.pending, e.address)[i].final == e.final % SEQUENCE_SPAN
      && WindowsAt(s.pending, e.address)[i].records == NonEmptyRecords(e.records)
  }

  /** The window is the last one of its endpoint, with what it was registered with and a fresh schedule. */
  ghost predicate Registered(s: State, policy: Policy, e: Step, after: State)
    requires e.Register? && e.address in after.pending
  {
    var (before, windows) := (WindowsAt(s.pending, e.address), after.pending[e.address]);
    && |windows| == |before| + 1 && windows[..|before|] == before
    && var w := windows[|before|];
       && w.tag == e.tag && w.records == NonEmptyRecords(e.records) && w.applicationConfirmation == e.application
       && w.base == e.base % SEQUENCE_SPAN && w.final == e.final % SEQUENCE_SPAN && !w.transportAcknowledged
       && w.retry == Schedule(policy, e.now, e.now + policy.initialDelay, e.now + policy.timeout, 0)
  }

  /** A window is opened exactly when some record is not empty and the same window is not open. */
  lemma RegisterIff(s: State, policy: Policy, e: Step)
    requires e.Register?
    ensures var after := AfterRegister(s, policy, e);
      && (forall a :: a != e.address ==> WindowsAt(after.pending, a) == WindowsAt(s.pending, a))
      && (after.wires, after.highWater, after.recent) == (s.wires, s.highWater, s.recent)
      && if NonEmptyRecords(e.records) == [] || OpenAlready(s, e) then after == s
         else e.address in after.pending && Registered(s, policy, e, after)
  {
    TwinIff(WindowsAt(s.pending, e.address), e.final % SEQUENCE_SPAN, NonEmptyRecords(e.records));
  }

  // ----- receiving

  /** The wire state, the fingerprints and the high water after a packet of a wired endpoint. */
  lemma InboundEffect(s: State, policy: Policy, e: Step)
    requires Valid(s, policy) && e.Inbound? && e.address in s.wires
    ensures var (after, wire) := (AfterInbound(s, e), s.wires[e.address]);
      && after.wires == s.wires[e.address := WireState(
           e.acknowledgement % SEQUENCE_SPAN,
           if e.trackSequence then e.sequence % SEQUENCE_SPAN else wire.lastClientSequence)]
      && after.highWater == AfterAck(s, e.address, e.acknowledgement).highWater
      && after.pending == AfterAck(s, e.address, e.acknowledgement).pending
  {
  }

  /** A fingerprint stays known through the next 255 different ones. */
  lemma NotedOrder(seen: Recent, f: Fingerprint)
    requires seen.Valid() && f !in seen.members
    ensures var noted := seen.Note(f).order;
      && noted[|noted| - 1] == f
      && noted[..|noted| - 1] == if |seen.order| == 256 then seen.order[1..] else seen.order
  {
  }

  /**
   For true counters of a client that are less than 2^27 apart, the high water is the greatest
   acknowledgement.
   */
  lemma HighWaterIs(s: State, address: Address, high: int, acknowledgement: int)
    requires -SEQUENCE_HALF < acknowledgement - high < SEQUENCE_HALF
    requires address in s.highWater && s.highWater[address] == high % SEQUENCE_SPAN
    ensures var after := AfterAck(s, address, acknowledgement).highWater;
      after == s.highWater[address := (if acknowledgement > high then acknowledgement else high) % SEQUENCE_SPAN]
  {
    WrappedOrder(acknowledgement, high);
  }

  lemma FirstHighWater(s: State, address: Address, acknowledgement: int)
    requires address !in s.highWater
    ensures AfterAck(s, address, acknowledgement).highWater == s.highWater[address := acknowledgement % SEQUENCE_SPAN]
  {
  }

  /** Clearing an endpoint forgets its windows, its high water and its fingerprints, and nothing of any other. */
  lemma ClearEffect(s: State, address: Address, a: Address)
    ensures var after := AfterClear(s, address);
      && after.wires == s.wires
      && (a == address ==> a !in after.pending && a !in after.highWater && a !in after.recent)
      && (a != address ==>
            && WindowsAt(after.pending, a) == WindowsAt(s.pending, a)
            && (a in after.highWater <==> a in s.highWater) && (a in after.recent <==> a in s.recent)
            && (a in s.highWater ==> after.highWater[a] == s.highWater[a])
            && (a in s.recent ==> after.recent[a] == s.recent[a]))
  {
  }

  lemma NextAfterAck(s: State, policy: Policy, address: Address, acknowledgement: int, w: Window)
    ensures Next(s, policy, Ack(address, acknowledgement), address, w) ==
      if (acknowledgement % SEQUENCE_SPAN - w.final) % SEQUENCE_SPAN >= SEQUENCE_HALF then Some(w)
      else if w.applicationConfirmation then Some(w.(transportAcknowledged := true)) else None
  {
  }

  /** A covered window that waits for its application stage is kept as acknowledged; every other one is untouched. */
  lemma AcknowledgedIs(s: State, policy: Policy, address: Address, acknowledgement: int, w: Window)
    requires Valid(s, policy) && w in WindowsAt(s.pending, address)
    ensures var after := WindowsAt(AfterAck(s, address, acknowledgement).pending, address);
      var covered := (acknowledgement % SEQUENCE_SPAN - w.final) % SEQUENCE_SPAN < SEQUENCE_HALF;
      if !covered then w in after
      else if w.applicationConfirmation then w.(transportAcknowledged := true) in after
      else forall v :: v in after ==> v.id != w.id
  {
    var e := Ack(address, acknowledgement);
    NextAfterAck(s, policy, address, acknowledgement, w);
    if Next(s, policy, e, address, w).Some? {
      StepMembers(s, policy, e, address);
    } else {
      DisappearsOnlyIf(s, policy, e, address, w);
    }
  }
}
