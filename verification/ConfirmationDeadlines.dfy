/** When polls of whole manager runs may still send a window. */
module ConfirmationDeadlines {
  import opened Options
  import opened Retry
  import opened Confirmations
  import opened ConfirmationRuns

  /** A step that gives a window a schedule: its opening, or a replay of the exhausted window. */
  ghost predicate Grants(s: State, e: Step, id: nat) {
    || (e.Register? && Opens(s, e, e.address) && s.nextId == id)
    || (e.ReplayPending? && e.address in s.wires
        && exists w ::
             w in WindowsAt(s.pending, e.address) && w.id == id
             && !w.transportAcknowledged && w.retry.Exhausted(e.now))
  }

  ghost predicate DueBy(s: State, id: nat, limit: real) {
    forall address, w :: w in WindowsAt(s.pending, address) && w.id == id ==> w.retry.deadline <= limit
  }

  lemma NextDeadline(s: State, policy: Policy, e: Step, address: Address, w: Window, limit: real)
    requires w in WindowsAt(s.pending, address) && w.retry.deadline <= limit
    requires Grants(s, e, w.id) ==> e.now + policy.timeout <= limit
    ensures var next := Next(s, policy, e, address, w); next.Some? ==> next.value.retry.deadline <= limit
  {
  }

  lemma StaysDueBy(s: State, policy: Policy, e: Step, id: nat, limit: real)
    requires Valid(s, policy) && DueBy(s, id, limit)
    requires Grants(s, e, id) ==> e.now + policy.timeout <= limit
    ensures DueBy(After(s, policy, e), id, limit)
  {
    forall address, v | v in WindowsAt(After(s, policy, e).pending, address) && v.id == id
      ensures v.retry.deadline <= limit
    {
      var w, kept := Origin(s, policy, e, address, v);
      if kept {
        NextDeadline(s, policy, e, address, w, limit);
      }
    }
  }

  /** A poll sends a window only before its deadline. */
  lemma PollSendsInTime(s: State, policy: Policy, e: Step, id: nat, limit: real)
    requires Valid(s, policy) && DueBy(s, id, limit) && e.PollAll? && SendsWindow(s, policy, e, id)
    ensures e.now < limit
  {
  }

  /** No schedule that a run gives the window reaches beyond `limit`. */
  ghost predicate GrantsBy(s: State, policy: Policy, steps: seq<Step>, id: nat, limit: real)
    requires Valid(s, policy)
    decreases |steps|
  {
    steps == [] ||
    (ValidAfter(s, policy, steps[0]);
     && (Grants(s, steps[0], id) ==> steps[0].now + policy.timeout <= limit)
     && GrantsBy(After(s, policy, steps[0]), policy, steps[1..], id, limit))
  }

  ghost predicate PollsBefore(s: State, policy: Policy, steps: seq<Step>, id: nat, limit: real)
    requires Valid(s, policy)
    decreases |steps|
  {
    steps == [] ||
    (ValidAfter(s, policy, steps[0]);
     && (steps[0].PollAll? && SendsWindow(s, policy, steps[0], id) ==> steps[0].now < limit)
     && PollsBefore(After(s, policy, steps[0]), policy, steps[1..], id, limit))
  }

  lemma {:induction false} PollsEnd(s: State, policy: Policy, steps: seq<Step>, id: nat, limit: real)
    requires Valid(s, policy) && DueBy(s, id, limit) && GrantsBy(s, policy, steps, id, limit)
    ensures PollsBefore(s, policy, steps, id, limit)
    decreases |steps|
  {
    if steps != [] {
      var e := steps[0];
      ValidAfter(s, policy, e);
      if e.PollAll? && SendsWindow(s, policy, e, id) {
        PollSendsInTime(s, policy, e, id, limit);
      }
      StaysDueBy(s, policy, e, id, limit);
      PollsEnd(After(s, policy, e), policy, steps[1..], id, limit);
    }
  }

  /**
   Over any run of the manager from its start, every poll that sends a window comes before
   the last deadline that its opening or a replay after exhaustion gave it: acknowledgements,
   deferrals and other endpoints never extend it.
   */
  lemma PollsEndAtDeadline(wires: map<Address, WireState>, policy: Policy, steps: seq<Step>, id: nat, limit: real)
    requires policy.Valid() && Valid(Initial(wires), policy) && GrantsBy(Initial(wires), policy, steps, id, limit)
    ensures PollsBefore(Initial(wires), policy, steps, id, limit)
  {
    PollsEnd(Initial(wires), policy, steps, id, limit);
  }
}
