/** What every step and every run of the confirmation manager keeps. */
module ConfirmationRuns {
  import opened Options
  import opened Retry
  import opened Confirmations

  // ----- one walk

  lemma VisitKeepsIdentity(pass: Pass, w: Window)
    ensures pass.Visit(w).Some? ==>
      var v := pass.Visit(w).value;
      v.id == w.id && v.tag == w.tag && v.records == w.records && v.base == w.base && v.final == w.final
      && v.applicationConfirmation == w.applicationConfirmation
      && (w.transportAcknowledged ==> v.transportAcknowledged)
  {
  }

  lemma {:induction false} WalkMembers(pass: Pass, windows: seq<Window>)
    ensures forall v :: v in Walk(pass, windows) <==> exists w :: w in windows && pass.Visit(w) == Some(v)
  {
    if windows != [] {
      var (init, last) := (windows[..|windows| - 1], windows[|windows| - 1]);
      WalkMembers(pass, init);
      assert forall w :: w in windows <==> w in init || w == last;
    }
  }

  lemma {:induction false} WalkDistinct(pass: Pass, windows: seq<Window>)
    requires Distinct(windows)
    ensures Distinct(Walk(pass, windows))
  {
    if windows != [] {
      var (init, last) := (windows[..|windows| - 1], windows[|windows| - 1]);
      WalkDistinct(pass, init);
      WalkMembers(pass, init);
      var walked := Walk(pass, init);
      forall k | 0 <= k < |walked| ensures walked[k].id != last.id {
        assert walked[k] in walked;
        var w :| w in init && pass.Visit(w) == Some(walked[k]);
        VisitKeepsIdentity(pass, w);
      }
      VisitKeepsIdentity(pass, last);
    }
  }

  lemma SameIdSameWindow(windows: seq<Window>, v: Window, w: Window)
    requires Distinct(windows) && v in windows && w in windows && v.id == w.id
    ensures v == w
  {
  }

  lemma SameIdSamePlace(s: State, policy: Policy, a: Address, b: Address, v: Window, w: Window)
    requires Valid(s, policy) && v in WindowsAt(s.pending, a) && w in WindowsAt(s.pending, b) && v.id == w.id
    ensures a == b && v == w
  {
    if a == b {
      SameIdSameWindow(s.pending[a], v, w);
    }
  }

  // ----- one step, seen from one endpoint

  /** The walk that a step makes over the windows of one endpoint, if any. */
  function PassOver(s: State, policy: Policy, e: Step, address: Address): Option<Pass> {
    match e
    case Inbound(a, _, ack, _, _) =>
      if a == address && a in s.wires then Some(Acknowledge(ack % SEQUENCE_SPAN)) else None
    case Ack(a, ack) => if a == address then Some(Acknowledge(ack % SEQUENCE_SPAN)) else None
    case ConfirmApplication(a, tag) => if a == address then Some(Confirm(tag)) else None
    case PollAll(now) => if address in s.wires then Some(Poll(now)) else None
    case ReplayPending(a, now) => if a == address && a in s.wires then Some(Replay(now, policy)) else None
    case _ => None
  }

  /** Steps that drop every window of the endpoint. */
  predicate Forgets(s: State, e: Step, address: Address) {
    (e.ClearEndpoint? && e.address == address) || (e.PollAll? && address !in s.wires)
  }

  predicate Opens(s: State, e: Step, address: Address) {
    && e.Register? && e.address == address && NonEmptyRecords(e.records) != []
    && FindTwin(WindowsAt(s.pending, address), e.final % SEQUENCE_SPAN, NonEmptyRecords(e.records)).None?
  }

  function Opened(s: State, policy: Policy, e: Step): Window
    requires e.Register?
  {
    Window(s.nextId, e.tag, NonEmptyRecords(e.records), e.base % SEQUENCE_SPAN, e.final % SEQUENCE_SPAN,
           policy.Begin(e.now), e.application, false, false)
  }

  lemma StepWindows(s: State, policy: Policy, e: Step, address: Address)
    requires Valid(s, policy)
    ensures var before := WindowsAt(s.pending, address);
      WindowsAt(After(s, policy, e).pending, address) ==
        if Forgets(s, e, address) then []
        else if Opens(s, e, address) then before + [Opened(s, policy, e)]
        else match PassOver(s, policy, e, address)
          case Some(pass) => Walk(pass, before)
          case None => before
  {
    assert forall pass: Pass :: Walk(pass, []) == [];
  }

  lemma StepEntries(s: State, policy: Policy, e: Step, address: Address)
    requires Valid(s, policy)
    ensures address in After(s, policy, e).pending ==> After(s, policy, e).pending[address] != []
    ensures After(s, policy, e).nextId == s.nextId + if e.Register? && Opens(s, e, e.address) then 1 else 0
  {
    if e.PollAll? && address in s.pending {
      PollKeepsLength(s.pending[address], e.now);
    }
  }

  lemma {:induction false} PollKeepsLength(windows: seq<Window>, now: real)
    ensures |Walk(Poll(now), windows)| == |windows|
  {
    if windows != [] {
      PollKeepsLength(windows[..|windows| - 1], now);
    }
  }

  /** The value after the step of a window that is there before it. */
  function Next(s: State, policy: Policy, e: Step, address: Address, w: Window): Option<Window> {
    if Forgets(s, e, address) then None
    else match PassOver(s, policy, e, address)
      case Some(pass) => pass.Visit(w)
      case None => Some(w)
  }

  lemma StepMembers(s: State, policy: Policy, e: Step, address: Address)
    requires Valid(s, policy)
    ensures forall v :: v in WindowsAt(After(s, policy, e).pending, address) <==>
      (Opens(s, e, address) && v == Opened(s, policy, e))
      || exists w :: w in WindowsAt(s.pending, address) && Next(s, policy, e, address, w) == Some(v)
  {
    StepWindows(s, policy, e, address);
    if PassOver(s, policy, e, address).Some? {
      WalkMembers(PassOver(s, policy, e, address).value, WindowsAt(s.pending, address));
    }
  }

  lemma NextKeepsIdentity(s: State, policy: Policy, e: Step, address: Address, w: Window)
    ensures Next(s, policy, e, address, w).Some? ==>
      var v := Next(s, policy, e, address, w).value;
      v.id == w.id && v.records == w.records && (w.transportAcknowledged ==> v.transportAcknowledged)
  {
    if PassOver(s, policy, e, address).Some? {
      VisitKeepsIdentity(PassOver(s, policy, e, address).value, w);
    }
  }

  lemma NextStaysSound(s: State, policy: Policy, e: Step, address: Address, w: Window)
    requires policy.Valid() && Sound(w, policy, s.nextId)
    ensures Next(s, policy, e, address, w).Some? ==> Sound(Next(s, policy, e, address, w).value, policy, s.nextId)
  {
  }

  /** Where a window after the step comes from: a window before (`kept`), or it was opened just now. */
  lemma Origin(s: State, policy: Policy, e: Step, address: Address, v: Window) returns (w: Window, kept: bool)
    requires Valid(s, policy)
    requires v in WindowsAt(After(s, policy, e).pending, address)
    ensures kept ==> w in WindowsAt(s.pending, address) && Next(s, policy, e, address, w) == Some(v) && w.id == v.id
    ensures !kept ==> e.Register? && Opens(s, e, address) && e.address == address && v == Opened(s, policy, e)
  {
    StepMembers(s, policy, e, address);
    w, kept := v, exists u :: u in WindowsAt(s.pending, address) && Next(s, policy, e, address, u) == Some(v);
    if kept {
      w :| w in WindowsAt(s.pending, address) && Next(s, policy, e, address, w) == Some(v);
      NextKeepsIdentity(s, policy, e, address, w);
    }
  }

  lemma RecentStaysValid(s: State, policy: Policy, e: Step)
    requires Valid(s, policy)
    ensures forall a :: a in After(s, policy, e).recent ==> After(s, policy, e).recent[a].Valid()
  {
  }

  lemma KnownWindow(s: State, policy: Policy, address: Address, w: Window)
    requires Valid(s, policy) && w in WindowsAt(s.pending, address)
    ensures Sound(w, policy, s.nextId)
  {
  }

  lemma KnownApart(s: State, policy: Policy, a: Address, b: Address, v: Window, w: Window)
    requires Valid(s, policy) && a != b
    requires v in WindowsAt(s.pending, a) && w in WindowsAt(s.pending, b)
    ensures v.id != w.id
  {
  }

  lemma DistinctExtended(windows: seq<Window>, w: Window)
    requires Distinct(windows) && forall v :: v in windows ==> v.id < w.id
    ensures Distinct(windows + [w])
  {
    assert forall k :: 0 <= k < |windows| ==> windows[k] in windows;
  }

  lemma StaysDistinct(s: State, policy: Policy, e: Step, address: Address)
    requires Valid(s, policy)
    ensures Distinct(WindowsAt(After(s, policy, e).pending, address))
  {
    var before := WindowsAt(s.pending, address);
    var after := WindowsAt(After(s, policy, e).pending, address);
    StepWindows(s, policy, e, address);
    if Forgets(s, e, address) {
      assert after == [];
    } else if Opens(s, e, address) {
      forall v | v in before ensures v.id < s.nextId {
        KnownWindow(s, policy, address, v);
      }
      DistinctExtended(before, Opened(s, policy, e));
    } else if PassOver(s, policy, e, address).Some? {
      WalkDistinct(PassOver(s, policy, e, address).value, before);
    } else {
      assert after == before;
    }
  }

  lemma StaysSound(s: State, policy: Policy, e: Step, address: Address, v: Window)
    requires Valid(s, policy)
    requires v in WindowsAt(After(s, policy, e).pending, address)
    ensures Sound(v, policy, After(s, policy, e).nextId)
  {
    var w, kept := Origin(s, policy, e, address, v);
    StepEntries(s, policy, e, address);
    if kept {
      KnownWindow(s, policy, address, w);
      NextStaysSound(s, policy, e, address, w);
    }
  }

  lemma StaysApart(s: State, policy: Policy, e: Step, a: Address, b: Address, v: Window, w: Window)
    requires Valid(s, policy) && a != b
    requires v in WindowsAt(After(s, policy, e).pending, a) && w in WindowsAt(After(s, policy, e).pending, b)
    ensures v.id != w.id
  {
    var v', oldV := Origin(s, policy, e, a, v);
    var w', oldW := Origin(s, policy, e, b, w);
    if oldV {
      KnownWindow(s, policy, a, v');
    }
    if oldW {
      KnownWindow(s, policy, b, w');
    }
    if oldV && oldW {
      KnownApart(s, policy, a, b, v', w');
    }
  }

  /** Every step keeps the manager's invariant. */
  lemma ValidAfter(s: State, policy: Policy, e: Step)
    requires Valid(s, policy)
    ensures Valid(After(s, policy, e), policy)
  {
    var t := After(s, policy, e);
    RecentStaysValid(s, policy, e);
    forall a | a in t.pending ensures t.pending[a] != [] && Distinct(t.pending[a]) {
      StepEntries(s, policy, e, a);
      StaysDistinct(s, policy, e, a);
    }
    forall a, w | a in t.pending && w in t.pending[a] ensures Sound(w, policy, t.nextId) {
      StaysSound(s, policy, e, a, w);
    }
    forall a, b, v, w | a in t.pending && b in t.pending && v in t.pending[a] && w in t.pending[b] && a != b
      ensures v.id != w.id
    {
      StaysApart(s, policy, e, a, b, v, w);
    }
  }

  // ----- which windows a step retires

  /** An acknowledgement that arrives for the endpoint with this step. */
  predicate AcknowledgesAt(s: State, e: Step, address: Address, w: Window) {
    match e
    case Inbound(a, _, ack, _, _) => a == address && a in s.wires && SequenceAcked(ack % SEQUENCE_SPAN, w.final)
    case Ack(a, ack) => a == address && SequenceAcked(ack % SEQUENCE_SPAN, w.final)
    case _ => false
  }

  ghost predicate Present(s: State, address: Address, id: nat) {
    exists w :: w in WindowsAt(s.pending, address) && w.id == id
  }

  lemma NextExists(s: State, policy: Policy, e: Step, address: Address, w: Window)
    ensures Next(s, policy, e, address, w).None? <==>
      || (AcknowledgesAt(s, e, address, w) && !w.applicationConfirmation)
      || (e.ConfirmApplication? && e.address == address && w.applicationConfirmation && w.tag == e.tag)
      || (e.ClearEndpoint? && e.address == address)
      || (e.PollAll? && address !in s.wires)
  {
  }

  /**
   A window disappears in a step if and only if an ACK covers it and it waits for no
   application stage, or its application label is confirmed, or its endpoint is cleared,
   or a poll finds its endpoint unwired.
   */
  lemma DisappearsOnlyIf(s: State, policy: Policy, e: Step, address: Address, w: Window)
    requires Valid(s, policy) && w in WindowsAt(s.pending, address)
    ensures !Present(After(s, policy, e), address, w.id) <==>
      || (AcknowledgesAt(s, e, address, w) && !w.applicationConfirmation)
      || (e.ConfirmApplication? && e.address == address && w.applicationConfirmation && w.tag == e.tag)
      || (e.ClearEndpoint? && e.address == address)
      || (e.PollAll? && address !in s.wires)
  {
    var next := Next(s, policy, e, address, w);
    StepMembers(s, policy, e, address);
    if next.Some? {
      NextKeepsIdentity(s, policy, e, address, w);
      assert next.value in WindowsAt(After(s, policy, e).pending, address);
    } else if Present(After(s, policy, e), address, w.id) {
      var v :| v in WindowsAt(After(s, policy, e).pending, address) && v.id == w.id;
      var u, kept := Origin(s, policy, e, address, v);
      KnownWindow(s, policy, address, w);
      if kept {
        SameIdSameWindow(WindowsAt(s.pending, address), u, w);
      }
      assert false;
    }
    NextExists(s, policy, e, address, w);
  }

  // ----- runs

  function Run(s: State, policy: Policy, steps: seq<Step>): (t: State)
    requires Valid(s, policy)
    ensures Valid(t, policy)
    decreases |steps|
  {
    if steps == [] then s
    else
      ValidAfter(s, policy, steps[0]);
      Run(After(s, policy, steps[0]), policy, steps[1..])
  }

  ghost predicate SendsWindow(s: State, policy: Policy, e: Step, id: nat) {
    exists address, w :: w in WindowsAt(s.pending, address) && w.id == id
      && PassOver(s, policy, e, address).Some? && PassOver(s, policy, e, address).value.Sends(w)
  }

  ghost predicate EverSends(s: State, policy: Policy, steps: seq<Step>, id: nat)
    requires Valid(s, policy)
    decreases |steps|
  {
    steps != [] &&
      (SendsWindow(s, policy, steps[0], id)
       || (ValidAfter(s, policy, steps[0]); EverSends(After(s, policy, steps[0]), policy, steps[1..], id)))
  }

  /** The window was opened once, and is gone or waits for its application stage only. */
  ghost predicate Settled(s: State, id: nat) {
    id < s.nextId && forall address, w :: w in WindowsAt(s.pending, address) && w.id == id ==> w.transportAcknowledged
  }

  lemma StaysSettled(s: State, policy: Policy, e: Step, id: nat)
    requires Valid(s, policy) && Settled(s, id)
    ensures Settled(After(s, policy, e), id) && !SendsWindow(s, policy, e, id)
  {
    var t := After(s, policy, e);
    StepEntries(s, policy, e, ("", 0));
    forall address, v | v in WindowsAt(t.pending, address) && v.id == id ensures v.transportAcknowledged {
      var w, kept := Origin(s, policy, e, address, v);
      NextKeepsIdentity(s, policy, e, address, w);
    }
  }

  lemma {:induction false} SettledIsSilent(s: State, policy: Policy, steps: seq<Step>, id: nat)
    requires Valid(s, policy) && Settled(s, id)
    ensures !EverSends(s, policy, steps, id)
    decreases |steps|
  {
    if steps != [] {
      StaysSettled(s, policy, steps[0], id);
      ValidAfter(s, policy, steps[0]);
      SettledIsSilent(After(s, policy, steps[0]), policy, steps[1..], id);
    }
  }

  lemma CoverSettles(s: State, policy: Policy, e: Step, address: Address, w: Window)
    requires Valid(s, policy) && w in WindowsAt(s.pending, address) && AcknowledgesAt(s, e, address, w)
    ensures Settled(After(s, policy, e), w.id)
  {
    var t := After(s, policy, e);
    StepEntries(s, policy, e, address);
    KnownWindow(s, policy, address, w);
    forall b, v | v in WindowsAt(t.pending, b) && v.id == w.id ensures v.transportAcknowledged {
      var u, kept := Origin(s, policy, e, b, v);
      SameIdSamePlace(s, policy, b, address, u, w);
    }
  }

  /** Once an ACK has covered a window, no later poll or replay of any run sends it again. */
  lemma CoveredIsNeverSentAgain(s: State, policy: Policy, e: Step, later: seq<Step>, address: Address, w: Window)
    requires Valid(s, policy) && w in WindowsAt(s.pending, address) && AcknowledgesAt(s, e, address, w)
    ensures Valid(After(s, policy, e), policy)
    ensures !EverSends(After(s, policy, e), policy, later, w.id)
  {
    ValidAfter(s, policy, e);
    CoverSettles(s, policy, e, address, w);
    SettledIsSilent(After(s, policy, e), policy, later, w.id);
  }

  // ----- the retry budget

  ghost function PollSends(s: State, policy: Policy, steps: seq<Step>, id: nat): nat
    requires Valid(s, policy)
    decreases |steps|
  {
    if steps == [] then 0
    else
      ValidAfter(s, policy, steps[0]);
      (if steps[0].PollAll? && SendsWindow(s, policy, steps[0], id) then 1 else 0)
      + PollSends(After(s, policy, steps[0]), policy, steps[1..], id)
  }

  /** Replays that the client triggered and that transmitted the window. */
  ghost function Replays(s: State, policy: Policy, steps: seq<Step>, id: nat): nat
    requires Valid(s, policy)
    decreases |steps|
  {
    if steps == [] then 0
    else
      ValidAfter(s, policy, steps[0]);
      (if steps[0].ReplayPending? && SendsWindow(s, policy, steps[0], id) then 1 else 0)
      + Replays(After(s, policy, steps[0]), policy, steps[1..], id)
  }

  /** At most `left` polls of the current schedule may still send the window. */
  ghost predicate Allowance(s: State, policy: Policy, id: nat, left: nat) {
    && (id >= s.nextId ==> left >= policy.maximumRetries)
    && forall address, w :: w in WindowsAt(s.pending, address) && w.id == id ==>
         left >= policy.maximumRetries - w.retry.retriesSent
  }

  lemma AllowanceAfter(s: State, policy: Policy, e: Step, id: nat, left: nat)
    requires Valid(s, policy) && Allowance(s, policy, id, left)
    ensures e.PollAll? && SendsWindow(s, policy, e, id) ==>
      left > 0 && Allowance(After(s, policy, e), policy, id, left - 1)
    ensures !e.PollAll? && SendsWindow(s, policy, e, id) ==>
      e.ReplayPending? && Allowance(After(s, policy, e), policy, id, left + policy.maximumRetries)
    ensures !SendsWindow(s, policy, e, id) ==> Allowance(After(s, policy, e), policy, id, left)
  {
    var t := After(s, policy, e);
    StepEntries(s, policy, e, ("", 0));
    if SendsWindow(s, policy, e, id) {
      var a, u :| u in WindowsAt(s.pending, a) && u.id == id
        && PassOver(s, policy, e, a).Some? && PassOver(s, policy, e, a).value.Sends(u);
      KnownWindow(s, policy, a, u);
      var after := if e.PollAll? then left - 1 else left + policy.maximumRetries;
      forall b, v | v in WindowsAt(t.pending, b) && v.id == id
        ensures after >= policy.maximumRetries - v.retry.retriesSent
      {
        var w, kept := Origin(s, policy, e, b, v);
        SameIdSamePlace(s, policy, b, a, w, u);
        SpendOne(s, policy, e, a, u);
      }
    } else {
      forall b, v | v in WindowsAt(t.pending, b) && v.id == id
        ensures left >= policy.maximumRetries - v.retry.retriesSent
      {
        var w, kept := Origin(s, policy, e, b, v);
        if kept {
          SpendOne(s, policy, e, b, w);
        }
      }
    }
  }

  /** A poll that sends uses up one retry; a replay may start the count again; nothing else touches it. */
  lemma SpendOne(s: State, policy: Policy, e: Step, address: Address, w: Window)
    ensures var pass := PassOver(s, policy, e, address);
      var next := Next(s, policy, e, address, w);
      next.Some? ==>
        next.value.retry.retriesSent ==
          if pass.Some? && pass.value.Sends(w) then
            if e.PollAll? then w.retry.retriesSent + 1
            else if w.retry.Exhausted(e.now) then 0 else w.retry.retriesSent
          else w.retry.retriesSent
  {
  }

  /** The counts of a run from its first step and the rest. */
  lemma CountsUnfold(s: State, policy: Policy, steps: seq<Step>, id: nat)
    requires Valid(s, policy) && steps != []
    ensures Valid(After(s, policy, steps[0]), policy)
    ensures PollSends(s, policy, steps, id) == PollSends(After(s, policy, steps[0]), policy, steps[1..], id)
      + if steps[0].PollAll? && SendsWindow(s, policy, steps[0], id) then 1 else 0
    ensures Replays(s, policy, steps, id) == Replays(After(s, policy, steps[0]), policy, steps[1..], id)
      + if steps[0].ReplayPending? && SendsWindow(s, policy, steps[0], id) then 1 else 0
  {
    ValidAfter(s, policy, steps[0]);
  }

  lemma {:induction false} BudgetFrom(s: State, policy: Policy, steps: seq<Step>, id: nat, left: nat)
    requires Valid(s, policy) && Allowance(s, policy, id, left)
    ensures PollSends(s, policy, steps, id) <= left + policy.maximumRetries * Replays(s, policy, steps, id)
    decreases |steps|
  {
    if steps != [] {
      var t := After(s, policy, steps[0]);
      CountsUnfold(s, policy, steps, id);
      AllowanceAfter(s, policy, steps[0], id, left);
      var sent := SendsWindow(s, policy, steps[0], id);
      var left' := if !sent then left else if steps[0].PollAll? then left - 1 else left + policy.maximumRetries;
      BudgetFrom(t, policy, steps[1..], id, left');
      AddUp(policy.maximumRetries, left, left', PollSends(t, policy, steps[1..], id),
        Replays(t, policy, steps[1..], id),
            PollSends(s, policy, steps, id), Replays(s, policy, steps, id));
    }
  }

  lemma AddUp(m: int, left: int, left': int, polls': int, replays': int, polls: int, replays: int)
    requires polls' <= left' + m * replays'
    requires (polls == polls' && replays == replays' && left' == left)
      || (polls == polls' + 1 && replays == replays' && left' == left - 1)
      || (polls == polls' && replays == replays' + 1 && left' == left + m)
    ensures polls <= left + m * replays
  {
    assert m * (replays' + 1) == m * replays' + m;
  }

  function Initial(wires: map<Address, WireState>): State {
    State(map[], wires, map[], map[], 0)
  }

  /**
   Over any run, polls send a window at most maximumRetries times, plus as often again for each
   client-triggered replay.
   */
  lemma RetryBudget(wires: map<Address, WireState>, policy: Policy, steps: seq<Step>, id: nat)
    requires policy.Valid()
    ensures Valid(Initial(wires), policy)
    ensures PollSends(Initial(wires), policy, steps, id)
      <= policy.maximumRetries * (1 + Replays(Initial(wires), policy, steps, id))
  {
    BudgetFrom(Initial(wires), policy, steps, id, policy.maximumRetries);
  }
}
