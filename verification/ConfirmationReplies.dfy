/** What a poll and a replay transmit and do to each window, in terms of the windows' fields. */
module ConfirmationReplies {
  import opened Options
  import opened Retry
  import opened Confirmations

  function Joined(parts: seq<seq<string>>): seq<string> {
    if parts == [] then [] else Joined(parts[..|parts| - 1]) + parts[|parts| - 1]
  }

  /** Not acknowledged, with a retry left, before the deadline, and its wait is over. */
  predicate AwaitsPoll(w: Window, now: real) {
    && !w.transportAcknowledged
    && w.retry.retriesSent < w.retry.policy.maximumRetries
    && w.retry.retryNotBefore <= now < w.retry.deadline
  }

  /** All records of the windows that await the poll, window by window. */
  ghost predicate PollReplies(windows: seq<Window>, now: real, replies: seq<string>) {
    exists parts: seq<seq<string>> ::
      && |parts| == |windows| && replies == Joined(parts)
      && forall i :: 0 <= i < |windows| ==> parts[i] == if AwaitsPoll(windows[i], now) then windows[i].records else []
  }

  /** All records of the windows that no acknowledgement covered, window by window. */
  ghost predicate ReplayReplies(windows: seq<Window>, replies: seq<string>) {
    exists parts: seq<seq<string>> ::
      && |parts| == |windows| && replies == Joined(parts)
      && forall i :: 0 <= i < |windows| ==>
        parts[i] == if windows[i].transportAcknowledged then [] else windows[i].records
  }

  function Parts(pass: Pass, windows: seq<Window>): (parts: seq<seq<string>>)
    ensures |parts| == |windows|
  {
    seq(|windows|, i requires 0 <= i < |windows| => if pass.Sends(windows[i]) then windows[i].records else [])
  }

  lemma {:induction false} SentInParts(pass: Pass, windows: seq<Window>)
    ensures Sent(pass, windows) == Joined(Parts(pass, windows))
  {
    if windows != [] {
      var init := windows[..|windows| - 1];
      SentInParts(pass, init);
      assert Parts(pass, windows)[..|windows| - 1] == Parts(pass, init);
    }
  }

  /** A poll transmits the complete windows that await it, in the order of registration. */
  lemma PollSends(windows: seq<Window>, now: real)
    ensures PollReplies(windows, now, Sent(Poll(now), windows))
  {
    SentInParts(Poll(now), windows);
    var parts := Parts(Poll(now), windows);
    assert forall i :: 0 <= i < |windows| ==>
      parts[i] == if AwaitsPoll(windows[i], now) then windows[i].records else [];
  }

  /** A replay transmits the complete windows that no acknowledgement covered, in the order of registration. */
  lemma ReplaySends(windows: seq<Window>, now: real, policy: Policy)
    ensures ReplayReplies(windows, Sent(Replay(now, policy), windows))
  {
    SentInParts(Replay(now, policy), windows);
    var parts := Parts(Replay(now, policy), windows);
    assert forall i :: 0 <= i < |windows| ==>
      parts[i] == if windows[i].transportAcknowledged then [] else windows[i].records;
  }

  // ----- the windows afterwards

  /** A window that was sent counts one retry more and waits the longer for the next; any other keeps its schedule. */
  ghost predicate AfterPollIs(w: Window, now: real, v: Window) {
    var sent := w.retry.retriesSent;
    v.(exhaustedLogged := w.exhaustedLogged) ==
      if !AwaitsPoll(w, now) then w
      else w.(retry := w.retry.(retriesSent := sent + 1,
                                retryNotBefore := Min(w.retry.deadline, now + w.retry.Delay(sent + 1))))
  }

  /** A live window waits the initial delay from the replay on; one that ran out starts afresh. */
  ghost predicate AfterReplayIs(w: Window, now: real, policy: Policy, v: Window) {
    var ranOut := w.retry.retriesSent >= w.retry.policy.maximumRetries || w.retry.deadline <= now;
    v.(exhaustedLogged := w.exhaustedLogged) ==
      if w.transportAcknowledged then w
      else if ranOut then
        w.(retry := Schedule(policy, now, now + policy.initialDelay, now + policy.timeout, 0))
      else w.(retry := w.retry.(retryNotBefore := Min(w.retry.deadline, now + w.retry.policy.initialDelay)))
  }

  ghost predicate AllAfterPoll(windows: seq<Window>, now: real, walked: seq<Window>) {
    |walked| == |windows| && forall i :: 0 <= i < |windows| ==> AfterPollIs(windows[i], now, walked[i])
  }

  ghost predicate AllAfterReplay(windows: seq<Window>, now: real, policy: Policy, walked: seq<Window>) {
    |walked| == |windows| && forall i :: 0 <= i < |windows| ==> AfterReplayIs(windows[i], now, policy, walked[i])
  }

  lemma PollVisit(w: Window, now: real)
    ensures Poll(now).Visit(w).Some? && AfterPollIs(w, now, Poll(now).Visit(w).value)
  {
  }

  lemma ReplayVisit(w: Window, now: real, policy: Policy)
    ensures var pass := Replay(now, policy); pass.Visit(w).Some? && AfterReplayIs(w, now, policy, pass.Visit(w).value)
  {
  }

  /** A pass that retires nothing changes each window in its place. */
  lemma {:induction false} WalkInPlace(pass: Pass, windows: seq<Window>)
    requires forall w :: w in windows ==> pass.Visit(w).Some?
    ensures var walked := Walk(pass, windows);
      |walked| == |windows| && forall i :: 0 <= i < |windows| ==> pass.Visit(windows[i]) == Some(walked[i])
  {
    if windows != [] {
      var (init, last) := (windows[..|windows| - 1], windows[|windows| - 1]);
      assert last in windows && forall w :: w in init ==> w in windows;
      WalkInPlace(pass, init);
      assert Walk(pass, windows) == Walk(pass, init) + [pass.Visit(last).value];
    }
  }

  lemma PollLeaves(windows: seq<Window>, now: real)
    ensures AllAfterPoll(windows, now, Walk(Poll(now), windows))
  {
    forall w ensures Poll(now).Visit(w).Some? && AfterPollIs(w, now, Poll(now).Visit(w).value) {
      PollVisit(w, now);
    }
    WalkInPlace(Poll(now), windows);
  }

  lemma ReplayLeaves(windows: seq<Window>, now: real, policy: Policy)
    ensures AllAfterReplay(windows, now, policy, Walk(Replay(now, policy), windows))
  {
    var pass := Replay(now, policy);
    forall w ensures pass.Visit(w).Some? && AfterReplayIs(w, now, policy, pass.Visit(w).value) {
      ReplayVisit(w, now, policy);
    }
    WalkInPlace(pass, windows);
  }

  /** Every wired endpoint with windows is polled; the windows of the others are forgotten. */
  ghost predicate Polled(before: Pending, wired: set<Address>, now: real, after: Pending,
      replies: map<Address, seq<string>>)
  {
    && (forall a :: a in after <==> a in before && a in wired)
    && (forall a :: a in replies <==> a in before && a in wired)
    && forall a :: a in before && a in wired ==>
         PollReplies(before[a], now, replies[a]) && AllAfterPoll(before[a], now, after[a])
  }
}
