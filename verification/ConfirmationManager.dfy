/**
 The confirmation manager as the object with fields that the source has.  Each method
 takes the step of Confirmations.After for its own case; ConfirmationRuns.ValidAfter says
 that those steps keep the manager valid.
 */
module ConfirmationManager {
  import opened Options
  import opened Retry
  import opened Confirmations
  import opened ConfirmationReplies

  /** The windows when a poll still has to visit the endpoints of `todo`. */
  ghost function PolledExcept(before: Pending, wired: set<Address>, todo: set<Address>, now: real): Pending {
    map a | a in before && (a in todo || a in wired) :: if a in todo then before[a] else Walk(Poll(now), before[a])
  }

  ghost function RepliesExcept(before: Pending, wired: set<Address>, todo: set<Address>,
      now: real): map<Address, seq<string>> {
    map a | a in before && a !in todo && a in wired :: Sent(Poll(now), before[a])
  }

  lemma PollOneMore(before: Pending, wired: set<Address>, todo: set<Address>, address: Address, now: real)
    requires address in todo && todo <= before.Keys
    ensures PolledExcept(before, wired, todo, now)[address] == before[address]
    ensures address !in wired ==>
      && PolledExcept(before, wired, todo - {address}, now) == PolledExcept(before, wired, todo, now) - {address}
      && RepliesExcept(before, wired, todo - {address}, now) == RepliesExcept(before, wired, todo, now)
    ensures address in wired ==>
      && PolledExcept(before, wired, todo - {address}, now)
        == PolledExcept(before, wired, todo, now)[address := Walk(Poll(now), before[address])]
      && RepliesExcept(before, wired, todo - {address}, now)
        == RepliesExcept(before, wired, todo, now)[address := Sent(Poll(now), before[address])]
  {
  }

  lemma PollDone(before: Pending, wired: set<Address>, now: real)
    ensures PolledExcept(before, wired, {}, now) == map a | a in before && a in wired :: Walk(Poll(now), before[a])
    ensures RepliesExcept(before, wired, {}, now) == map a | a in before && a in wired :: Sent(Poll(now), before[a])
  {
  }

  lemma PollSendsEverywhere(before: Pending, wired: set<Address>, after: Pending, replies: map<Address, seq<string>>,
      now: real)
    requires after == PolledExcept(before, wired, {}, now) && replies == RepliesExcept(before, wired, {}, now)
    ensures Polled(before, wired, now, after, replies)
  {
    forall a | a in before && a in wired
      ensures PollReplies(before[a], now, replies[a]) && AllAfterPoll(before[a], now, after[a])
    {
      PollSends(before[a], now);
      PollLeaves(before[a], now);
    }
  }

  class Manager {
    const policy: Policy
    var wires: map<Address, WireState>
    var pending: Pending
    var highWater: map<Address, int>
    var recent: map<Address, Recent>
    var nextId: nat

    ghost function View(): State
      reads this
    {
      State(pending, wires, highWater, recent, nextId)
    }

    constructor (policy: Policy, wires: map<Address, WireState>)
      ensures this.policy == policy && View() == State(map[], wires, map[], map[], 0)
    {
      this.policy := policy;
      this.wires := wires;
      pending, highWater, recent, nextId := map[], map[], map[], 0;
    }

    method NoteInbound(seen: Recent, fingerprint: (int, int)) returns (order: seq<(int, int)>, members: set<(int, int)>)
      requires seen.Valid() && fingerprint !in seen.members
      ensures Recent(order, members) == seen.Note(fingerprint)
    {
      order, members := seen.order + [fingerprint], seen.members + {fingerprint};
      while |order| > RECENT_LIMIT
        invariant RECENT_LIMIT <= |order| || order == seen.order + [fingerprint]
        invariant Recent(order, members) == Recent(seen.order + [fingerprint], seen.members + {fingerprint})
          || (|order| == RECENT_LIMIT && Recent(order, members) == seen.Note(fingerprint))
        decreases |order|
      {
        assert (seen.order + [fingerprint])[1..] == seen.order[1..] + [fingerprint];
        members := members - {order[0]};
        order := order[1..];
      }
    }

    /** None stands for the KeyError of an endpoint without wire state. */
    method ObserveInbound(address: Address, sequence: int, acknowledgement: int, checksum: int, trackSequence: bool)
      returns (duplicate: Option<bool>)
      requires address in recent ==> recent[address].Valid()
      modifies this
      ensures View() == if address !in old(wires) then old(View())
        else AfterInbound(old(View()), Inbound(address, sequence, acknowledgement, checksum, trackSequence))
      ensures duplicate == if address !in old(wires) then None
        else Some(trackSequence && address in old(recent)
                  && (sequence % SEQUENCE_SPAN, checksum) in old(recent)[address].order)
    {
      if address !in wires {
        return None;
      }
      var ack := acknowledgement % SEQUENCE_SPAN;
      wires := wires[address := wires[address].(lastClientAcknowledgement := ack)];
      var _ := AcknowledgeWindows(address, ack);
      if !trackSequence {
        return Some(false);
      }
      var received := sequence % SEQUENCE_SPAN;
      wires := wires[address := wires[address].(lastClientSequence := received)];
      var fingerprint := (received, checksum);
      if address !in recent {
        recent := recent[address := Recent([], {})];
      }
      var seen := recent[address];
      if fingerprint in seen.members {
        return Some(true);
      }
      var order, members := NoteInbound(seen, fingerprint);
      recent := recent[address := Recent(order, members)];
      return Some(false);
    }

    /** Retains an exact window, or returns the equal one already open; None when there is nothing to retain. */
    method RegisterWindow(address: Address, records: seq<string>, base: int, final: int, tag: string,
                          application: bool, now: real) returns (window: Option<Window>)
      modifies this
      ensures View()
        == AfterRegister(old(View()), policy, Register(address, records, base, final, tag, application, now))
      ensures window.None? <==> NonEmptyRecords(records) == []
      ensures window.Some? ==>
        && window.value in WindowsAt(pending, address)
        && window.value.records == NonEmptyRecords(records) && window.value.final == final % SEQUENCE_SPAN
    {
      var payloads: seq<string> := [];
      for i := 0 to |records|
        invariant payloads == NonEmptyRecords(records[..i])
      {
        assert records[..i + 1][..i] == records[..i];
        if records[i] != "" {
          payloads := payloads + [records[i]];
        }
      }
      assert records[..|records|] == records;
      if payloads == [] {
        return None;
      }
      var windows := WindowsAt(pending, address);
      var target := final % SEQUENCE_SPAN;
      for i := 0 to |windows|
        invariant FindTwin(windows[i..], target, payloads) == FindTwin(windows, target, payloads)
      {
        if windows[i].final == target && windows[i].records == payloads {
          return Some(windows[i]);
        }
        assert windows[i..][1..] == windows[i + 1..];
      }
      var newest := Window(nextId, tag, payloads, base % SEQUENCE_SPAN, target, policy.Begin(now), application, false,
        false);
      pending := pending[address := windows + [newest]];
      nextId := nextId + 1;
      return Some(newest);
    }

    /** `acknowledge`: the number of windows it retires. */
    method AcknowledgeWindows(address: Address, acknowledgement: int) returns (cleared: nat)
      modifies this`pending, this`highWater
      ensures View() == AfterAck(old(View()), address, acknowledgement)
      ensures cleared == |WindowsAt(old(pending), address)| - |WindowsAt(pending, address)|
    {
      var ack := acknowledgement % SEQUENCE_SPAN;
      if address !in highWater || SequenceNewer(ack, highWater[address]) {
        highWater := highWater[address := ack];
      }
      if address !in pending {
        assert highWater == AfterAck(old(View()), address, acknowledgement).highWater;
        return 0;
      }
      var windows := pending[address];
      var retained: seq<Window> := [];
      for i := 0 to |windows|
        invariant retained == Walk(Acknowledge(ack), windows[..i]) && |retained| <= i
      {
        assert windows[..i + 1][..i] == windows[..i];
        var w := windows[i];
        if !SequenceAcked(ack, w.final) {
          retained := retained + [w];
        } else if w.applicationConfirmation {
          if !w.transportAcknowledged {
            w := w.(transportAcknowledged := true);
          }
          retained := retained + [w];
        }
      }
      assert windows[..|windows|] == windows;
      Store(address, retained);
      cleared := |windows| - |retained|;
    }

    method Store(address: Address, retained: seq<Window>)
      modifies this`pending
      ensures pending == Put(old(pending), address, retained)
    {
      if retained != [] {
        pending := pending[address := retained];
      } else {
        pending := pending - {address};
      }
    }

    method ConfirmApplicationStage(address: Address, tag: string) returns (cleared: nat)
      modifies this`pending
      ensures View() == AfterConfirm(old(View()), address, tag)
      ensures cleared == |WindowsAt(old(pending), address)| - |WindowsAt(pending, address)|
    {
      if address !in pending {
        return 0;
      }
      var windows := pending[address];
      var retained: seq<Window> := [];
      for i := 0 to |windows|
        invariant retained == Walk(Confirm(tag), windows[..i]) && |retained| <= i
      {
        assert windows[..i + 1][..i] == windows[..i];
        if !(windows[i].applicationConfirmation && windows[i].tag == tag) {
          retained := retained + [windows[i]];
        }
      }
      assert windows[..|windows|] == windows;
      Store(address, retained);
      cleared := |windows| - |retained|;
    }

    method PollWindows(windows: seq<Window>, now: real) returns (walked: seq<Window>, replies: seq<string>)
      ensures walked == Walk(Poll(now), windows) && replies == Sent(Poll(now), windows)
      ensures AllAfterPoll(windows, now, walked) && |walked| == |windows|
      ensures PollReplies(windows, now, replies)
    {
      walked, replies := [], [];
      for i := 0 to |windows|
        invariant walked == Walk(Poll(now), windows[..i]) && replies == Sent(Poll(now), windows[..i]) && |walked| == i
      {
        assert windows[..i + 1][..i] == windows[..i];
        var w := windows[i];
        if w.transportAcknowledged {
          if now >= w.retry.deadline && !w.exhaustedLogged {
            w := w.(exhaustedLogged := true);
          }
        } else if !w.retry.ExhaustionReason(now).Live? {
          if !w.exhaustedLogged {
            w := w.(exhaustedLogged := true);
          }
        } else if w.retry.Due(now) {
          replies := replies + w.records;
          w := w.(retry := w.retry.Retried(now));
        }
        walked := walked + [w];
      }
      assert windows[..|windows|] == windows;
      PollSends(windows, now);
      PollLeaves(windows, now);
    }

    /** The replies of a poll, grouped by destination. */
    method PollEverything(now: real) returns (replies: map<Address, seq<string>>)
      modifies this`pending
      ensures View() == AfterPoll(old(View()), now)
      ensures replies == map a | a in old(pending) && a in old(wires) :: Sent(Poll(now), old(pending)[a])
      ensures Polled(old(pending), old(wires).Keys, now, pending, replies)
    {
      replies := PollAddresses(now);
      PollSendsEverywhere(old(pending), wires.Keys, pending, replies, now);
      PollDone(old(pending), wires.Keys, now);
    }

    method PollAddresses(now: real) returns (replies: map<Address, seq<string>>)
      modifies this`pending
      ensures pending == PolledExcept(old(pending), wires.Keys, {}, now)
      ensures replies == RepliesExcept(old(pending), wires.Keys, {}, now)
    {
      ghost var before := pending;
      var todo := pending.Keys;
      replies := map[];
      while todo != {}
        invariant todo <= before.Keys
        invariant pending == PolledExcept(before, wires.Keys, todo, now)
        invariant replies == RepliesExcept(before, wires.Keys, todo, now)
        decreases todo
      {
        var address :| address in todo;
        PollOneMore(before, wires.Keys, todo, address, now);
        todo := todo - {address};
        if address !in wires {
          pending := pending - {address};
        } else {
          var sent := PollAddress(address, now);
          replies := replies[address := sent];
        }
      }
    }

    method PollAddress(address: Address, now: real) returns (sent: seq<string>)
      requires address in pending
      modifies this`pending
      ensures pending == old(pending)[address := Walk(Poll(now), old(pending)[address])]
      ensures sent == Sent(Poll(now), old(pending)[address])
    {
      var walked;
      walked, sent := PollWindows(pending[address], now);
      pending := pending[address := walked];
    }

    method ReplayWindows(windows: seq<Window>, now: real) returns (walked: seq<Window>, replies: seq<string>)
      ensures var pass := Confirmations.Replay(now, policy);
        walked == Walk(pass, windows) && replies == Sent(pass, windows) && |walked| == |windows|
    {
      ghost var pass := Confirmations.Replay(now, policy);
      walked, replies := [], [];
      for i := 0 to |windows|
        invariant walked == Walk(pass, windows[..i]) && |walked| == i
        invariant replies == Sent(pass, windows[..i])
      {
        assert windows[..i + 1][..i] == windows[..i];
        var w := windows[i];
        if !w.transportAcknowledged {
          replies := replies + w.records;
          if w.retry.Exhausted(now) {
            w := w.(retry := policy.Begin(now), exhaustedLogged := false);
          } else {
            w := w.(retry := w.retry.Deferred(now));
          }
        }
        walked := walked + [w];
      }
      assert windows[..|windows|] == windows;
    }

    method Replay(address: Address, now: real) returns (replies: seq<string>)
      requires address in pending ==> pending[address] != []
      modifies this`pending
      ensures View() == AfterReplay(old(View()), policy, address, now)
      ensures address !in old(wires) ==> replies == []
      ensures address in old(wires) ==>
        var before := WindowsAt(old(pending), address);
        && ReplayReplies(before, replies)
        && AllAfterReplay(before, now, policy, WindowsAt(pending, address))
    {
      if address !in wires {
        return [];
      }
      ReplaySends(WindowsAt(pending, address), now, policy);
      ReplayLeaves(WindowsAt(pending, address), now, policy);
      if address !in pending {
        return [];
      }
      var walked;
      walked, replies := ReplayWindows(pending[address], now);
      pending := pending[address := walked];
    }

    method Clear(address: Address)
      modifies this
      ensures View() == AfterClear(old(View()), address)
    {
      pending := pending - {address};
      highWater := highWater - {address};
      recent := recent - {address};
    }
  }
}
