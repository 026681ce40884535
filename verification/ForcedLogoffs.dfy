/** Session tokens and the markers of displaced sessions (server/carbon/accounts/identity.py, login). */
module ForcedLogoffs {
  import opened Options

  const MAX_MARKERS: nat := 256

  /** `account` is the folded account name. */
  datatype Identity = Identity(account: string, persona: string)

  /** A dictionary entry; sequences of them keep the order of insertion. */
  datatype Entry = Entry(token: string, identity: Identity, reason: string)

  datatype State = State(sessions: seq<Entry>, forced: seq<Entry>, ready: set<string>)

  datatype Operation =
    | Login(identity: Identity, token: string, reason: string)
    | MarkReady(token: string)
    | Revoke(token: string)

  predicate Has(entries: seq<Entry>, token: string) {
    exists i :: 0 <= i < |entries| && entries[i].token == token
  }

  function Pop(entries: seq<Entry>, token: string): seq<Entry> {
    if entries == [] then []
    else
      var last := entries[|entries| - 1];
      Pop(entries[..|entries| - 1], token) + (if last.token == token then [] else [last])
  }

  /** Assignment to a key: an old entry keeps its place. */
  function Assign(entries: seq<Entry>, e: Entry): seq<Entry> {
    if entries == [] then [e]
    else if entries[0].token == e.token then [e] + entries[1..]
    else [entries[0]] + Assign(entries[1..], e)
  }

  function FirstOf(entries: seq<Entry>, account: string): Option<Entry> {
    if entries == [] then None
    else if entries[0].identity.account == account then Some(entries[0])
    else FirstOf(entries[1..], account)
  }

  /** The newest `MAX_MARKERS` entries. */
  function Newest(entries: seq<Entry>): seq<Entry> {
    if |entries| <= MAX_MARKERS then entries else entries[|entries| - MAX_MARKERS..]
  }

  function Tokens(entries: seq<Entry>): set<string> {
    set i | 0 <= i < |entries| :: entries[i].token
  }

  /** The state after an operation; None when the source raises ValueError. */
  function After(s: State, op: Operation): Option<State> {
    match op
    case MarkReady(token) => Some(if Has(s.forced, token) then s.(ready := s.ready + {token}) else s)
    case Revoke(token) => Some(s.(sessions := Pop(s.sessions, token)))
    case Login(identity, token, reason) =>
      if token == "" then None
      else if reason == "" then
        Some(State(Assign(s.sessions, Entry(token, identity, "")), Pop(s.forced, token), s.ready - {token}))
      else
        match FirstOf(s.sessions, identity.account)
        case None => None
        case Some(previous) =>
          if Has(s.sessions, token) || Has(s.forced, token) then None
          else
            var forced := Newest(Assign(s.forced, previous.(reason := reason)));
            Some(State(
              Pop(s.sessions, previous.token) + [Entry(token, identity, "")],
              forced,
              (s.ready - {previous.token}) * Tokens(forced)))
  }

  // ----- dictionaries

  predicate Distinct(entries: seq<Entry>) {
    forall i, j :: 0 <= i < j < |entries| ==> entries[i].token != entries[j].token
  }

  lemma {:induction false} PopIs(entries: seq<Entry>, token: string)
    ensures Distinct(entries) ==> Distinct(Pop(entries, token))
    ensures forall t :: Has(Pop(entries, token), t) <==> Has(entries, t) && t != token
    ensures |Pop(entries, token)| <= |entries|
    ensures !Has(entries, token) ==> Pop(entries, token) == entries
  {
    if entries != [] {
      var (init, last) := (entries[..|entries| - 1], entries[|entries| - 1]);
      PopIs(init, token);
      HasLast(init, last);
      assert entries == init + [last];
      if last.token != token {
        HasLast(Pop(init, token), last);
        if Distinct(entries) {
          assert !Has(init, last.token);
          assert !Has(Pop(init, token), last.token);
        }
      } else {
        assert Pop(init, token) + [] == Pop(init, token);
      }
    }
  }

  lemma HasLast(init: seq<Entry>, last: Entry)
    ensures forall t :: Has(init + [last], t) <==> Has(init, t) || t == last.token
  {
    var all := init + [last];
    forall t ensures Has(all, t) <==> Has(init, t) || t == last.token {
      assert all[|init|] == last;
      if Has(init, t) {
        var i :| 0 <= i < |init| && init[i].token == t;
        assert all[i] == init[i];
      }
    }
  }

  lemma HasFirst(first: Entry, rest: seq<Entry>)
    ensures forall t :: Has([first] + rest, t) <==> Has(rest, t) || t == first.token
  {
    var all := [first] + rest;
    forall t ensures Has(all, t) <==> Has(rest, t) || t == first.token {
      assert all[0] == first;
      if Has(rest, t) {
        var i :| 0 <= i < |rest| && rest[i].token == t;
        assert all[i + 1] == rest[i];
      }
    }
  }

  lemma {:induction false} AssignIs(entries: seq<Entry>, e: Entry)
    ensures Distinct(entries) ==> Distinct(Assign(entries, e))
    ensures forall t :: Has(Assign(entries, e), t) <==> Has(entries, t) || t == e.token
    ensures !Has(entries, e.token) ==> Assign(entries, e) == entries + [e]
  {
    if entries == [] {
      HasFirst(e, []);
      assert [e] + [] == [e] && [] + [e] == [e];
    } else {
      var (first, rest) := (entries[0], entries[1..]);
      assert entries == [first] + rest;
      HasFirst(first, rest);
      if first.token == e.token {
        HasFirst(e, rest);
        assert Has(entries, e.token);
      } else {
        AssignIs(rest, e);
        HasFirst(first, Assign(rest, e));
        assert [first] + (rest + [e]) == entries + [e];
        if Distinct(entries) {
          assert !Has(rest, first.token);
          assert !Has(Assign(rest, e), first.token);
        }
      }
    }
  }

  lemma {:induction false} FirstIs(entries: seq<Entry>, account: string)
    ensures FirstOf(entries, account).None? <==> forall i :: 0 <= i < |entries| ==>
      entries[i].identity.account != account
    ensures FirstOf(entries, account).Some? ==>
      exists i :: 0 <= i < |entries| && entries[i] == FirstOf(entries, account).value
        && entries[i].identity.account == account
        && forall j :: 0 <= j < i ==> entries[j].identity.account != account
  {
    if entries != [] {
      FirstIs(entries[1..], account);
      if entries[0].identity.account != account && FirstOf(entries[1..], account).Some? {
        var i :| 0 <= i < |entries[1..]| && entries[1..][i] == FirstOf(entries[1..], account).value
          && entries[1..][i].identity.account == account
          && forall j :: 0 <= j < i ==> entries[1..][j].identity.account != account;
        assert entries[i + 1] == entries[1..][i];
        forall j | 0 <= j < i + 1 ensures entries[j].identity.account != account {
          assert j > 0 ==> entries[j] == entries[1..][j - 1];
        }
      }
    }
  }

  lemma NewestIs(entries: seq<Entry>)
    ensures |Newest(entries)| <= MAX_MARKERS
    ensures Distinct(entries) ==> Distinct(Newest(entries))
    ensures forall t :: Has(Newest(entries), t) ==> Has(entries, t)
  {
    forall t | Has(Newest(entries), t) ensures Has(entries, t) {
      var i :| 0 <= i < |Newest(entries)| && Newest(entries)[i].token == t;
      assert entries[i + |entries| - |Newest(entries)|].token == t;
    }
  }

  // ----- what every run keeps

  /** No token is active and displaced at once, markers are bounded, and readiness belongs to markers. */
  ghost predicate Valid(s: State) {
    && Distinct(s.sessions) && Distinct(s.forced) && |s.forced| <= MAX_MARKERS
    && (forall t :: Has(s.sessions, t) ==> !Has(s.forced, t))
    && (forall t :: t in s.ready ==> Has(s.forced, t))
  }

  lemma StepStaysValid(s: State, op: Operation)
    requires Valid(s) && After(s, op).Some?
    ensures Valid(After(s, op).value)
  {
    match op
    case MarkReady(_) =>
    case Revoke(token) => PopIs(s.sessions, token);
    case Login(identity, token, reason) =>
      if reason == "" {
        AssignIs(s.sessions, Entry(token, identity, ""));
        PopIs(s.forced, token);
      } else {
        ForcedStaysValid(s, identity, token, reason);
      }
  }

  lemma ForcedStaysValid(s: State, identity: Identity, token: string, reason: string)
    requires Valid(s) && reason != "" && After(s, Login(identity, token, reason)).Some?
    ensures Valid(After(s, Login(identity, token, reason)).value)
  {
    var previous := FirstOf(s.sessions, identity.account).value;
    var marker := previous.(reason := reason);
    FirstIs(s.sessions, identity.account);
    assert Has(s.sessions, previous.token);
    SessionsSwapped(s, previous.token, Entry(token, identity, ""));
    MarkersAppended(s, marker);
    var forced := Newest(Assign(s.forced, marker));
    TokensAreHeld(forced);
  }

  lemma SessionsSwapped(s: State, gone: string, e: Entry)
    requires Valid(s) && !Has(s.sessions, e.token)
    ensures Distinct(Pop(s.sessions, gone) + [e])
    ensures forall t :: Has(Pop(s.sessions, gone) + [e], t) <==> (Has(s.sessions, t) && t != gone) || t == e.token
  {
    PopIs(s.sessions, gone);
    HasLast(Pop(s.sessions, gone), e);
    assert !Has(Pop(s.sessions, gone), e.token);
  }

  lemma MarkersAppended(s: State, marker: Entry)
    requires Valid(s)
    ensures var forced := Newest(Assign(s.forced, marker));
      && Distinct(forced) && |forced| <= MAX_MARKERS
      && forall t :: Has(forced, t) ==> Has(s.forced, t) || t == marker.token
  {
    AssignIs(s.forced, marker);
    NewestIs(Assign(s.forced, marker));
  }

  lemma TokensAreHeld(entries: seq<Entry>)
    ensures forall t :: t in Tokens(entries) ==> Has(entries, t)
  {
  }

  /** A forced login swaps one session of the account for the new one and leaves its marker as the newest. */
  lemma ForcedLoginSwaps(s: State, identity: Identity, token: string, reason: string)
    requires Valid(s) && reason != ""
    ensures var after := After(s, Login(identity, token, reason));
      after.Some? <==> token != "" && !Has(s.sessions, token) && !Has(s.forced, token)
                       && exists i :: 0 <= i < |s.sessions| && s.sessions[i].identity.account == identity.account
    ensures After(s, Login(identity, token, reason)).Some? ==>
      var (previous, after) := (FirstOf(s.sessions, identity.account).value,
        After(s, Login(identity, token, reason)).value);
      && previous.identity.account == identity.account && Has(s.sessions, previous.token)
      && !Has(after.sessions, previous.token) && Has(after.sessions, token)
      && (forall t :: t != token && t != previous.token ==> (Has(after.sessions, t) <==> Has(s.sessions, t)))
      && |after.forced| == (if |s.forced| == MAX_MARKERS then MAX_MARKERS else |s.forced| + 1)
      && after.forced == (if |s.forced| == MAX_MARKERS then s.forced[1..] else s.forced) + [previous.(reason := reason)]
  {
    FirstIs(s.sessions, identity.account);
    if After(s, Login(identity, token, reason)).Some? {
      var previous := FirstOf(s.sessions, identity.account).value;
      assert Has(s.sessions, previous.token);
      PopIs(s.sessions, previous.token);
      HasLast(Pop(s.sessions, previous.token), Entry(token, identity, ""));
      AssignIs(s.forced, previous.(reason := reason));
    }
  }

  /** The identity that a session token stands for. */
  ghost predicate Holds(entries: seq<Entry>, token: string, identity: Identity) {
    exists i :: 0 <= i < |entries| && entries[i].token == token && entries[i].identity == identity
  }

  lemma HoldsLast(init: seq<Entry>, last: Entry, token: string, identity: Identity)
    ensures Holds(init + [last], token, identity) <==>
      Holds(init, token, identity) || (last.token == token && last.identity == identity)
  {
    var all := init + [last];
    if Holds(init, token, identity) {
      var i :| 0 <= i < |init| && init[i].token == token && init[i].identity == identity;
      assert all[i] == init[i];
    }
    assert all[|init|] == last;
  }

  lemma {:induction false} PopHolds(entries: seq<Entry>, gone: string, token: string, identity: Identity)
    ensures Holds(Pop(entries, gone), token, identity) <==> Holds(entries, token, identity) && token != gone
  {
    if entries != [] {
      var (init, last) := (entries[..|entries| - 1], entries[|entries| - 1]);
      assert entries == init + [last];
      PopHolds(init, gone, token, identity);
      HoldsLast(init, last, token, identity);
      HoldsLast(Pop(init, gone), last, token, identity);
      assert Pop(init, gone) + [] == Pop(init, gone);
    }
  }

  lemma {:induction false} AssignHolds(entries: seq<Entry>, e: Entry, token: string, identity: Identity)
    requires Distinct(entries)
    ensures Holds(Assign(entries, e), token, identity) <==>
      if token == e.token then identity == e.identity else Holds(entries, token, identity)
  {
    if entries == [] {
      assert [e][0] == e;
    } else {
      var (first, rest) := (entries[0], entries[1..]);
      assert entries == [first] + rest;
      AssignHolds(rest, e, token, identity);
      HoldsFirst(first, rest, token, identity);
      HoldsFirst(first, Assign(rest, e), token, identity);
      HoldsFirst(e, rest, token, identity);
    }
  }

  lemma HoldsFirst(first: Entry, rest: seq<Entry>, token: string, identity: Identity)
    ensures Holds([first] + rest, token, identity) <==>
      (first.token == token && first.identity == identity) || Holds(rest, token, identity)
  {
    var all := [first] + rest;
    if Holds(rest, token, identity) {
      var i :| 0 <= i < |rest| && rest[i].token == token && rest[i].identity == identity;
      assert all[i + 1] == rest[i];
    }
    assert all[0] == first;
  }

  /**
   After a login the token stands for the identity, and every other token of a session for what
   it did, but the one a forced login displaced.
   */
  lemma LoginLeaves(s: State, identity: Identity, token: string, reason: string, t: string, i: Identity)
    requires Valid(s) && After(s, Login(identity, token, reason)).Some?
    ensures var after := After(s, Login(identity, token, reason)).value;
      && (Holds(after.sessions, t, i) <==>
            if t == token then i == identity
            else Holds(s.sessions, t, i) && (reason != "" ==> t != FirstOf(s.sessions, identity.account).value.token))
      && (reason == "" ==> (Has(after.forced, t) <==> Has(s.forced, t) && t != token))
      && (t in after.ready <==> t in s.ready && Has(after.forced, t)
                                && (reason != "" ==> t != FirstOf(s.sessions, identity.account).value.token))
  {
    var e := Entry(token, identity, "");
    if reason == "" {
      AssignHolds(s.sessions, e, t, i);
      PopIs(s.forced, token);
    } else {
      var previous := FirstOf(s.sessions, identity.account).value;
      PopHolds(s.sessions, previous.token, t, i);
      HoldsLast(Pop(s.sessions, previous.token), e, t, i);
      NotHeld(s.sessions, token, i);
      TokensAreHeld(After(s, Login(identity, token, reason)).value.forced);
      AreTokens(After(s, Login(identity, token, reason)).value.forced);
    }
  }

  lemma NotHeld(entries: seq<Entry>, token: string, identity: Identity)
    ensures Holds(entries, token, identity) ==> Has(entries, token)
  {
  }

  lemma AreTokens(entries: seq<Entry>)
    ensures forall t :: Has(entries, t) ==> t in Tokens(entries)
  {
  }

  function Run(s: State, ops: seq<Operation>): State
    decreases |ops|
  {
    if ops == [] then s
    else
      var after := After(s, ops[0]);
      Run(if after.Some? then after.value else s, ops[1..])
  }

  lemma {:induction false} RunStaysValid(s: State, ops: seq<Operation>)
    requires Valid(s)
    ensures Valid(Run(s, ops))
    decreases |ops|
  {
    if ops != [] {
      var after := After(s, ops[0]);
      if after.Some? {
        StepStaysValid(s, ops[0]);
      }
      RunStaysValid(if after.Some? then after.value else s, ops[1..]);
    }
  }

  // ----- one session an account

  ghost predicate OneEach(s: State) {
    forall i, j :: 0 <= i < j < |s.sessions| ==> s.sessions[i].identity.account != s.sessions[j].identity.account
  }

  /** A caller that forces every login of an account that has a session already, with a token of its own. */
  ghost predicate Polite(s: State, op: Operation) {
    op.Login? && op.reason == "" ==>
      FirstOf(s.sessions, op.identity.account).None? && !Has(s.sessions, op.token)
  }

  ghost predicate PoliteRun(s: State, ops: seq<Operation>)
    decreases |ops|
  {
    ops == [] || (Polite(s, ops[0])
      && PoliteRun(if After(s, ops[0]).Some? then After(s, ops[0]).value else s, ops[1..]))
  }

  lemma {:induction false} PopKeepsAccounts(entries: seq<Entry>, token: string)
    ensures forall i :: 0 <= i < |Pop(entries, token)| ==>
      Pop(entries, token)[i].token != token && Pop(entries, token)[i] in entries
    ensures OneEach(State(entries, [], {})) ==> OneEach(State(Pop(entries, token), [], {}))
  {
    if entries != [] {
      var (init, last) := (entries[..|entries| - 1], entries[|entries| - 1]);
      PopKeepsAccounts(init, token);
      assert forall i :: 0 <= i < |init| ==> entries[i] == init[i];
      assert forall e :: e in init ==> e in entries;
    }
  }

  lemma PoliteStep(s: State, op: Operation)
    requires Valid(s) && OneEach(s) && Polite(s, op) && After(s, op).Some?
    ensures OneEach(After(s, op).value)
  {
    match op
    case MarkReady(_) =>
    case Revoke(token) => PopKeepsAccounts(s.sessions, token);
    case Login(identity, token, reason) =>
      FirstIs(s.sessions, identity.account);
      if reason == "" {
        AssignIs(s.sessions, Entry(token, identity, ""));
      } else {
        var previous := FirstOf(s.sessions, identity.account).value;
        PopKeepsAccounts(s.sessions, previous.token);
        OthersDiffer(s, previous);
      }
  }

  lemma OthersDiffer(s: State, previous: Entry)
    requires OneEach(s) && previous in s.sessions
    ensures forall e :: e in s.sessions && e.token != previous.token ==> e.identity.account != previous.identity.account
  {
  }

  /** When every login of an account with a session is forced, no account ever has two sessions. */
  lemma {:induction false} OneSessionEach(s: State, ops: seq<Operation>)
    requires Valid(s) && OneEach(s) && PoliteRun(s, ops)
    ensures OneEach(Run(s, ops))
    decreases |ops|
  {
    if ops != [] {
      var after := After(s, ops[0]);
      if after.Some? {
        StepStaysValid(s, ops[0]);
        PoliteStep(s, ops[0]);
      }
      OneSessionEach(if after.Some? then after.value else s, ops[1..]);
    }
  }

  // ----- the store

  class TokenStore {
    var sessions: seq<Entry>
    var forced: seq<Entry>
    var ready: set<string>

    ghost function View(): State
      reads this
    {
      State(sessions, forced, ready)
    }

    constructor ()
      ensures View() == State([], [], {}) && Valid(View())
    {
      sessions, forced, ready := [], [], {};
    }

    /** `ok` is false when the source raises ValueError; nothing changes then. */
    method DoLogin(identity: Identity, token: string, reason: string) returns (ok: bool)
      requires Valid(View())
      modifies this
      ensures ok == After(old(View()), Login(identity, token, reason)).Some?
      ensures View() == if ok then After(old(View()), Login(identity, token, reason)).value else old(View())
    {
      if token == "" {
        return false;
      }
      if reason == "" {
        sessions, forced, ready := Assign(sessions, Entry(token, identity, "")), Pop(forced, token), ready - {token};
        return true;
      }
      var previous := FirstOf(sessions, identity.account);
      if previous.None? || Has(sessions, token) || Has(forced, token) {
        return false;
      }
      AssignIs(forced, previous.value.(reason := reason));
      AssignIs(Pop(sessions, previous.value.token), Entry(token, identity, ""));
      PopIs(sessions, previous.value.token);
      forced := Assign(forced, previous.value.(reason := reason));
      sessions := Assign(Pop(sessions, previous.value.token), Entry(token, identity, ""));
      ready := ready - {previous.value.token};
      DropExpired();
      return true;
    }

    method DropExpired()
      requires Distinct(forced) && forall t :: t in ready ==> Has(forced, t)
      modifies this`forced, this`ready
      ensures forced == Newest(old(forced)) && ready == old(ready) * Tokens(forced)
    {
      ghost var (all, was) := (forced, ready);
      assert all[0..] == all;
      ReadyOf(all, 0, ready);
      while |forced| > MAX_MARKERS
        invariant |forced| <= |all| && forced == all[|all| - |forced|..]
        invariant |all| <= MAX_MARKERS || |forced| >= MAX_MARKERS
        invariant |all| <= MAX_MARKERS ==> forced == all
        invariant ready == was * Tokens(forced)
      {
        var expired := forced[0].token;
        TokensWithout(forced);
        forced := forced[1..];
        ready := ready - {expired};
      }
    }
  }

  lemma ReadyOf(all: seq<Entry>, n: nat, ready: set<string>)
    requires forall t :: t in ready ==> Has(all, t)
    ensures ready == ready * Tokens(all)
  {
  }

  lemma TokensWithout(entries: seq<Entry>)
    requires entries != [] && Distinct(entries)
    ensures Tokens(entries[1..]) == Tokens(entries) - {entries[0].token}
  {
    forall t ensures t in Tokens(entries[1..]) <==> t in Tokens(entries) && t != entries[0].token {
      if t in Tokens(entries[1..]) {
        var i :| 0 <= i < |entries[1..]| && entries[1..][i].token == t;
        assert entries[i + 1].token == t;
      }
      if t in Tokens(entries) && t != entries[0].token {
        var i :| 0 <= i < |entries| && entries[i].token == t;
        assert entries[1..][i - 1].token == t;
      }
    }
  }
}
