/** Room memberships of connections and what they announce (server/common/social.py, set_game_session). */
module SessionMembership {
  import opened Options

  /** A persona in a session of a game; all three texts are normalised and not empty. */
  datatype Membership = Membership(key: string, game: string, session: string)

  type Sessions = map<string, Membership>

  predicate Member(sessions: Sessions, m: Membership) {
    exists c :: c in sessions && sessions[c] == m
  }

  /** The other personas of a session. */
  function Peers(sessions: Sessions, m: Membership): set<string> {
    set c | c in sessions && sessions[c].game == m.game && sessions[c].session == m.session && sessions[c].key != m.key
      :: sessions[c].key
  }

  /** A persona as a whole enters or leaves a session that the peers are in. */
  datatype Change = Change(entered: bool, m: Membership, peers: set<string>)

  datatype Result = Result(sessions: Sessions, changes: seq<Change>)

  /** The membership a request asks for; an empty part means none. */
  function Desired(key: string, game: string, session: string): Option<Membership> {
    if key == "" || game == "" || session == "" then None else Some(Membership(key, game, session))
  }

  /** The first half of a change: the connection gives up what it has. */
  function Left(sessions: Sessions, connection: string): Result {
    if connection !in sessions then Result(sessions, [])
    else
      var m := sessions[connection];
      var after := sessions - {connection};
      Result(after, if Member(after, m) then [] else [Change(false, m, Peers(sessions, m))])
  }

  function Entered(sessions: Sessions, connection: string, m: Membership): Result {
    var after := sessions[connection := m];
    Result(after, if Member(sessions, m) then [] else [Change(true, m, Peers(after, m))])
  }

  function Set(sessions: Sessions, connection: string, desired: Option<Membership>): Result {
    var previous := if connection in sessions then Some(sessions[connection]) else None;
    if connection == "" || previous == desired then Result(sessions, [])
    else
      var left := Left(sessions, connection);
      match desired
      case None => left
      case Some(m) =>
        var entered := Entered(left.sessions, connection, m);
        Result(entered.sessions, left.changes + entered.changes)
  }

  /** A request leaves its connection with what it asked for, and every other connection as it was. */
  lemma RequestLeaves(sessions: Sessions, connection: string, desired: Option<Membership>)
    ensures Set(sessions, connection, desired).sessions ==
      if connection == "" then sessions
      else match desired
        case None => sessions - {connection}
        case Some(m) => sessions[connection := m]
  {
  }

  predicate InSession(sessions: Sessions, connection: string, m: Membership, key: string) {
    && connection in sessions && sessions[connection].key == key
    && sessions[connection].game == m.game && sessions[connection].session == m.session
  }

  /** No other connection has the membership. */
  ghost predicate OthersLack(sessions: Sessions, connection: string, m: Membership) {
    forall d :: d in sessions && d != connection ==> sessions[d] != m
  }

  /** The other personas of the session that the other connections are in. */
  ghost predicate OtherPersonas(sessions: Sessions, connection: string, m: Membership, peers: set<string>) {
    forall key :: key in peers <==> key != m.key && exists d :: d != connection && InSession(sessions, d, m, key)
  }

  lemma OtherPeersAre(sessions: Sessions, connection: string, m: Membership)
    ensures OtherPersonas(sessions, connection, m, Peers(sessions - {connection}, m))
  {
    var others := sessions - {connection};
    forall key ensures key in Peers(others, m) <==>
      key != m.key && exists d :: d != connection && InSession(sessions, d, m, key)
    {
      if key in Peers(others, m) {
        var d :| d in others && others[d].key == key && others[d].game == m.game && others[d].session == m.session;
        assert InSession(sessions, d, m, key);
      }
      if key != m.key && exists d :: d != connection && InSession(sessions, d, m, key) {
        var d :| d != connection && InSession(sessions, d, m, key);
        assert d in others;
      }
    }
  }

  /** The connection itself is never one of the peers. */
  lemma OwnIsNoPeer(sessions: Sessions, connection: string, m: Membership)
    requires connection in sessions && sessions[connection] == m
    ensures Peers(sessions, m) == Peers(sessions - {connection}, m)
  {
    var others := sessions - {connection};
    forall key | key in Peers(sessions, m) ensures key in Peers(others, m) {
      var d :| d in sessions && sessions[d].key == key && key != m.key
        && sessions[d].game == m.game && sessions[d].session == m.session;
      assert d in others && others[d] == sessions[d];
    }
  }

  /**
   A departure is announced when no other connection keeps the membership, and then an entry
   when no other one has it, each to the other personas of its session.
   */
  lemma RequestAnnounces(sessions: Sessions, connection: string, desired: Option<Membership>)
    requires connection != ""
    ensures var previous := if connection in sessions then Some(sessions[connection]) else None;
      var leaves := previous != desired && previous.Some? && OthersLack(sessions, connection, previous.value);
      var enters := previous != desired && desired.Some? && OthersLack(sessions, connection, desired.value);
      var changes := Set(sessions, connection, desired).changes;
      && |changes| == (if leaves then 1 else 0) + (if enters then 1 else 0)
      && (leaves ==> changes[0].m == previous.value && !changes[0].entered
                     && OtherPersonas(sessions, connection, previous.value, changes[0].peers))
      && (enters ==> changes[|changes| - 1].m == desired.value && changes[|changes| - 1].entered
                     && OtherPersonas(sessions, connection, desired.value, changes[|changes| - 1].peers))
  {
    if connection in sessions {
      var m := sessions[connection];
      OtherPeersAre(sessions, connection, m);
      OwnIsNoPeer(sessions, connection, m);
      LackIff(sessions, connection, m);
    }
    if desired.Some? {
      var after := sessions[connection := desired.value];
      OtherPeersAre(sessions, connection, desired.value);
      OwnIsNoPeer(after, connection, desired.value);
      assert after - {connection} == sessions - {connection};
      LackIff(sessions, connection, desired.value);
      assert Left(sessions, connection).sessions == sessions - {connection};
      assert (sessions - {connection})[connection := desired.value] == after;
    }
  }

  lemma LackIff(sessions: Sessions, connection: string, m: Membership)
    ensures Member(sessions - {connection}, m) <==> !OthersLack(sessions, connection, m)
  {
    var others := sessions - {connection};
    if d :| d in sessions && d != connection && sessions[d] == m {
      assert d in others && others[d] == m;
    }
  }

  // ----- the announcements of runs

  datatype Request = Request(connection: string, desired: Option<Membership>)

  function Run(sessions: Sessions, requests: seq<Request>): Result
    decreases |requests|
  {
    if requests == [] then Result(sessions, [])
    else
      var first := Set(sessions, requests[0].connection, requests[0].desired);
      var rest := Run(first.sessions, requests[1..]);
      Result(rest.sessions, first.changes + rest.changes)
  }

  function Count(b: bool): int {
    if b then 1 else 0
  }

  /** Enter events minus leave events of one membership. */
  function Balance(changes: seq<Change>, m: Membership): int {
    if changes == [] then 0
    else
      var c := changes[|changes| - 1];
      Balance(changes[..|changes| - 1], m) + (if c.m != m then 0 else if c.entered then 1 else -1)
  }

  /**
   Who gets to see whom: `told` are the recipients of an entry or a departure, who need a
   control connection and no relation to the subject; `lists` are the rows of a player who
   comes or goes, which the subject must be online for as well.
   */
  datatype Sight = Sight(told: (string, string) -> bool, lists: (string, string) -> bool)

  /**
   Rows of `subject` added to minus removed from the player list of `recipient`, in one
   session.  Leaving a session of the game "carbon" is not published.
   */
  function Rows(sight: Sight, changes: seq<Change>, game: string, session: string, recipient: string,
      subject: string): int {
    if changes == [] then 0
    else
      var c := changes[|changes| - 1];
      Rows(sight, changes[..|changes| - 1], game, session, recipient, subject)
      + (if !Delivers(sight, c, game, session, recipient, subject) then 0 else if c.entered then 1 else -1)
  }

  predicate Published(c: Change) {
    c.entered || c.m.game != "carbon"
  }

  predicate Delivers(sight: Sight, c: Change, game: string, session: string, recipient: string, subject: string) {
    && Published(c) && c.m.game == game && c.m.session == session
    && ((subject == c.m.key && recipient in c.peers && sight.told(recipient, subject))
        || (recipient == c.m.key && subject in c.peers && sight.lists(recipient, subject)))
  }

  lemma {:induction false} BalancePlus(a: seq<Change>, b: seq<Change>, m: Membership)
    ensures Balance(a + b, m) == Balance(a, m) + Balance(b, m)
  {
    if b == [] {
      assert a + b == a;
    } else {
      assert (a + b)[..|a + b| - 1] == a + b[..|b| - 1];
      BalancePlus(a, b[..|b| - 1], m);
    }
  }

  lemma {:induction false} RowsPlus(sight: Sight, a: seq<Change>, b: seq<Change>, game: string, session: string,
      recipient: string, subject: string)
    ensures Rows(sight, a + b, game, session, recipient, subject)
         == Rows(sight, a, game, session, recipient, subject) + Rows(sight, b, game, session, recipient, subject)
  {
    if b == [] {
      assert a + b == a;
    } else {
      assert (a + b)[..|a + b| - 1] == a + b[..|b| - 1];
      RowsPlus(sight, a, b[..|b| - 1], game, session, recipient, subject);
    }
  }

  lemma MembersAfter(sessions: Sessions, connection: string, desired: Option<Membership>, m: Membership)
    ensures Member(Left(sessions, connection).sessions, m) ==> Member(sessions, m)
    ensures Member(sessions, m) && !Member(Left(sessions, connection).sessions, m) ==>
      connection in sessions && sessions[connection] == m
    ensures desired.Some? && connection !in sessions ==>
      (Member(Entered(sessions, connection, desired.value).sessions, m) <==> Member(sessions, m) || m == desired.value)
  {
    if desired.Some? && connection !in sessions {
      var after := Entered(sessions, connection, desired.value).sessions;
      assert after[connection] == desired.value;
      if Member(sessions, m) {
        var c :| c in sessions && sessions[c] == m;
        assert after[c] == m;
      }
    }
    if Member(sessions, m) && connection in sessions {
      var c :| c in sessions && sessions[c] == m;
      assert c != connection ==> Left(sessions, connection).sessions[c] == m;
    }
  }

  lemma LeftBalance(sessions: Sessions, connection: string, m: Membership)
    ensures Balance(Left(sessions, connection).changes, m)
         == Count(Member(Left(sessions, connection).sessions, m)) - Count(Member(sessions, m))
  {
    MembersAfter(sessions, connection, None, m);
    var changes := Left(sessions, connection).changes;
    assert changes != [] ==> changes[..0] == [];
    if connection in sessions {
      assert Member(sessions, sessions[connection]);
    }
  }

  lemma EnteredBalance(sessions: Sessions, connection: string, entering: Membership, m: Membership)
    requires connection !in sessions
    ensures Balance(Entered(sessions, connection, entering).changes, m)
         == Count(Member(Entered(sessions, connection, entering).sessions, m)) - Count(Member(sessions, m))
  {
    MembersAfter(sessions, connection, Some(entering), m);
    var changes := Entered(sessions, connection, entering).changes;
    assert changes != [] ==> changes[..0] == [];
  }

  lemma SetBalance(sessions: Sessions, connection: string, desired: Option<Membership>, m: Membership)
    ensures Balance(Set(sessions, connection, desired).changes, m)
         == Count(Member(Set(sessions, connection, desired).sessions, m)) - Count(Member(sessions, m))
  {
    var left := Left(sessions, connection);
    LeftBalance(sessions, connection, m);
    if desired.Some? {
      EnteredBalance(left.sessions, connection, desired.value, m);
      BalancePlus(left.changes, Entered(left.sessions, connection, desired.value).changes, m);
    }
  }

  /** Over any run, entries minus departures of a membership tell whether some connection holds it. */
  lemma {:induction false} EventsBalance(sessions: Sessions, requests: seq<Request>, m: Membership)
    ensures Balance(Run(sessions, requests).changes, m)
         == Count(Member(Run(sessions, requests).sessions, m)) - Count(Member(sessions, m))
    decreases |requests|
  {
    if requests != [] {
      var first := Set(sessions, requests[0].connection, requests[0].desired);
      SetBalance(sessions, requests[0].connection, requests[0].desired, m);
      EventsBalance(first.sessions, requests[1..], m);
      BalancePlus(first.changes, Run(first.sessions, requests[1..]).changes, m);
    }
  }

  lemma BalanceOfOne(sessions: Sessions, c: string, desired: Option<Membership>, n: nat, m: Membership)
    requires n <= |Set(sessions, c, desired).changes|
    ensures 0 <= Count(Member(sessions, m)) + Balance(Set(sessions, c, desired).changes[..n], m) <= 1
  {
    var changes := Set(sessions, c, desired).changes;
    var left := Left(sessions, c);
    SetBalance(sessions, c, desired, m);
    LeftBalance(sessions, c, m);
    assert changes[..|changes|] == changes;
    assert n == 0 ==> changes[..n] == [];
    if 0 < n < |changes| {
      assert changes[..n] == left.changes;
    }
  }

  /** At no moment does a membership enter twice without leaving, or leave without having entered. */
  lemma {:induction false} EventsAlternate(sessions: Sessions, requests: seq<Request>, n: nat, m: Membership)
    requires n <= |Run(sessions, requests).changes|
    ensures 0 <= Count(Member(sessions, m)) + Balance(Run(sessions, requests).changes[..n], m) <= 1
    decreases |requests|
  {
    if requests != [] {
      var (r, all) := (requests[0], Run(sessions, requests).changes);
      var first := Set(sessions, r.connection, r.desired);
      if n <= |first.changes| {
        assert all[..n] == first.changes[..n];
        BalanceOfOne(sessions, r.connection, r.desired, n, m);
      } else {
        var rest := Run(first.sessions, requests[1..]).changes;
        assert all[..n] == first.changes + rest[..n - |first.changes|];
        BalancePlus(first.changes, rest[..n - |first.changes|], m);
        SetBalance(sessions, r.connection, r.desired, m);
        EventsAlternate(first.sessions, requests[1..], n - |first.changes|, m);
      }
    }
  }

  // ----- the player lists

  /** Both personas are in the session, so each is on the other's list. */
  predicate Together(sessions: Sessions, game: string, session: string, a: string, b: string) {
    a != b && Member(sessions, Membership(a, game, session)) && Member(sessions, Membership(b, game, session))
  }

  /** 1 when the two have come together, -1 when they have parted, and otherwise 0. */
  function Gained(before: Sessions, after: Sessions, game: string, session: string, a: string, b: string): int {
    Count(Together(after, game, session, a, b)) - Count(Together(before, game, session, a, b))
  }

  lemma PeersAre(sessions: Sessions, m: Membership, other: string)
    ensures other in Peers(sessions, m) <==> other != m.key && Member(sessions, Membership(other, m.game, m.session))
  {
    if other != m.key && Member(sessions, Membership(other, m.game, m.session)) {
      var c :| c in sessions && sessions[c] == Membership(other, m.game, m.session);
      assert sessions[c].key == other;
    }
  }

  lemma LeftRows(sight: Sight, sessions: Sessions, connection: string, game: string, session: string, a: string,
      b: string)
    requires game != "carbon" && sight.told(a, b) == sight.lists(a, b)
    ensures Rows(sight, Left(sessions, connection).changes, game, session, a, b)
         == if sight.told(a, b) then Gained(sessions, Left(sessions, connection).sessions, game, session, a, b) else 0
  {
    var (ma, mb) := (Membership(a, game, session), Membership(b, game, session));
    MembersAfter(sessions, connection, None, ma);
    MembersAfter(sessions, connection, None, mb);
    var changes := Left(sessions, connection).changes;
    assert changes != [] ==> changes[..0] == [];
    if connection in sessions {
      assert Member(sessions, sessions[connection]);
      PeersAre(sessions, sessions[connection], a);
      PeersAre(sessions, sessions[connection], b);
    }
  }

  lemma EnteredRows(sight: Sight, sessions: Sessions, connection: string, entering: Membership,
                    game: string, session: string, a: string, b: string)
    requires connection !in sessions && sight.told(a, b) == sight.lists(a, b)
    ensures Rows(sight, Entered(sessions, connection, entering).changes, game, session, a, b)
         == if sight.told(a, b)
            then Gained(sessions, Entered(sessions, connection, entering).sessions, game, session, a, b) else 0
  {
    var (ma, mb) := (Membership(a, game, session), Membership(b, game, session));
    MembersAfter(sessions, connection, Some(entering), ma);
    MembersAfter(sessions, connection, Some(entering), mb);
    var after := Entered(sessions, connection, entering);
    assert after.changes != [] ==> after.changes[..0] == [];
    PeersAre(after.sessions, entering, a);
    PeersAre(after.sessions, entering, b);
  }

  /**
   Outside the game "carbon", the rows sent to a player say after any run exactly who is in
   the session with them, when both kinds of rows show the same.
   */
  lemma {:induction false} RowsBalance(sight: Sight, sessions: Sessions, requests: seq<Request>,
                                       game: string, session: string, a: string, b: string)
    requires game != "carbon" && sight.told(a, b) == sight.lists(a, b)
    ensures Rows(sight, Run(sessions, requests).changes, game, session, a, b)
         == if sight.told(a, b) then Gained(sessions, Run(sessions, requests).sessions, game, session, a, b) else 0
    decreases |requests|
  {
    if requests != [] {
      var r := requests[0];
      var (left, first) := (Left(sessions, r.connection), Set(sessions, r.connection, r.desired));
      LeftRows(sight, sessions, r.connection, game, session, a, b);
      if r.desired.Some? {
        EnteredRows(sight, left.sessions, r.connection, r.desired.value, game, session, a, b);
        var entered := Entered(left.sessions, r.connection, r.desired.value);
        RowsPlus(sight, left.changes, entered.changes, game, session, a, b);
      }
      RowsBalance(sight, first.sessions, requests[1..], game, session, a, b);
      RowsPlus(sight, first.changes, Run(first.sessions, requests[1..]).changes, game, session, a, b);
    }
  }

  /**
   After these requests the list of `a` shows `b` exactly while both are in the session, or, if
   not `shown`, never.
   */
  predicate InStep(sight: Sight, requests: seq<Request>, game: string, session: string, a: string, b: string,
      shown: bool) {
    var after := Run(map[], requests);
    Rows(sight, after.changes, game, session, a, b)
      == if shown then Count(Together(after.sessions, game, session, a, b)) else 0
  }

  /** One player enters, a second one enters, and one of the two leaves again. */
  function TwoMeet(c: string, d: string, first: Membership, second: Membership, leaves: string): seq<Request> {
    [Request(c, Some(first)), Request(d, Some(second)), Request(leaves, None)]
  }

  /** The three steps of a meeting, one by one. */
  lemma MeetingSteps(c: string, d: string, first: Membership, second: Membership, leaves: string)
    requires c != d && c != "" && d != "" && (leaves == c || leaves == d)
    requires first.game == second.game && first.session == second.session && first.key != second.key
    ensures Set(map[], c, Some(first)) == Result(map[c := first], [Change(true, first, {})])
    ensures Set(map[c := first], d, Some(second))
      == Result(map[c := first, d := second], [Change(true, second, {first.key})])
    ensures Set(map[c := first, d := second], leaves, None) ==
      if leaves == c then Result(map[d := second], [Change(false, first, {second.key})])
      else Result(map[c := first], [Change(false, second, {first.key})])
  {
    var one: Sessions := map[c := first];
    var both: Sessions := map[c := first, d := second];
    assert Peers(one, first) == {};
    assert both[c] == first && both[d] == second;
    forall o ensures o in Peers(both, second) <==> o == first.key {
      PeersAre(both, second, o);
    }
    forall o ensures o in Peers(both, first) <==> o == second.key {
      PeersAre(both, first, o);
    }
    assert Peers(both, second) == {first.key} && Peers(both, first) == {second.key};
    var left := Set(both, leaves, None);
    assert left.sessions == if leaves == c then map[d := second] else one;
  }

  lemma MeetingChanges(c: string, d: string, first: Membership, second: Membership, leaves: string)
    requires c != d && c != "" && d != "" && (leaves == c || leaves == d)
    requires first.game == second.game && first.session == second.session && first.key != second.key
    ensures Run(map[], TwoMeet(c, d, first, second, leaves)[..2]) ==
      Result(map[c := first, d := second], [Change(true, first, {}), Change(true, second, {first.key})])
    ensures Run(map[], TwoMeet(c, d, first, second, leaves)) ==
      Result(if leaves == c then map[d := second] else map[c := first],
             [Change(true, first, {}), Change(true, second, {first.key}),
              if leaves == c then Change(false, first, {second.key}) else Change(false, second, {first.key})])
  {
    var requests := TwoMeet(c, d, first, second, leaves);
    MeetingSteps(c, d, first, second, leaves);
    RunOne(map[c := first, d := second], requests[2]);
    RunMore(map[c := first], requests[1], [requests[2]]);
    RunMore(map[], requests[0], [requests[1], requests[2]]);
    assert requests == [requests[0]] + [requests[1], requests[2]];
    assert [requests[1], requests[2]] == [requests[1]] + [requests[2]];
    RunOne(map[c := first], requests[1]);
    RunMore(map[], requests[0], [requests[1]]);
    assert requests[..2] == [requests[0]] + [requests[1]];
  }

  lemma RunOne(sessions: Sessions, r: Request)
    ensures Run(sessions, [r]) == Set(sessions, r.connection, r.desired)
  {
    RunMore(sessions, r, []);
    assert [r] + [] == [r];
  }

  lemma RunMore(sessions: Sessions, r: Request, more: seq<Request>)
    ensures var first := Set(sessions, r.connection, r.desired);
            var rest := Run(first.sessions, more);
            Run(sessions, [r] + more) == Result(rest.sessions, first.changes + rest.changes)
  {
    assert ([r] + more)[1..] == more;
  }

  /** What two or three changes deliver. */
  lemma RowsOfMeeting(sight: Sight, x: Change, y: Change, z: Change, game: string, session: string, a: string,
      b: string)
    ensures Rows(sight, [x, y], game, session, a, b)
      == RowOf(sight, x, game, session, a, b) + RowOf(sight, y, game, session, a, b)
    ensures Rows(sight, [x, y, z], game, session, a, b)
      == Rows(sight, [x, y], game, session, a, b) + RowOf(sight, z, game, session, a, b)
  {
    assert [x, y, z][..2] == [x, y] && [x, y][..1] == [x] && [x][..0] == [];
    assert Rows(sight, [x], game, session, a, b) == RowOf(sight, x, game, session, a, b);
  }

  function RowOf(sight: Sight, c: Change, game: string, session: string, a: string, b: string): int {
    if !Delivers(sight, c, game, session, a, b) then 0 else if c.entered then 1 else -1
  }

  /** When the two kinds differ, the player who is told more than listed leaves first, or the other one does. */
  lemma OutOfStep(sight: Sight, c: string, d: string, game: string, session: string, a: string, b: string, shown: bool)
    requires game != "carbon" && a != b && c != d && c != "" && d != "" && sight.told(a, b) != sight.lists(a, b)
    ensures exists requests :: !InStep(sight, requests, game, session, a, b, shown)
  {
    var (ma, mb) := (Membership(a, game, session), Membership(b, game, session));
    var (first, second) := if sight.told(a, b) then (ma, mb) else (mb, ma);
    var requests := TwoMeet(c, d, first, second, c);
    MeetingChanges(c, d, first, second, c);
    RowsOfMeeting(sight, Change(true, first, {}), Change(true, second, {first.key}),
      Change(false, first, {second.key}), game, session, a, b);
    var half := Run(map[], requests[..2]).sessions;
    assert half[c] == first && half[d] == second;
    assert Together(half, game, session, a, b);
    if shown {
      assert !Member(Run(map[], requests).sessions, first);
      assert !InStep(sight, requests, game, session, a, b, shown);
    } else {
      assert !InStep(sight, requests[..2], game, session, a, b, shown);
    }
  }

  ghost predicate AlwaysInStep(sight: Sight, game: string, session: string, a: string, b: string, shown: bool) {
    forall requests :: InStep(sight, requests, game, session, a, b, shown)
  }

  /** The rows of one player about another are in step over every run if and only if both kinds show the same. */
  lemma RowsInStepIff(sight: Sight, c: string, d: string, game: string, session: string, a: string, b: string)
    requires game != "carbon" && a != b && c != d && c != "" && d != ""
    ensures (exists shown :: AlwaysInStep(sight, game, session, a, b, shown)) <==> sight.told(a, b) == sight.lists(a, b)
  {
    if sight.told(a, b) == sight.lists(a, b) {
      forall requests ensures InStep(sight, requests, game, session, a, b, sight.told(a, b)) {
        RowsBalance(sight, map[], requests, game, session, a, b);
      }
      assert AlwaysInStep(sight, game, session, a, b, sight.told(a, b));
    } else {
      OutOfStep(sight, c, d, game, session, a, b, true);
      OutOfStep(sight, c, d, game, session, a, b, false);
    }
  }

  /** In the game "carbon" a row stays behind: somebody enters, meets a player and leaves again. */
  lemma CarbonRowStays(sight: Sight, c: string, d: string, a: string, b: string, session: string, carbon: string)
    requires carbon == "carbon" && c != d && a != b && sight.told(a, b) && c != "" && d != ""
    ensures var (ma, mb) := (Membership(a, carbon, session), Membership(b, carbon, session));
            var after := Run(map[], [Request(c, Some(ma)), Request(d, Some(mb)), Request(d, None)]);
            Rows(sight, after.changes, carbon, session, a, b) == 1 && !Member(after.sessions, mb)
  {
    var (ma, mb) := (Membership(a, carbon, session), Membership(b, carbon, session));
    var s1 := Set(map[], c, Some(ma));
    assert s1.sessions == map[c := ma] && s1.changes == [Change(true, ma, Peers(map[c := ma], ma))];
    PeersAre(s1.sessions, ma, b);
    PeersAre(s1.sessions, ma, a);
    var s2 := Set(s1.sessions, d, Some(mb));
    PeersAre(s2.sessions, mb, a);
    assert s2.sessions[c] == ma;
    var s3 := Set(s2.sessions, d, None);
    assert s3.sessions == map[c := ma];
    CarbonRows(sight, session, a, b, carbon, s1.changes, s2.changes, s3.changes);
    var tail := Run(s2.sessions, [Request(d, None)]);
    assert Run(s3.sessions, []) == Result(s3.sessions, []);
    assert [Request(d, None)][1..] == [];
    assert tail.sessions == s3.sessions && tail.changes == s3.changes;
    var two := Run(s1.sessions, [Request(d, Some(mb)), Request(d, None)]);
    assert [Request(d, Some(mb)), Request(d, None)][1..] == [Request(d, None)];
    assert two == Result(s3.sessions, s2.changes + s3.changes);
    assert [Request(c, Some(ma)), Request(d, Some(mb)), Request(d, None)][1..]
      == [Request(d, Some(mb)), Request(d, None)];
  }

  lemma CarbonRows(sight: Sight, session: string, a: string, b: string, carbon: string,
                   first: seq<Change>, second: seq<Change>, third: seq<Change>)
    requires carbon == "carbon" && a != b && sight.told(a, b)
    requires |first| == |second| == 1 && |third| <= 1
    requires first[0].m.key == a && b !in first[0].peers && a !in first[0].peers
    requires second[0] == Change(true, Membership(b, carbon, session), second[0].peers) && a in second[0].peers
    requires third != [] ==> !Published(third[0])
    ensures Rows(sight, first + (second + third), carbon, session, a, b) == 1
  {
    RowsPlus(sight, second, third, carbon, session, a, b);
    RowsPlus(sight, first, second + third, carbon, session, a, b);
    assert first[..0] == [] && second[..0] == [] && (third != [] ==> third[..0] == []);
  }

  // ----- the service

  class SessionTable {
    var sessions: Sessions
    ghost var announced: seq<Change>

    constructor ()
      ensures sessions == map[] && announced == []
    {
      sessions, announced := map[], [];
    }

    method SetGameSession(connection: string, key: string, game: string, session: string)
        returns (left: Option<Change>, entered: Option<Change>)
      modifies this
      ensures var r := Set(old(sessions), connection, Desired(key, game, session));
              && sessions == r.sessions && announced == old(announced) + r.changes
              && r.changes == Listed(left) + Listed(entered)
      ensures left.Some? ==> !left.value.entered
      ensures entered.Some? ==> entered.value.entered
    {
      left, entered := None, None;
      if connection == "" {
        return;
      }
      var desired := Desired(key, game, session);
      var previous := if connection in sessions then Some(sessions[connection]) else None;
      if previous == desired {
        return;
      }
      if previous.Some? {
        var m := previous.value;
        var peers := Peers(sessions, m);
        sessions := sessions - {connection};
        if !Member(sessions, m) {
          left := Some(Change(false, m, peers));
        }
      }
      if desired.Some? {
        var m := desired.value;
        var wasMember := Member(sessions, m);
        sessions := sessions[connection := m];
        if !wasMember {
          entered := Some(Change(true, m, Peers(sessions, m)));
        }
      }
      announced := announced + (Listed(left) + Listed(entered));
    }

    /** Asking for no session, whoever the connection was. */
    method ClearGameSession(connection: string) returns (left: Option<Change>)
      modifies this
      ensures var r := Set(old(sessions), connection, None);
              sessions == r.sessions && announced == old(announced) + r.changes && r.changes == Listed(left)
    {
      var previous := if connection in sessions then Some(sessions[connection]) else None;
      var key := if previous.Some? then previous.value.key else "";
      var game := if previous.Some? then previous.value.game else "";
      var entered;
      left, entered := SetGameSession(connection, key, game, "");
      ghost var changes := Set(old(sessions), connection, None).changes;
      assert entered.Some? ==> changes[|changes| - 1] == entered.value;
    }
  }

  function Listed(c: Option<Change>): seq<Change> {
    if c.Some? then [c.value] else []
  }
}
