/** What every run of lease transactions keeps, and exactly when a claim displaces or is refused. */
module LeaseRuns {
  import opened Options
  import opened SessionLeases

  lemma ClaimStaysValid(t: Tables, r: Registry, c: Claim)
    requires Valid(t)
    ensures Valid(t.(leases := AfterClaim(t, r, c).0))
  {
    if c.connection != "" && c.persona in t.personas && t.personas[c.persona] == c.account {
      var pruned := Pruned(t.leases, c.now);
      FewerLeasesValid(t, pruned);
      if PolicyReason(t, c.account).None? {
        var first := DiscardDead(pruned, AtAccount(pruned, c.account), c.dead);
        FewerLeasesValid(t, first);
        var owner := AtPersona(first, c.persona);
        var second := DiscardDead(first, owner, c.dead);
        FewerLeasesValid(t, second);
        var third := WithoutConnection(second, c.connection);
        FewerLeasesValid(t, third);
        OneLeaseChanged(t.(leases := third), c.account, NewLease(r, third, c));
      }
    }
  }

  lemma TouchStaysValid(t: Tables, r: Registry, connection: string, now: real)
    requires Valid(t)
    ensures Valid(t.(leases := AfterTouch(t, r, connection, now).0))
  {
    var pruned := Pruned(t.leases, now);
    FewerLeasesValid(t, pruned);
    var at := AtConnection(pruned, r, connection);
    if connection != "" && at.Some? {
      assert Proper(t, at.value);
      OneLeaseChanged(t.(leases := pruned), at.value, Renewed(pruned[at.value], r, now));
    }
  }

  lemma SwitchStaysValid(t: Tables, r: Registry, connection: string, wanted: Option<nat>, now: real)
    requires Valid(t)
    ensures Valid(t.(leases := AfterSwitch(t, r, connection, wanted, now).0))
  {
    var pruned := Pruned(t.leases, now);
    FewerLeasesValid(t, pruned);
    var at := AtConnection(pruned, r, connection);
    if connection != "" && wanted.Some? && at.Some? {
      var a := at.value;
      assert Proper(t, a);
      if wanted.value in t.personas && t.personas[wanted.value] == a {
        OneLeaseChanged(t.(leases := pruned), a, Renewed(pruned[a], r, now).(persona := wanted.value));
      }
    }
  }

  lemma AccountStaysValid(t: Tables, s: Step)
    requires Valid(t) && (s.SetEnabled? || s.SetBanned?)
    ensures Valid(After(t, s))
  {
    var u := After(t, s);
    forall a | a in u.leases ensures Proper(u, a) {
      assert Proper(t, a);
    }
  }

  lemma PolicyStaysValid(t: Tables, s: Step)
    requires Valid(t) && (s.SetEmailBlocked? || s.AddPersona? || s.DeletePersona?)
    ensures Valid(After(t, s))
  {
    var u := After(t, s);
    forall a | a in u.leases ensures Proper(u, a) {
      assert Proper(t, a);
    }
  }

  lemma ProfileStaysValid(t: Tables, s: Step)
    requires Valid(t) && (s.CreateAccount? || s.ReplaceAccount? || s.CompleteProfile?)
    ensures Valid(After(t, s))
  {
    var u := After(t, s);
    forall a | a in u.leases ensures Proper(u, a) {
      assert Proper(t, a);
    }
  }

  /** Every transaction of every process keeps the table valid. */
  lemma StaysValid(t: Tables, s: Step)
    requires Valid(t)
    ensures Valid(After(t, s))
  {
    match s
    case ClaimSession(r, c) => ClaimStaysValid(t, r, c);
    case Touch(r, connection, now) => TouchStaysValid(t, r, connection, now);
    case SwitchPersona(r, connection, wanted, now) => SwitchStaysValid(t, r, connection, wanted, now);
    case Release(r, connection) => FewerLeasesValid(t, AfterRelease(t.leases, r, connection));
    case ReleaseAll(r) => FewerLeasesValid(t, WithoutServer(t.leases, r.server));
    case Look(now) => FewerLeasesValid(t, Pruned(t.leases, now));
    case Kick(account) => FewerLeasesValid(t, t.leases - {account});
    case SetEnabled(_, _) => AccountStaysValid(t, s);
    case SetBanned(_, _) => AccountStaysValid(t, s);
    case CreateAccount(_, _, _) => ProfileStaysValid(t, s);
    case ReplaceAccount(_, _, _, _) => ProfileStaysValid(t, s);
    case CompleteProfile(_, _) => ProfileStaysValid(t, s);
    case _ => PolicyStaysValid(t, s);
  }

  ghost function Run(t: Tables, steps: seq<Step>): Tables
    decreases |steps|
  {
    if steps == [] then t else Run(After(t, steps[0]), steps[1..])
  }

  /**
   Over any interleaving: one lease an account, a persona and a connection at most, each
   with a persona of its account, and none for an unknown, banned or disabled account.
   */
  lemma {:induction false} RunStaysValid(t: Tables, steps: seq<Step>)
    requires Valid(t)
    ensures Valid(Run(t, steps))
    ensures forall a :: a in Run(t, steps).leases ==> InGoodStanding(Run(t, steps), a)
    ensures forall a, b :: a in Run(t, steps).leases && b in Run(t, steps).leases && a != b ==>
      Run(t, steps).leases[a].persona != Run(t, steps).leases[b].persona
      && Run(t, steps).leases[a].connection != Run(t, steps).leases[b].connection
    decreases |steps|
  {
    if steps == [] {
      assert forall a :: a in t.leases ==> Proper(t, a);
      forall a, b | a in t.leases && b in t.leases && a != b
        ensures t.leases[a].persona != t.leases[b].persona && t.leases[a].connection != t.leases[b].connection
      {
        assert Proper(t, a) && Proper(t, b);
      }
    } else {
      StaysValid(t, steps[0]);
      RunStaysValid(After(t, steps[0]), steps[1..]);
    }
  }

  // ----- blocked addresses

  /** No leased account has a blocked address. */
  ghost predicate EmailsClear(t: Tables) {
    forall a :: a in t.leases ==> !EmailBlocked(t, a)
  }

  /** A step that gives an account a blocked address and lets it keep its lease. */
  ghost predicate GivesBlockedEmail(t: Tables, s: Step) {
    match s
    case CompleteProfile(account, email) =>
      FillsEmail(t, account, email) && account in t.leases && email in t.blockedEmails
    case ReplaceAccount(account, email, keep, _) =>
      && account in t.accounts && !EmailTaken(t, account, email)
      && account in t.leases && t.leases[account].persona in keep
      && email != "" && email in t.blockedEmails
    case _ => false
  }

  lemma ClaimKeepsEmailsClear(t: Tables, r: Registry, c: Claim)
    requires EmailsClear(t)
    ensures EmailsClear(t.(leases := AfterClaim(t, r, c).0))
  {
    var u := t.(leases := AfterClaim(t, r, c).0);
    forall a | a in u.leases ensures !EmailBlocked(u, a) {
      assert EmailBlocked(u, a) == EmailBlocked(t, a);
      if a !in t.leases {
        assert a == c.account && PolicyReason(t, a).None?;
      }
    }
  }

  /** Fewer leases, renewed or not, hold no account that was not there. */
  lemma FewerKeepEmailsClear(t: Tables, leases: map<nat, Lease>)
    requires EmailsClear(t) && leases.Keys <= t.leases.Keys
    ensures EmailsClear(t.(leases := leases))
  {
    forall a | a in leases ensures !EmailBlocked(t.(leases := leases), a) {
      assert a in t.leases && EmailBlocked(t.(leases := leases), a) == EmailBlocked(t, a);
    }
  }

  lemma LeaseStepKeepsEmailsClear(t: Tables, s: Step)
    requires EmailsClear(t)
    requires s.Touch? || s.SwitchPersona? || s.Release? || s.ReleaseAll? || s.Look? || s.Kick?
    ensures EmailsClear(After(t, s))
  {
    FewerKeepEmailsClear(t, After(t, s).leases);
  }

  lemma AccountStepKeepsEmailsClear(t: Tables, s: Step)
    requires Valid(t) && EmailsClear(t)
    requires s.SetEnabled? || s.SetBanned? || s.SetEmailBlocked? || s.CreateAccount? || s.AddPersona?
      || s.DeletePersona?
    ensures EmailsClear(After(t, s))
  {
    var u := After(t, s);
    forall a | a in u.leases ensures !EmailBlocked(u, a) {
      assert a in t.leases && Proper(t, a);
    }
  }

  /** From clear addresses, a step leaves them clear if and only if it does not give a leased account a blocked one. */
  lemma EmailsStayClearIff(t: Tables, s: Step)
    requires Valid(t) && EmailsClear(t)
    ensures EmailsClear(After(t, s)) <==> !GivesBlockedEmail(t, s)
  {
    if s.ClaimSession? {
      ClaimKeepsEmailsClear(t, s.registry, s.claim);
    } else if s.CompleteProfile? {
      ProfileEmails(t, s);
    } else if s.ReplaceAccount? {
      ReplacedEmails(t, s);
    } else if s.Touch? || s.SwitchPersona? || s.Release? || s.ReleaseAll? || s.Look? || s.Kick? {
      LeaseStepKeepsEmailsClear(t, s);
    } else {
      AccountStepKeepsEmailsClear(t, s);
    }
  }

  lemma ProfileEmails(t: Tables, s: Step)
    requires Valid(t) && EmailsClear(t) && s.CompleteProfile?
    ensures EmailsClear(After(t, s)) <==> !GivesBlockedEmail(t, s)
  {
    var u := After(t, s);
    assert forall a :: a != s.account ==> EmailBlocked(u, a) == EmailBlocked(t, a);
    assert FillsEmail(t, s.account, s.email) ==> (EmailBlocked(u, s.account) <==> s.email in t.blockedEmails);
  }

  lemma ReplacedEmails(t: Tables, s: Step)
    requires Valid(t) && EmailsClear(t) && s.ReplaceAccount?
    ensures EmailsClear(After(t, s)) <==> !GivesBlockedEmail(t, s)
  {
    var u := After(t, s);
    assert forall a :: a != s.account ==> EmailBlocked(u, a) == EmailBlocked(t, a);
    if s.account in t.leases {
      assert Proper(t, s.account);
    }
    if s.account in t.accounts && !EmailTaken(t, s.account, s.email) {
      assert EmailBlocked(u, s.account) <==> s.email != "" && s.email in t.blockedEmails;
      assert s.account in u.leases <==> s.account in t.leases && t.leases[s.account].persona in s.keep;
    }
  }

  /** Addresses are clear at every moment of a run. */
  ghost predicate AlwaysClear(t: Tables, steps: seq<Step>)
    decreases |steps|
  {
    EmailsClear(t) && (steps != [] ==> AlwaysClear(After(t, steps[0]), steps[1..]))
  }

  ghost predicate NeverGivesBlocked(t: Tables, steps: seq<Step>)
    decreases |steps|
  {
    steps != [] ==> !GivesBlockedEmail(t, steps[0]) && NeverGivesBlocked(After(t, steps[0]), steps[1..])
  }

  /**
   No email-blocked account ever holds a lease if and only if no step of the run gives a leased
   account a blocked address.
   */
  lemma {:induction false} AlwaysClearIff(t: Tables, steps: seq<Step>)
    requires Valid(t) && EmailsClear(t)
    ensures AlwaysClear(t, steps) <==> NeverGivesBlocked(t, steps)
    decreases |steps|
  {
    if steps != [] {
      EmailsStayClearIff(t, steps[0]);
      StaysValid(t, steps[0]);
      if EmailsClear(After(t, steps[0])) {
        AlwaysClearIff(After(t, steps[0]), steps[1..]);
      }
    }
  }

  /** From empty tables: an account claims a lease and then fills in an address that was blocked before. */
  function LateAddress(email: string, r: Registry, connection: string, now: real): seq<Step> {
    [CreateAccount(1, "", {1}), SetEmailBlocked(email, true),
     ClaimSession(r, Claim(connection, 1, 1, false, now, {})), CompleteProfile(1, email)]
  }

  /** After that run the account holds a live lease with a blocked address, and its next heartbeat fails. */
  lemma LateAddressIsBlocked(email: string, r: Registry, connection: string, now: real)
    requires email != "" && '@' in email && connection != "" && r.leaseSeconds > 0.0
    ensures var t := Run(Tables(map[], map[], {}, map[]), LateAddress(email, r, connection, now));
      && Valid(t) && 1 in t.leases && t.leases[1].expiresAt > now && EmailBlocked(t, 1)
      && !AfterTouch(t, r, connection, now).1
  {
    var steps := LateAddress(email, r, connection, now);
    var t0 := Tables(map[], map[], {}, map[]);
    var t2 := After(After(t0, steps[0]), steps[1]);
    BlockedBefore(email);
    var t3 := After(t2, steps[2]);
    ClaimedThen(t2, email, r, steps[2].claim);
    var t4 := After(t3, steps[3]);
    FourSteps(t0, steps[0], steps[1], steps[2], steps[3]);
    RunStaysValid(t0, steps);
    FilledIn(t3, email);
    TouchAnswer(t4, r, connection, now);
  }

  lemma BlockedBefore(email: string)
    requires email != "" && '@' in email
    ensures After(After(Tables(map[], map[], {}, map[]), CreateAccount(1, "", {1})), SetEmailBlocked(email, true))
         == Tables(map[1 := Account(true, false, "")], map[1 := 1], {email}, map[])
  {
    var t := After(Tables(map[], map[], {}, map[]), CreateAccount(1, "", {1}));
    assert t.personas == map[1 := 1] && t.accounts == map[1 := Account(true, false, "")];
  }

  lemma ClaimedThen(t: Tables, email: string, r: Registry, c: Claim)
    requires t == Tables(map[1 := Account(true, false, "")], map[1 := 1], {email}, map[])
    requires email != "" && c == Claim(c.connection, 1, 1, false, c.now, {}) && c.connection != ""
      && r.leaseSeconds > 0.0
    ensures var u := After(t, ClaimSession(r, c));
      && u.accounts == t.accounts && u.blockedEmails == t.blockedEmails
      && u.leases.Keys == {1} && u.leases[1].expiresAt > c.now && u.leases[1].connection == c.connection
  {
    ClaimAnswer(t, r, c);
    GrantedClaim(t, r, c);
  }

  lemma FilledIn(t: Tables, email: string)
    requires t.accounts == map[1 := Account(true, false, "")] && t.blockedEmails == {email} && email != ""
    ensures After(t, CompleteProfile(1, email)) == t.(accounts := map[1 := Account(true, false, email)])
  {
    assert FillsEmail(t, 1, email);
  }

  lemma FourSteps(t: Tables, a: Step, b: Step, c: Step, d: Step)
    ensures Run(t, [a, b, c, d]) == After(After(After(After(t, a), b), c), d)
  {
    var (x, y, z) := (After(t, a), After(After(t, a), b), After(After(After(t, a), b), c));
    assert [a, b, c, d][1..] == [b, c, d] && [b, c, d][1..] == [c, d] && [c, d][1..] == [d] && [d][1..] == [];
    assert Run(z, [d]) == After(z, d);
    assert Run(y, [c, d]) == Run(z, [d]);
    assert Run(x, [b, c, d]) == Run(y, [c, d]);
  }

  // ----- claims

  /** The lease of another connection that is neither expired nor of an owner known to be dead. */
  predicate LiveElsewhere(t: Tables, c: Claim, a: nat) {
    && a in t.leases && t.leases[a].connection != c.connection
    && t.leases[a].expiresAt > c.now && t.leases[a].server !in c.dead
  }

  predicate Admissible(t: Tables, c: Claim) {
    && c.connection != "" && c.persona in t.personas && t.personas[c.persona] == c.account
    && PolicyReason(t, c.account).None?
  }

  lemma PersonaOwnerIsTheAccount(t: Tables, leases: map<nat, Lease>, c: Claim)
    requires Valid(t) && Admissible(t, c)
    requires forall a :: a in leases ==> a in t.leases && leases[a] == t.leases[a]
    ensures AtPersona(leases, c.persona).Some? ==> AtPersona(leases, c.persona).value == c.account
  {
    var at := AtPersona(leases, c.persona);
    if at.Some? {
      assert Proper(t, at.value);
    }
  }

  /**
   The answer to a claim, exactly: `account_in_use` if and only if the account has a live
   lease elsewhere that is not replaced in the same game; `persona_in_use` never.
   */
  lemma ClaimAnswer(t: Tables, r: Registry, c: Claim)
    requires Valid(t)
    ensures AfterClaim(t, r, c).1 != Some(PersonaInUse)
    ensures AfterClaim(t, r, c).1 == Some(AccountInUse) <==>
      Admissible(t, c) && LiveElsewhere(t, c, c.account)
      && !(c.replaceSameGame && t.leases[c.account].game == r.game)
    ensures AfterClaim(t, r, c).1.None? <==>
      Admissible(t, c) && (LiveElsewhere(t, c, c.account) ==> c.replaceSameGame && t.leases[c.account].game == r.game)
  {
    if Admissible(t, c) {
      var pruned := Pruned(t.leases, c.now);
      var first := DiscardDead(pruned, AtAccount(pruned, c.account), c.dead);
      assert c.account in first <==>
        c.account in t.leases && t.leases[c.account].expiresAt > c.now && t.leases[c.account].server !in c.dead;
      PersonaOwnerIsTheAccount(t, first, c);
    }
  }

  /** A granted claim leaves exactly the claimed lease at its account, on the claiming connection. */
  lemma GrantedClaim(t: Tables, r: Registry, c: Claim)
    requires Valid(t) && AfterClaim(t, r, c).1.None?
    ensures var after := AfterClaim(t, r, c).0;
      && c.account in after
      && after[c.account].persona == c.persona && after[c.account].connection == c.connection
      && after[c.account].game == r.game && after[c.account].server == r.server
      && after[c.account].expiresAt == c.now + r.leaseSeconds
  {
  }

  /**
   A live lease of another connection is displaced by a claim if and only if the claim is
   granted for that lease's account; and then it was a same-game replacement.
   */
  lemma Displacement(t: Tables, r: Registry, c: Claim, a: nat)
    requires Valid(t) && LiveElsewhere(t, c, a)
    ensures var (after, refusal) := AfterClaim(t, r, c);
      && (!(a in after && after[a] == t.leases[a]) <==> refusal.None? && a == c.account)
      && (refusal.None? && a == c.account ==> c.replaceSameGame && t.leases[a].game == r.game)
  {
    ClaimAnswer(t, r, c);
    if Admissible(t, c) {
      var pruned := Pruned(t.leases, c.now);
      var first := DiscardDead(pruned, AtAccount(pruned, c.account), c.dead);
      assert a in first && first[a] == t.leases[a];
      PersonaOwnerIsTheAccount(t, first, c);
    }
  }

  /** A switch never meets a persona that another connection holds. */
  lemma SwitchAnswer(t: Tables, r: Registry, connection: string, wanted: Option<nat>, now: real)
    requires Valid(t)
    ensures AfterSwitch(t, r, connection, wanted, now).1 != Some(PersonaInUse)
  {
    var pruned := Pruned(t.leases, now);
    var at := AtConnection(pruned, r, connection);
    if connection != "" && wanted.Some? && at.Some? {
      var owner := AtPersona(pruned, wanted.value);
      if owner.Some? {
        assert Proper(t, owner.value);
      }
    }
  }

  /** The unexpired lease of this registry that a heartbeat is about. */
  predicate HeldHere(t: Tables, r: Registry, connection: string, now: real, a: nat) {
    && a in t.leases && t.leases[a].connection == connection && t.leases[a].server == r.server
    && t.leases[a].expiresAt > now
  }

  /**
   A heartbeat succeeds exactly for an unexpired lease of this registry whose account the
   policy allows; in a valid table that fails only for a blocked address.
   */
  lemma TouchAnswer(t: Tables, r: Registry, connection: string, now: real)
    requires Valid(t)
    ensures AfterTouch(t, r, connection, now).1 <==>
      exists a :: HeldHere(t, r, connection, now, a) && PolicyReason(t, a).None?
    ensures forall a :: a in t.leases ==> (PolicyReason(t, a).None? <==> !EmailBlocked(t, a))
  {
    var pruned := Pruned(t.leases, now);
    forall a | a in t.leases ensures PolicyReason(t, a).None? <==> !EmailBlocked(t, a) {
      assert Proper(t, a);
    }
    if a :| HeldHere(t, r, connection, now, a) && PolicyReason(t, a).None? {
      assert a in pruned && Proper(t, a);
    }
    var at := AtConnection(pruned, r, connection);
    if at.Some? {
      assert Proper(t, at.value) && HeldHere(t, r, connection, now, at.value);
    }
  }

  /** In a valid table a granted claim meets no unique key of another row. */
  lemma ClaimMeetsNoConflict(t: Tables, r: Registry, c: Claim, b: nat)
    requires Valid(t) && AfterClaim(t, r, c).1.None?
    requires b in AfterClaim(t, r, c).0 && b != c.account
    ensures AfterClaim(t, r, c).0[b].persona != c.persona && AfterClaim(t, r, c).0[b].connection != c.connection
  {
    assert b in t.leases && AfterClaim(t, r, c).0[b] == t.leases[b];
    assert Proper(t, b);
  }
}
