/**
 What each transaction leaves in the lease table, in terms of the rows that were there
 (server/common/accounts.py).
 */
module LeaseEffects {
  import opened Options
  import opened SessionLeases
  import opened LeaseRuns

  /** The lease of `b` is still there, unless it has expired, and nothing new is. */
  ghost predicate Kept(t: Tables, after: map<nat, Lease>, now: real, b: nat) {
    && (b in after <==> b in t.leases && t.leases[b].expiresAt > now)
    && (b in after ==> after[b] == t.leases[b])
  }

  ghost predicate OnlyExpiredGone(t: Tables, after: map<nat, Lease>, now: real) {
    forall b: nat :: Kept(t, after, now, b)
  }

  ghost predicate OthersKept(t: Tables, after: map<nat, Lease>, now: real, a: nat) {
    forall b: nat :: b != a ==> Kept(t, after, now, b)
  }

  /** The address of the account is on the list of blocked ones. */
  predicate BlockedAddress(t: Tables, a: nat) {
    a in t.accounts && t.accounts[a].email != "" && t.accounts[a].email in t.blockedEmails
  }

  lemma HolderIs(t: Tables, r: Registry, connection: string, now: real, a: nat)
    requires Valid(t) && HeldHere(t, r, connection, now, a)
    ensures AtConnection(Pruned(t.leases, now), r, connection) == Some(a)
    ensures PolicyReason(t, a) == if BlockedAddress(t, a) then Some(Banned) else None
  {
    assert a in Pruned(t.leases, now) && Proper(t, a);
  }

  lemma NoHolder(t: Tables, r: Registry, connection: string, now: real)
    requires forall a :: !HeldHere(t, r, connection, now, a)
    ensures AtConnection(Pruned(t.leases, now), r, connection) == None
  {
    var at := AtConnection(Pruned(t.leases, now), r, connection);
    if at.Some? {
      assert HeldHere(t, r, connection, now, at.value);
    }
  }

  // ----- switching the persona

  /** What a switch does that finds the lease of account `a` on its connection. */
  ghost predicate Switched(t: Tables, r: Registry, a: nat, wanted: nat, now: real, after: map<nat, Lease>,
      refusal: Option<Refusal>)
    requires a in t.leases
  {
    && OthersKept(t, after, now, a)
    && if BlockedAddress(t, a) then refusal == Some(Banned) && a !in after
       else if wanted !in t.personas || t.personas[wanted] != a then
         refusal == Some(PersonaNotOwned) && a in after && after[a] == t.leases[a]
       else
         && refusal == None && a in after
         && after[a].persona == wanted && after[a].heartbeatAt == now && after[a].expiresAt == now + r.leaseSeconds
         && after[a].game == t.leases[a].game && after[a].connection == t.leases[a].connection
         && after[a].server == t.leases[a].server && after[a].connectedAt == t.leases[a].connectedAt
  }

  /**
   Every switch: without connection or name it is invalid; without an unexpired lease of its
   connection and server it is not authenticated; otherwise it is refused for a blocked address,
   which ends the lease, or for a persona of somebody else, and else granted.
   */
  lemma SwitchEffect(t: Tables, r: Registry, connection: string, wanted: Option<nat>, now: real)
    requires Valid(t)
    ensures var (after, refusal) := AfterSwitch(t, r, connection, wanted, now);
      if connection == "" || wanted.None? then refusal == Some(InvalidClaim) && after == t.leases
      else
        && ((forall a :: !HeldHere(t, r, connection, now, a)) ==>
              refusal == Some(NotAuthenticated) && OnlyExpiredGone(t, after, now))
        && forall a :: HeldHere(t, r, connection, now, a) ==> Switched(t, r, a, wanted.value, now, after, refusal)
  {
    var (after, refusal) := AfterSwitch(t, r, connection, wanted, now);
    if connection != "" && wanted.Some? {
      if forall a :: !HeldHere(t, r, connection, now, a) {
        NoHolder(t, r, connection, now);
      }
      forall a | HeldHere(t, r, connection, now, a) ensures Switched(t, r, a, wanted.value, now, after, refusal) {
        SwitchOf(t, r, connection, wanted.value, now, a);
      }
    }
  }

  lemma SwitchOf(t: Tables, r: Registry, connection: string, wanted: nat, now: real, a: nat)
    requires Valid(t) && connection != "" && HeldHere(t, r, connection, now, a)
    ensures var (after, refusal) := AfterSwitch(t, r, connection, Some(wanted), now);
      Switched(t, r, a, wanted, now, after, refusal)
  {
    HolderIs(t, r, connection, now, a);
    SwitchAnswer(t, r, connection, Some(wanted), now);
  }

  // ----- heartbeats

  /** A heartbeat moves the expiry of the lease on its connection, or ends it for a blocked address. */
  ghost predicate Touched(t: Tables, r: Registry, a: nat, now: real, after: map<nat, Lease>, alive: bool)
    requires a in t.leases
  {
    && OthersKept(t, after, now, a)
    && (alive <==> !BlockedAddress(t, a))
    && (alive <==> a in after)
    && (alive ==>
          && after[a].heartbeatAt == now && after[a].expiresAt == now + r.leaseSeconds
          && after[a].persona == t.leases[a].persona && after[a].game == t.leases[a].game
          && after[a].connection == t.leases[a].connection && after[a].server == t.leases[a].server
          && after[a].connectedAt == t.leases[a].connectedAt)
  }

  lemma TouchEffect(t: Tables, r: Registry, connection: string, now: real)
    requires Valid(t)
    ensures var (after, alive) := AfterTouch(t, r, connection, now);
      if connection == "" then !alive && after == t.leases
      else
        && ((forall a :: !HeldHere(t, r, connection, now, a)) ==> !alive && OnlyExpiredGone(t, after, now))
        && forall a :: HeldHere(t, r, connection, now, a) ==> Touched(t, r, a, now, after, alive)
  {
    var (after, alive) := AfterTouch(t, r, connection, now);
    if connection != "" {
      if forall a :: !HeldHere(t, r, connection, now, a) {
        NoHolder(t, r, connection, now);
      }
      forall a | HeldHere(t, r, connection, now, a) ensures Touched(t, r, a, now, after, alive) {
        HolderIs(t, r, connection, now, a);
      }
    }
  }

  // ----- claims

  /** The account's own unexpired lease belongs to a process that died; all leases of that process go with it. */
  predicate OfDeadOwner(t: Tables, c: Claim, b: nat) {
    && c.account in t.leases && t.leases[c.account].expiresAt > c.now && t.leases[c.account].server in c.dead
    && b in t.leases && t.leases[b].server == t.leases[c.account].server
  }

  /** What a granted claim leaves of another account's lease. */
  ghost predicate OtherAfterClaim(t: Tables, c: Claim, after: map<nat, Lease>, b: nat) {
    && (b in after <==> b in t.leases && t.leases[b].expiresAt > c.now && t.leases[b].connection != c.connection
                        && !OfDeadOwner(t, c, b))
    && (b in after ==> after[b] == t.leases[b])
  }

  /**
   A granted claim writes its lease, which keeps the time of the first connection only of a lease
   that it replaces.
   */
  lemma GrantedClaimEffect(t: Tables, r: Registry, c: Claim)
    requires Valid(t) && AfterClaim(t, r, c).1.None?
    ensures var after := AfterClaim(t, r, c).0;
      && c.account in after
      && after[c.account] == Lease(
           c.persona, r.game, c.connection, r.server,
           if LiveElsewhere(t, c, c.account) then t.leases[c.account].connectedAt else c.now,
           c.now, c.now + r.leaseSeconds)
      && forall b: nat :: b != c.account ==> OtherAfterClaim(t, c, after, b)
  {
    ClaimAnswer(t, r, c);
    var pruned := Pruned(t.leases, c.now);
    var first := DiscardDead(pruned, AtAccount(pruned, c.account), c.dead);
    PersonaOwnerIsTheAccount(t, first, c);
    assert DiscardDead(first, AtPersona(first, c.persona), c.dead) == first;
    assert forall b: nat :: b in first <==> b in t.leases && t.leases[b].expiresAt > c.now && !OfDeadOwner(t, c, b);
  }

  /** The refusal of a claim by an account that may not log in. */
  function StandingRefusal(account: Account, blocked: bool): Option<Refusal> {
    if account.banned || (account.enabled && blocked) then Some(Banned)
    else if !account.enabled then Some(Disabled) else None
  }

  /** A refused claim: what it is told, and that nothing but expired leases goes. */
  lemma RefusedClaimEffect(t: Tables, r: Registry, c: Claim)
    requires Valid(t) && AfterClaim(t, r, c).1.Some?
    ensures var (after, refusal) := AfterClaim(t, r, c);
      if c.connection == "" || c.persona !in t.personas || t.personas[c.persona] != c.account then
        refusal == Some(InvalidClaim) && after == t.leases
      else
        && OnlyExpiredGone(t, after, c.now)
        && if c.account !in t.accounts then refusal == Some(InvalidClaim)
           else
             var standing := StandingRefusal(t.accounts[c.account], BlockedAddress(t, c.account));
             refusal == if standing.Some? then standing else Some(AccountInUse)
  {
    ClaimAnswer(t, r, c);
    assert PolicyReason(t, c.account) == if c.account !in t.accounts then Some(InvalidClaim)
      else StandingRefusal(t.accounts[c.account], BlockedAddress(t, c.account));
    if Admissible(t, c) {
      var pruned := Pruned(t.leases, c.now);
      assert DiscardDead(pruned, AtAccount(pruned, c.account), c.dead) == pruned;
    }
  }

  // ----- all other steps

  /** The steps that end the lease of `b`, apart from claims, heartbeats and switches. */
  ghost predicate Ends(t: Tables, s: Step, b: nat)
    requires Valid(t) && b in t.leases
  {
    match s
    case Release(r, connection) => t.leases[b].connection == connection && t.leases[b].server == r.server
    case ReleaseAll(r) => t.leases[b].server == r.server
    case Look(now) => t.leases[b].expiresAt <= now
    case SetEnabled(account, enabled) => account == b && !enabled
    case SetBanned(account, banned) => account == b && banned
    case Kick(account) => account == b
    case SetEmailBlocked(email, blocked) =>
      assert Proper(t, b);
      blocked && '@' in email && t.accounts[b].email == email
    case ReplaceAccount(account, email, keep, _) =>
      account == b && !EmailTaken(t, account, email) && t.leases[b].persona !in keep
    case DeletePersona(persona) => t.leases[b].persona == persona
    case _ => false
  }

  /** Every other step ends exactly these leases, changes none and makes none. */
  lemma LeaseEndsIff(t: Tables, s: Step)
    requires Valid(t) && !s.ClaimSession? && !s.Touch? && !s.SwitchPersona?
    ensures var after := After(t, s).leases;
      && after.Keys <= t.leases.Keys
      && forall b :: b in t.leases ==>
           if Ends(t, s, b) then b !in after else b in after && after[b] == t.leases[b]
  {
    forall b | b in t.leases
      ensures Proper(t, b)
    {
    }
  }

  /** Exactly the steps that change what decides whether a known account may log in. */
  lemma StandingAfter(t: Tables, s: Step, b: nat)
    requires b in t.accounts
    ensures b in After(t, s).accounts
    ensures var (before, after) := (t.accounts[b], After(t, s).accounts[b]);
      && after.banned == (if s.SetBanned? && s.account == b then s.banned else before.banned)
      && after.enabled == (if s.SetEnabled? && s.account == b then s.enabled
                          else before.enabled || (s.ReplaceAccount? && s.account == b && !EmailTaken(t, b, s.email)))
      && after.email == if s.ReplaceAccount? && s.account == b && !EmailTaken(t, b, s.email) then s.email
                       else if s.CompleteProfile? && s.account == b && FillsEmail(t, b, s.email) then s.email
                         else before.email
    ensures After(t, s).blockedEmails ==
      if !s.SetEmailBlocked? || '@' !in s.email then t.blockedEmails
      else if s.blocked then t.blockedEmails + {s.email} else t.blockedEmails - {s.email}
  {
  }
}
