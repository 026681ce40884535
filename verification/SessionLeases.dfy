/**
 The session lease table that several server processes share (server/common/accounts.py).
 Every transaction is one step; the registry that runs it and the clock are part of the step.
 */
module SessionLeases {
  import opened Options

  datatype Account = Account(enabled: bool, banned: bool, email: string)

  datatype Lease = Lease(
    persona: nat, game: string, connection: string, server: string,
    connectedAt: real, heartbeatAt: real, expiresAt: real)

  /** `leases` is keyed by the account, the primary key of the table. */
  datatype Tables = Tables(
    accounts: map<nat, Account>, personas: map<nat, nat>, blockedEmails: set<string>, leases: map<nat, Lease>)

  datatype Registry = Registry(game: string, server: string, leaseSeconds: real)

  datatype Refusal =
    | InvalidClaim | Banned | Disabled | AccountInUse | PersonaInUse | NotAuthenticated | PersonaNotOwned

  function Pruned(leases: map<nat, Lease>, now: real): map<nat, Lease> {
    map a | a in leases && leases[a].expiresAt > now :: leases[a]
  }

  function WithoutServer(leases: map<nat, Lease>, server: string): map<nat, Lease> {
    map a | a in leases && leases[a].server != server :: leases[a]
  }

  function WithoutConnection(leases: map<nat, Lease>, connection: string): map<nat, Lease> {
    map a | a in leases && leases[a].connection != connection :: leases[a]
  }

  function PolicyReason(t: Tables, account: nat): Option<Refusal> {
    if account !in t.accounts then Some(InvalidClaim)
    else if t.accounts[account].banned then Some(Banned)
    else if !t.accounts[account].enabled then Some(Disabled)
    else if EmailBlocked(t, account) then Some(Banned)
    else None
  }

  predicate EmailBlocked(t: Tables, account: nat) {
    account in t.accounts && t.accounts[account].email != "" && t.accounts[account].email in t.blockedEmails
  }

  /** The leases left after the lease of a dead owner, and all others of that owner, are discarded. */
  function DiscardDead(leases: map<nat, Lease>, at: Option<nat>, dead: set<string>): map<nat, Lease>
    requires at.Some? ==> at.value in leases
  {
    if at.Some? && leases[at.value].server in dead then WithoutServer(leases, leases[at.value].server) else leases
  }

  function AtAccount(leases: map<nat, Lease>, account: nat): (at: Option<nat>)
    ensures at.Some? ==> at.value in leases
  {
    if account in leases then Some(account) else None
  }

  /** The account whose lease holds the persona; the table keeps it unique. */
  ghost function AtPersona(leases: map<nat, Lease>, persona: nat): (at: Option<nat>)
    ensures at.Some? ==> at.value in leases && leases[at.value].persona == persona
    ensures at.None? ==> forall a :: a in leases ==> leases[a].persona != persona
  {
    if a :| a in leases && leases[a].persona == persona then Some(a) else None
  }

  /** What a claim is about. */
  datatype Claim = Claim(connection: string, account: nat, persona: nat, replaceSameGame: bool, now: real,
    dead: set<string>)

  function NewLease(r: Registry, leases: map<nat, Lease>, c: Claim): Lease {
    Lease(c.persona, r.game, c.connection, r.server,
          if c.account in leases then leases[c.account].connectedAt else c.now, c.now, c.now + r.leaseSeconds)
  }

  /** The new leases and the refusal, None when the claim is granted. */
  ghost function AfterClaim(t: Tables, r: Registry, c: Claim): (map<nat, Lease>, Option<Refusal>) {
    if c.connection == "" || c.persona !in t.personas || t.personas[c.persona] != c.account then
      (t.leases, Some(InvalidClaim))
    else
      var pruned := Pruned(t.leases, c.now);
      if PolicyReason(t, c.account).Some? then (pruned, PolicyReason(t, c.account))
      else
        var first := DiscardDead(pruned, AtAccount(pruned, c.account), c.dead);
        if c.account in first && first[c.account].connection != c.connection
           && !(c.replaceSameGame && first[c.account].game == r.game) then (first, Some(AccountInUse))
        else
          var owner := AtPersona(first, c.persona);
          var second := DiscardDead(first, owner, c.dead);
          if owner.Some? && owner.value in second && second[owner.value].connection != c.connection
            && !c.replaceSameGame
          then (second, Some(PersonaInUse))
          else
            var third := WithoutConnection(second, c.connection);
            (third[c.account := NewLease(r, third, c)], None)
  }

  /** The account of the connection's lease in this registry. */
  ghost function AtConnection(leases: map<nat, Lease>, r: Registry, connection: string): (at: Option<nat>)
    ensures at.Some? ==>
      at.value in leases && leases[at.value].connection == connection && leases[at.value].server == r.server
    ensures at.None? ==> forall a :: a in leases ==> leases[a].connection != connection || leases[a].server != r.server
  {
    if a :| a in leases && leases[a].connection == connection && leases[a].server == r.server then Some(a) else None
  }

  function Renewed(l: Lease, r: Registry, now: real): Lease {
    l.(heartbeatAt := now, expiresAt := now + r.leaseSeconds)
  }

  ghost function AfterTouch(t: Tables, r: Registry, connection: string, now: real): (map<nat, Lease>, bool) {
    if connection == "" then (t.leases, false)
    else
      var pruned := Pruned(t.leases, now);
      match AtConnection(pruned, r, connection)
      case None => (pruned, false)
      case Some(a) =>
        if PolicyReason(t, a).Some? then (pruned - {a}, false)
        else (pruned[a := Renewed(pruned[a], r, now)], true)
  }

  /** `persona` is None for a name that the registry does not accept, and otherwise the persona of that name. */
  ghost function AfterSwitch(
      t: Tables, r: Registry, connection: string, persona: Option<nat>, now: real): (map<nat, Lease>, Option<Refusal>)
  {
    if connection == "" || persona.None? then (t.leases, Some(InvalidClaim))
    else
      var pruned := Pruned(t.leases, now);
      match AtConnection(pruned, r, connection)
      case None => (pruned, Some(NotAuthenticated))
      case Some(a) =>
        if PolicyReason(t, a).Some? then (pruned - {a}, PolicyReason(t, a))
        else if persona.value !in t.personas || t.personas[persona.value] != a then (pruned, Some(PersonaNotOwned))
        else
          var owner := AtPersona(pruned, persona.value);
          if owner.Some? && pruned[owner.value].connection != connection then (pruned, Some(PersonaInUse))
          else (pruned[a := Renewed(pruned[a], r, now).(persona := persona.value)], None)
  }

  function AfterRelease(leases: map<nat, Lease>, r: Registry, connection: string): map<nat, Lease> {
    if connection == "" then leases
    else map a | a in leases && !(leases[a].connection == connection && leases[a].server == r.server) :: leases[a]
  }

  /** The unique key of email addresses. */
  ghost predicate EmailTaken(t: Tables, account: nat, email: string) {
    email != "" && exists b :: b in t.accounts && b != account && t.accounts[b].email == email
  }

  /** Whether completing a profile, with the right password, sets the address: it never consults the blocked ones. */
  ghost predicate FillsEmail(t: Tables, account: nat, email: string) {
    && PolicyReason(t, account).None? && email != "" && t.accounts[account].email == ""
    && !EmailTaken(t, account, email)
  }

  /** New personas of an account. */
  function WithPersonas(personas: map<nat, nat>, account: nat, added: set<nat>): map<nat, nat> {
    map p | p in personas.Keys + added :: if p in personas then personas[p] else account
  }

  datatype Step =
    | ClaimSession(registry: Registry, claim: Claim)
    | Touch(registry: Registry, connection: string, now: real)
    | SwitchPersona(registry: Registry, connection: string, wanted: Option<nat>, now: real)
    | Release(registry: Registry, connection: string)
    | ReleaseAll(registry: Registry)
    | Look(now: real)
    | SetEnabled(account: nat, enabled: bool)
    | SetBanned(account: nat, banned: bool)
    | Kick(account: nat)
    | SetEmailBlocked(email: string, blocked: bool)
    | CreateAccount(account: nat, email: string, personas: set<nat>)
    | ReplaceAccount(account: nat, email: string, keep: set<nat>, added: set<nat>)
    | CompleteProfile(account: nat, email: string)
    | AddPersona(persona: nat, account: nat)
    | DeletePersona(persona: nat)

  ghost function After(t: Tables, s: Step): Tables {
    match s
    case ClaimSession(r, c) => t.(leases := AfterClaim(t, r, c).0)
    case Touch(r, connection, now) => t.(leases := AfterTouch(t, r, connection, now).0)
    case SwitchPersona(r, connection, persona, now) => t.(leases := AfterSwitch(t, r, connection, persona, now).0)
    case Release(r, connection) => t.(leases := AfterRelease(t.leases, r, connection))
    case ReleaseAll(r) => t.(leases := WithoutServer(t.leases, r.server))
    case Look(now) => t.(leases := Pruned(t.leases, now))
    case SetEnabled(account, enabled) =>
      if account !in t.accounts then t
      else t.(accounts := t.accounts[account := t.accounts[account].(enabled := enabled)],
              leases := if enabled then t.leases else t.leases - {account})
    case SetBanned(account, banned) =>
      if account !in t.accounts then t
      else t.(accounts := t.accounts[account := t.accounts[account].(banned := banned)],
              leases := if banned then t.leases - {account} else t.leases)
    case Kick(account) => if account !in t.accounts then t else t.(leases := t.leases - {account})
    case SetEmailBlocked(email, blocked) =>
      if email == "" || '@' !in email then t
      else if blocked then
        t.(blockedEmails := t.blockedEmails + {email},
           leases := map a | a in t.leases && !(a in t.accounts && t.accounts[a].email == email) :: t.leases[a])
      else t.(blockedEmails := t.blockedEmails - {email})
    case CreateAccount(account, email, personas) =>
      if account in t.accounts || EmailTaken(t, account, email) then t
      else t.(accounts := t.accounts[account := Account(true, false, email)],
              personas := WithPersonas(t.personas, account, personas))
    case ReplaceAccount(account, email, keep, added) =>
      if account !in t.accounts || EmailTaken(t, account, email) then t
      else
        var kept := map p | p in t.personas && (t.personas[p] == account ==> p in keep) :: t.personas[p];
        t.(accounts := t.accounts[account := t.accounts[account].(enabled := true, email := email)],
           personas := WithPersonas(kept, account, added - t.personas.Keys),
           leases := map a | a in t.leases && t.leases[a].persona in kept :: t.leases[a])
    case CompleteProfile(account, email) =>
      if !FillsEmail(t, account, email) then t
      else t.(accounts := t.accounts[account := t.accounts[account].(email := email)])
    case AddPersona(persona, account) =>
      if persona in t.personas || account !in t.accounts then t else t.(personas := t.personas[persona := account])
    case DeletePersona(persona) =>
      t.(personas := t.personas - {persona},
         leases := map a | a in t.leases && t.leases[a].persona != persona :: t.leases[a])
  }

  // ----- what every run keeps

  /** The account exists, is not banned and is enabled. */
  predicate InGoodStanding(t: Tables, account: nat) {
    account in t.accounts && !t.accounts[account].banned && t.accounts[account].enabled
  }

  /**
   A lease belongs to an account in good standing, with one of that account's personas, on a
   connection of its own.
   */
  ghost predicate Valid(t: Tables) {
    && (forall a :: a in t.leases ==> Proper(t, a))
    && (forall a, b :: a in t.leases && b in t.leases && t.leases[a].connection == t.leases[b].connection ==> a == b)
  }

  predicate Proper(t: Tables, a: nat)
    requires a in t.leases
  {
    && InGoodStanding(t, a)
    && t.leases[a].persona in t.personas && t.personas[t.leases[a].persona] == a
    && t.leases[a].connection != ""
  }

  /** Personas are unique in the table too, because each belongs to one account. */
  lemma PersonasAreUnique(t: Tables, a: nat, b: nat)
    requires Valid(t) && a in t.leases && b in t.leases && t.leases[a].persona == t.leases[b].persona
    ensures a == b
  {
    assert Proper(t, a) && Proper(t, b);
  }

  lemma FewerLeasesValid(t: Tables, leases: map<nat, Lease>)
    requires Valid(t) && forall a :: a in leases ==> a in t.leases && leases[a] == t.leases[a]
    ensures Valid(t.(leases := leases))
  {
    forall a | a in leases ensures Proper(t.(leases := leases), a) {
      assert Proper(t, a);
    }
  }

  lemma OneLeaseChanged(t: Tables, a: nat, l: Lease)
    requires Valid(t) && InGoodStanding(t, a)
    requires l.persona in t.personas && t.personas[l.persona] == a && l.connection != ""
    requires forall b :: b in t.leases && t.leases[b].connection == l.connection ==> b == a
    ensures Valid(t.(leases := t.leases[a := l]))
  {
    var u := t.(leases := t.leases[a := l]);
    forall b | b in u.leases ensures Proper(u, b) {
      if b != a {
        assert Proper(t, b);
      }
    }
  }
}
