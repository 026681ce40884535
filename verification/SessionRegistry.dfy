/** The shared database and the registries that several processes open on it, proved against the lease steps. */
module SessionRegistry {
  import opened Options
  import opened SessionLeases

  class Database {
    var accounts: map<nat, Account>
    var personas: map<nat, nat>
    var blockedEmails: set<string>
    var leases: map<nat, Lease>

    ghost function View(): Tables
      reads this
    {
      Tables(accounts, personas, blockedEmails, leases)
    }

    constructor ()
      ensures View() == Tables(map[], map[], {}, map[])
    {
      accounts, personas, blockedEmails, leases := map[], map[], {}, map[];
    }

    method Reason(account: nat) returns (r: Option<Refusal>)
      ensures r == PolicyReason(View(), account)
    {
      if account !in accounts {
        return Some(InvalidClaim);
      }
      var row := accounts[account];
      if row.banned {
        return Some(Banned);
      }
      if !row.enabled {
        return Some(Disabled);
      }
      if row.email != "" && row.email in blockedEmails {
        return Some(Banned);
      }
      return None;
    }

    /** Completing a profile with the right password; a taken address raises ValueError and changes nothing. */
    method CompleteMissingProfile(account: nat, email: string) returns (changed: bool)
      modifies this`accounts
      ensures View() == After(old(View()), CompleteProfile(account, email))
      ensures changed == FillsEmail(old(View()), account, email)
    {
      var reason := Reason(account);
      var taken := exists b | b in accounts :: b != account && accounts[b].email == email;
      changed := reason.None? && email != "" && accounts[account].email == "" && !taken;
      if changed {
        accounts := accounts[account := accounts[account].(email := email)];
      }
    }

    /** `ok` is false when the source raises ValueError. */
    method BlockEmail(email: string, blocked: bool) returns (ok: bool)
      modifies this
      ensures View() == After(old(View()), SetEmailBlocked(email, blocked)) && ok == (email != "" && '@' in email)
    {
      ok := email != "" && '@' in email;
      if ok && blocked {
        blockedEmails := blockedEmails + {email};
        leases := map a | a in leases && !(a in accounts && accounts[a].email == email) :: leases[a];
      } else if ok {
        blockedEmails := blockedEmails - {email};
      }
    }

    /** False stands for the KeyError of an unknown account. */
    method SetBannedFlag(account: nat, banned: bool) returns (known: bool)
      modifies this
      ensures View() == After(old(View()), SetBanned(account, banned)) && known == (account in old(accounts))
    {
      known := account in accounts;
      if known {
        accounts := accounts[account := accounts[account].(banned := banned)];
        if banned {
          leases := leases - {account};
        }
      }
    }

    method SetEnabledFlag(account: nat, enabled: bool) returns (known: bool)
      modifies this
      ensures View() == After(old(View()), SetEnabled(account, enabled)) && known == (account in old(accounts))
    {
      known := account in accounts;
      if known {
        accounts := accounts[account := accounts[account].(enabled := enabled)];
        if !enabled {
          leases := leases - {account};
        }
      }
    }

    method KickAccount(account: nat) returns (known: bool)
      modifies this`leases
      ensures View() == After(old(View()), Kick(account)) && known == (account in accounts)
    {
      known := account in accounts;
      if known {
        leases := leases - {account};
      }
    }
  }

  class SharedRegistry {
    const database: Database
    const registry: Registry

    constructor (database: Database, registry: Registry)
      ensures this.database == database && this.registry == registry
    {
      this.database := database;
      this.registry := registry;
    }

    method Discard(at: Option<nat>, dead: set<string>)
      requires at.Some? ==> at.value in database.leases
      modifies database`leases
      ensures database.leases == DiscardDead(old(database.leases), at, dead)
    {
      if at.Some? && database.leases[at.value].server in dead {
        database.leases := WithoutServer(database.leases, database.leases[at.value].server);
      }
    }

    method FindConnection(connection: string) returns (at: Option<nat>)
      requires Unique(database.leases)
      ensures at == AtConnection(database.leases, registry, connection)
    {
      var (leases, server) := (database.leases, registry.server);
      if a :| a in leases && leases[a].connection == connection && leases[a].server == server {
        return Some(a);
      }
      return None;
    }

    method FindPersona(persona: nat) returns (at: Option<nat>)
      requires UniquePersonas(database.leases)
      ensures at == AtPersona(database.leases, persona)
    {
      if a :| a in database.leases && database.leases[a].persona == persona {
        return Some(a);
      }
      return None;
    }

    method Claim(c: SessionLeases.Claim) returns (refusal: Option<Refusal>)
      requires Unique(database.leases) && UniquePersonas(database.leases)
      modifies database`leases
      ensures (database.leases, refusal) == AfterClaim(old(database.View()), registry, c)
    {
      if c.connection == "" || c.persona !in database.personas || database.personas[c.persona] != c.account {
        return Some(InvalidClaim);
      }
      database.leases := Pruned(database.leases, c.now);
      refusal := database.Reason(c.account);
      if refusal.Some? {
        return;
      }
      Discard(AtAccount(database.leases, c.account), c.dead);
      if c.account in database.leases && database.leases[c.account].connection != c.connection {
        if !c.replaceSameGame || database.leases[c.account].game != registry.game {
          return Some(AccountInUse);
        }
      }
      var owner := FindPersona(c.persona);
      Discard(owner, c.dead);
      if owner.Some? && owner.value in database.leases && database.leases[owner.value].connection != c.connection {
        if !c.replaceSameGame {
          return Some(PersonaInUse);
        }
      }
      database.leases := WithoutConnection(database.leases, c.connection);
      database.leases := database.leases[c.account := NewLease(registry, database.leases, c)];
      return None;
    }

    method TouchSession(connection: string, now: real) returns (alive: bool)
      requires Unique(database.leases) && UniquePersonas(database.leases)
      modifies database`leases
      ensures (database.leases, alive) == AfterTouch(old(database.View()), registry, connection, now)
    {
      if connection == "" {
        return false;
      }
      database.leases := Pruned(database.leases, now);
      var at := FindConnection(connection);
      if at.None? {
        return false;
      }
      var reason := database.Reason(at.value);
      if reason.Some? {
        database.leases := database.leases - {at.value};
        return false;
      }
      database.leases := database.leases[at.value := Renewed(database.leases[at.value], registry, now)];
      return true;
    }

    method Switch(connection: string, wanted: Option<nat>, now: real) returns (refusal: Option<Refusal>)
      requires Unique(database.leases) && UniquePersonas(database.leases)
      modifies database`leases
      ensures (database.leases, refusal) == AfterSwitch(old(database.View()), registry, connection, wanted, now)
    {
      if connection == "" || wanted.None? {
        return Some(InvalidClaim);
      }
      database.leases := Pruned(database.leases, now);
      var at := FindConnection(connection);
      if at.None? {
        return Some(NotAuthenticated);
      }
      refusal := database.Reason(at.value);
      if refusal.Some? {
        database.leases := database.leases - {at.value};
        return;
      }
      if wanted.value !in database.personas || database.personas[wanted.value] != at.value {
        return Some(PersonaNotOwned);
      }
      var owner := FindPersona(wanted.value);
      if owner.Some? && database.leases[owner.value].connection != connection {
        return Some(PersonaInUse);
      }
      database.leases := database.leases[at.value :=
        Renewed(database.leases[at.value], registry, now).(persona := wanted.value)];
      return None;
    }
  }

  ghost predicate Unique(leases: map<nat, Lease>) {
    forall a, b :: a in leases && b in leases && leases[a].connection == leases[b].connection ==> a == b
  }

  ghost predicate UniquePersonas(leases: map<nat, Lease>) {
    forall a, b :: a in leases && b in leases && leases[a].persona == leases[b].persona ==> a == b
  }

  /** Every valid table meets what the registries rely on. */
  lemma Uniqueness(t: Tables)
    requires Valid(t)
    ensures Unique(t.leases) && UniquePersonas(t.leases)
  {
    forall a, b | a in t.leases && b in t.leases && t.leases[a].persona == t.leases[b].persona ensures a == b {
      PersonasAreUnique(t, a, b);
    }
  }
}
