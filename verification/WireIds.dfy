/** Player ids handed out by cyclic probing (server/carbon/accounts/identity.py, server/common/accounts.py). */
module WireIds {
  import opened Collections
  import opened Options

  const MAX_ID: nat := 0x7FFF

  /** A range of ids that wraps around, and the hash that says where a persona starts to look. */
  datatype Space = Space(low: nat, high: nat, start: string -> nat) {
    ghost predicate Valid() {
      low <= high && forall p :: low <= start(p) <= high
    }

    function Next(id: nat): nat {
      if id >= high then low else id + 1
    }

    function Size(): int {
      high - low + 1
    }
  }

  /** The 15-bit player ids, started from two bytes of a digest. */
  function WireSpace(digest: string -> nat): (space: Space)
    ensures space.Valid() && space.Size() == 32_767
    ensures forall p :: space.start(p) == 1 + digest(p) % 32_767
  {
    Space(1, MAX_ID, (p: string) => 1 + digest(p) % MAX_ID)
  }

  /** The nine-digit profile ids, started from four bytes of a digest. */
  function ProfileSpace(digest: string -> nat): (space: Space)
    ensures space.Valid() && space.Size() == 900_000_000
    ensures forall p :: space.start(p) == 100_000_000 + digest(p) % 900_000_000
  {
    Space(100_000_000, 999_999_999, (p: string) => 100_000_000 + digest(p) % 900_000_000)
  }

  datatype Ids = Ids(byPersona: map<string, nat>, byId: map<nat, string>)

  const Empty := Ids(map[], map[])

  /** Each map is the inverse of the other, and every id is in the range. */
  ghost predicate Inverse(space: Space, ids: Ids) {
    && (forall p :: p in ids.byPersona ==>
        space.low <= ids.byPersona[p] <= space.high && ids.byPersona[p] in ids.byId && ids.byId[ids.byPersona[p]] == p)
    && forall i :: i in ids.byId ==> ids.byId[i] in ids.byPersona && ids.byPersona[ids.byId[i]] == i
  }

  // ----- the cyclic probe

  /** The id `k` steps after `from`. */
  function Ahead(space: Space, id: nat, k: nat): nat {
    if k == 0 then id else space.Next(Ahead(space, id, k - 1))
  }

  lemma {:induction false} AheadIs(space: Space, id: nat, k: nat)
    requires space.low <= id <= space.high && k <= space.Size()
    ensures Ahead(space, id, k) == if id + k <= space.high then id + k else id + k - space.Size()
  {
    if k > 0 {
      AheadIs(space, id, k - 1);
    }
  }

  /** Every id of the range lies less than one round ahead. */
  lemma Reached(space: Space, id: nat, target: nat) returns (k: nat)
    requires space.low <= id <= space.high && space.low <= target <= space.high
    ensures k < space.Size() && Ahead(space, id, k) == target
  {
    k := if target >= id then target - id else target - id + space.Size();
    AheadIs(space, id, k);
  }

  function Range(low: nat, n: nat): set<nat> {
    if n == 0 then {} else Range(low, n - 1) + {low + n - 1}
  }

  lemma {:induction false} RangeSize(low: nat, n: nat)
    ensures |Range(low, n)| == n
    ensures forall i: nat :: i in Range(low, n) <==> low <= i < low + n
  {
    if n > 0 {
      RangeSize(low, n - 1);
    }
  }

  predicate Full(space: Space, used: set<nat>) {
    forall i: nat :: space.low <= i <= space.high ==> i in used
  }

  /** While fewer ids than the range holds are used, some id of it is free. */
  lemma SomeFree(space: Space, used: set<nat>)
    requires space.low <= space.high && |used| < space.Size()
    ensures !Full(space, used)
  {
    if Full(space, used) {
      RangeSize(space.low, space.Size());
      SubsetSize(Range(space.low, space.Size()), used);
    }
  }

  /** The first free id from `id` on, in at most `tries` steps. */
  function Probe(space: Space, used: set<nat>, id: nat, tries: nat): Option<nat>
    decreases tries
  {
    if tries == 0 then None
    else if id !in used then Some(id)
    else Probe(space, used, space.Next(id), tries - 1)
  }

  ghost predicate FirstFree(space: Space, used: set<nat>, id: nat, k: nat, found: nat) {
    Ahead(space, id, k) == found && forall j: nat :: j < k ==> Ahead(space, id, j) in used
  }

  lemma {:induction false} ProbeAhead(space: Space, used: set<nat>, id: nat, tries: nat)
    requires space.low <= id <= space.high
    ensures match Probe(space, used, id, tries)
            case None => forall k :: 0 <= k < tries ==> Ahead(space, id, k) in used
            case Some(found) =>
              && space.low <= found <= space.high && found !in used
              && exists k :: 0 <= k < tries && FirstFree(space, used, id, k, found)
    decreases tries
  {
    if tries > 0 {
      if id !in used {
        assert FirstFree(space, used, id, 0, id);
      } else {
        ProbeAhead(space, used, space.Next(id), tries - 1);
        forall k: nat | k < tries ensures k > 0 ==> Ahead(space, id, k) == Ahead(space, space.Next(id), k - 1) {
          if k > 0 {
            AheadShift(space, id, k - 1);
          }
        }
        match Probe(space, used, space.Next(id), tries - 1)
        case None =>
          forall k | 0 <= k < tries ensures Ahead(space, id, k) in used {
          }
        case Some(found) =>
          var k: nat :| k < tries - 1 && FirstFree(space, used, space.Next(id), k, found);
          assert FirstFree(space, used, id, k + 1, found);
      }
    }
  }

  lemma {:induction false} AheadShift(space: Space, id: nat, k: nat)
    ensures Ahead(space, id, k + 1) == Ahead(space, space.Next(id), k)
  {
    if k > 0 {
      AheadShift(space, id, k - 1);
    }
  }

  /** A round of probing fails exactly when every id of the range is taken. */
  lemma RoundFailsIff(space: Space, used: set<nat>, id: nat)
    requires space.low <= id <= space.high
    ensures Probe(space, used, id, space.Size()).None? <==> Full(space, used)
  {
    ProbeAhead(space, used, id, space.Size());
    if Probe(space, used, id, space.Size()).None? {
      forall i: nat | space.low <= i <= space.high ensures i in used {
        var k := Reached(space, id, i);
      }
    }
  }

  // ----- one persona, and runs

  /** The id a persona has or gets; None when every id is taken. */
  function Assigned(space: Space, ids: Ids, persona: string): (Option<nat>, Ids)
    requires space.Valid()
  {
    if persona in ids.byPersona then (Some(ids.byPersona[persona]), ids)
    else
      match Probe(space, ids.byId.Keys, space.start(persona), space.Size())
      case None => (None, ids)
      case Some(id) => (Some(id), Ids(ids.byPersona[persona := id], ids.byId[id := persona]))
  }

  lemma AssignedKeepsInverse(space: Space, ids: Ids, persona: string)
    requires space.Valid() && Inverse(space, ids)
    ensures Inverse(space, Assigned(space, ids, persona).1)
    ensures forall p :: p in ids.byPersona ==>
      p in Assigned(space, ids, persona).1.byPersona && Assigned(space, ids, persona).1.byPersona[p] == ids.byPersona[p]
  {
    ProbeAhead(space, ids.byId.Keys, space.start(persona), space.Size());
  }

  /** A known persona keeps its id; a new one gets the first free id from its start on, and nobody else anything. */
  lemma AssignedIs(space: Space, ids: Ids, persona: string)
    requires space.Valid()
    ensures persona in ids.byPersona ==> Assigned(space, ids, persona) == (Some(ids.byPersona[persona]), ids)
    ensures persona !in ids.byPersona ==>
      var (id, after) := Assigned(space, ids, persona);
      if id.None? then after == ids
      else
        && id.value !in ids.byId && after == Ids(ids.byPersona[persona := id.value], ids.byId[id.value := persona])
        && exists k: nat :: FirstFree(space, ids.byId.Keys, space.start(persona), k, id.value)
  {
    ProbeAhead(space, ids.byId.Keys, space.start(persona), space.Size());
  }

  /** A request fails exactly for a new persona when every id of the range has an owner. */
  lemma AssignedFailsIff(space: Space, ids: Ids, persona: string)
    requires space.Valid() && Inverse(space, ids)
    ensures Assigned(space, ids, persona).0.None? <==> persona !in ids.byPersona && Full(space, ids.byId.Keys)
    ensures |ids.byPersona| < space.Size() ==> Assigned(space, ids, persona).0.Some?
  {
    RoundFailsIff(space, ids.byId.Keys, space.start(persona));
    AllOwners(space, ids);
    if |ids.byPersona| < space.Size() {
      SomeFree(space, ids.byId.Keys);
    }
  }

  function Owners(ids: Ids, some: set<nat>): set<string>
    requires some <= ids.byId.Keys
  {
    set i | i in some :: ids.byId[i]
  }

  /** There are as many ids as personas. */
  lemma AllOwners(space: Space, ids: Ids)
    requires Inverse(space, ids)
    ensures |ids.byId| == |ids.byPersona|
  {
    OwnersSize(space, ids, ids.byId.Keys);
    forall p ensures p in Owners(ids, ids.byId.Keys) <==> p in ids.byPersona.Keys {
      if p in ids.byPersona {
        assert ids.byId[ids.byPersona[p]] == p;
      }
    }
    assert Owners(ids, ids.byId.Keys) == ids.byPersona.Keys;
  }

  lemma {:induction false} OwnersSize(space: Space, ids: Ids, some: set<nat>)
    requires Inverse(space, ids) && some <= ids.byId.Keys
    ensures |Owners(ids, some)| == |some|
    decreases |some|
  {
    if some == {} {
      assert Owners(ids, some) == {};
    } else {
      var i :| i in some;
      OwnersSize(space, ids, some - {i});
      assert Owners(ids, some) == Owners(ids, some - {i}) + {ids.byId[i]};
    }
  }

  function Run(space: Space, ids: Ids, personas: seq<string>): Ids
    requires space.Valid()
    decreases |personas|
  {
    if personas == [] then ids else Run(space, Assigned(space, ids, personas[0]).1, personas[1..])
  }

  /** Over any run the maps stay inverse to each other and no id given out ever changes. */
  lemma {:induction false} RunKeepsIds(space: Space, ids: Ids, personas: seq<string>)
    requires space.Valid() && Inverse(space, ids)
    ensures Inverse(space, Run(space, ids, personas))
    ensures forall p :: p in ids.byPersona ==>
      p in Run(space, ids, personas).byPersona && Run(space, ids, personas).byPersona[p] == ids.byPersona[p]
    decreases |personas|
  {
    if personas != [] {
      AssignedKeepsInverse(space, ids, personas[0]);
      RunKeepsIds(space, Assigned(space, ids, personas[0]).1, personas[1..]);
    }
  }

  // ----- the unbounded probe

  /** A probe without a bound ends exactly when some id of the range is free. */
  lemma ProbeEndsIff(space: Space, used: set<nat>, id: nat)
    requires space.low <= id <= space.high
    ensures (exists k: nat :: Ahead(space, id, k) !in used) <==> !Full(space, used)
  {
    if Full(space, used) {
      forall k: nat ensures Ahead(space, id, k) in used {
        StaysInRange(space, id, k);
      }
    } else {
      var free: nat :| space.low <= free <= space.high && free !in used;
      var k := Reached(space, id, free);
      assert Ahead(space, id, k) !in used;
    }
  }

  lemma {:induction false} StaysInRange(space: Space, id: nat, k: nat)
    requires space.low <= id <= space.high
    ensures space.low <= Ahead(space, id, k) <= space.high
  {
    if k > 0 {
      StaysInRange(space, id, k - 1);
    }
  }

  /** An allocator that gives up after one round, over the ids of a table. */
  method Allocate(space: Space, used: set<nat>, persona: string) returns (id: Option<nat>)
    requires space.Valid()
    ensures id.None? <==> Full(space, used)
    ensures id.Some? ==> space.low <= id.value <= space.high && id.value !in used
    ensures id == Probe(space, used, space.start(persona), space.Size())
  {
    RoundFailsIff(space, used, space.start(persona));
    ProbeAhead(space, used, space.start(persona), space.Size());
    var candidate: nat := space.start(persona);
    for i := 0 to space.Size()
      invariant Probe(space, used, candidate, space.Size() - i)
        == Probe(space, used, space.start(persona), space.Size())
    {
      if candidate !in used {
        return Some(candidate);
      }
      candidate := if candidate >= space.high then space.low else candidate + 1;
    }
    return None;
  }

  class IdentityStore {
    const space: Space
    var wireIds: map<string, nat>
    var owners: map<nat, string>

    ghost function Contents(): Ids
      reads this
    {
      Ids(wireIds, owners)
    }

    constructor (digest: string -> nat)
      ensures space == WireSpace(digest) && Contents() == Empty && Inverse(space, Contents())
    {
      space := WireSpace(digest);
      wireIds, owners := map[], map[];
    }

    /** For a new persona the probe has no bound, so an id must be free for it to return. */
    method WirePlayerId(persona: string) returns (id: nat)
      requires space.Valid() && Inverse(space, Contents())
      requires persona in wireIds || !Full(space, owners.Keys)
      modifies this
      ensures (Some(id), Contents()) == Assigned(space, old(Contents()), persona)
      ensures Inverse(space, Contents())
    {
      AssignedKeepsInverse(space, Contents(), persona);
      if persona in wireIds {
        return wireIds[persona];
      }
      RoundFailsIff(space, owners.Keys, space.start(persona));
      var candidate: nat := space.start(persona);
      ghost var left := space.Size();
      while candidate in owners && owners[candidate] != persona
        invariant left >= 0
        invariant Probe(space, owners.Keys, candidate, left)
          == Probe(space, owners.Keys, space.start(persona), space.Size())
        decreases left
      {
        candidate := if candidate >= space.high then space.low else candidate + 1;
        left := left - 1;
      }
      wireIds := wireIds[persona := candidate];
      owners := owners[candidate := persona];
      return candidate;
    }
  }
}
