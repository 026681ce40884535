/** The bounded history always shows what an unbounded one would show first. */
module RecentRuns {
  import opened RecentPlayers

  lemma OtherListUnchanged(rows: Rows, game: string, names: map<string, string>, now: real, k: Key)
    requires k in rows && !(k.game == game && k.owner in names)
    ensures k in Added(rows, game, names, now) && Added(rows, game, names, now)[k] == rows[k]
    ensures Rank(Added(rows, game, names, now), k) == Rank(rows, k)
  {
    var after := Added(rows, game, names, now);
    AddedKeys(rows, game, names, now, k);
    forall j ensures j in BetterKeys(after, k) <==> j in BetterKeys(rows, k) {
      AddedKeys(rows, game, names, now, j);
    }
    assert BetterKeys(after, k) == BetterKeys(rows, k);
  }

  /** One encounter: trimming the bounded rows gives the best of the full rows. */
  lemma EncounterKeepsBest(full: Rows, game: string, names: map<string, string>, now: real)
    requires NotAfter(full, now)
    ensures Trimmed(Added(Best(full), game, names, now), game, names.Keys) == Best(Added(full, game, names, now))
  {
    var (after, part) := (Added(full, game, names, now), Added(Best(full), game, names, now));
    var (trimmed, best) := (Trimmed(part, game, names.Keys), Best(after));
    forall k ensures k in trimmed <==> k in best {
      KeptOrNot(full, game, names, now, k);
    }
    forall k | k in trimmed ensures trimmed[k] == best[k] {
      AddedPart(full, game, names, now, k);
    }
  }

  lemma KeptOrNot(full: Rows, game: string, names: map<string, string>, now: real, k: Key)
    requires NotAfter(full, now)
    ensures k in Trimmed(Added(Best(full), game, names, now), game, names.Keys) <==>
      k in Best(Added(full, game, names, now))
  {
    var (after, part) := (Added(full, game, names, now), Added(Best(full), game, names, now));
    AddedKeys(full, game, names, now, k);
    AddedKeys(Best(full), game, names, now, k);
    if k.game == game && k.owner in names {
      if k in part {
        AddedPart(full, game, names, now, k);
        forall j | j in part ensures j in after && after[j] == part[j] {
          AddedPart(full, game, names, now, j);
        }
        PartRank(part, after, k);
        if Rank(after, k) >= LIMIT {
          CrowdedOut(full, game, names, now, k);
        }
      } else if k in after && Rank(after, k) < LIMIT {
        BestSurvives(full, game, names, now, k);
      }
    } else if k in full {
      OtherListUnchanged(full, game, names, now, k);
    }
  }

  // ----- runs

  datatype Encounter = Encounter(game: string, personas: seq<(string, string)>, now: real)

  function RunBounded(rows: Rows, encounters: seq<Encounter>): Rows
    decreases |encounters|
  {
    if encounters == [] then rows
    else
      var e := encounters[0];
      RunBounded(Recorded(rows, e.game, e.personas, e.now), encounters[1..])
  }

  function RunFull(rows: Rows, encounters: seq<Encounter>): Rows
    decreases |encounters|
  {
    if encounters == [] then rows
    else
      var e := encounters[0];
      RunFull(Remembered(rows, e.game, e.personas, e.now), encounters[1..])
  }

  predicate Chronological(encounters: seq<Encounter>) {
    forall i, j :: 0 <= i < j < |encounters| ==> encounters[i].now <= encounters[j].now
  }

  lemma {:induction false} BoundedFollows(full: Rows, encounters: seq<Encounter>)
    requires Chronological(encounters) && (encounters != [] ==> NotAfter(full, encounters[0].now))
    ensures RunBounded(Best(full), encounters) == Best(RunFull(full, encounters))
    decreases |encounters|
  {
    if encounters != [] {
      var e := encounters[0];
      var names := Names(e.personas);
      var next := Remembered(full, e.game, e.personas, e.now);
      EncounterKeepsBest(full, e.game, names, e.now);
      assert Recorded(Best(full), e.game, e.personas, e.now) == Best(next);
      if |encounters| > 1 {
        assert encounters[1..][0].now >= e.now;
      }
      BoundedFollows(next, encounters[1..]);
    }
  }

  /**
   With a clock that never goes back, the kept rows are after every run exactly the fifty best of
   each list of the full history.
   */
  lemma BoundedEqualsFull(encounters: seq<Encounter>)
    requires Chronological(encounters)
    ensures RunBounded(map[], encounters) == Best(RunFull(map[], encounters))
  {
    assert Best(map[]) == map[];
    BoundedFollows(map[], encounters);
  }

  // ----- the list a player sees

  /** All rows of one list, best first. */
  ghost predicate Listing(rows: Rows, owner: string, game: string, keys: seq<Key>) {
    && (forall k :: k in keys <==> k in rows && k.owner == owner && k.game == game)
    && forall i, j :: 0 <= i < j < |keys| ==> keys[i] in rows && keys[j] in rows && Better(rows, keys[i], keys[j])
  }

  function Members(keys: seq<Key>): set<Key> {
    set k | k in keys
  }

  /** A row's rank is its place in the list. */
  lemma ListedAtRank(rows: Rows, owner: string, game: string, keys: seq<Key>, i: nat)
    requires Listing(rows, owner, game, keys) && i < |keys|
    ensures keys[i] in rows && Rank(rows, keys[i]) == i
  {
    var k := keys[i];
    assert k in keys;
    var before := Members(keys[..i]);
    forall j ensures j in BetterKeys(rows, k) <==> j in before {
      if j in BetterKeys(rows, k) {
        var n :| 0 <= n < |keys| && keys[n] == j;
        BetterTotal(rows, j, k);
        assert n < i;
        assert keys[..i][n] == j;
      }
      if j in before {
        var n :| 0 <= n < i && keys[n] == j;
      }
    }
    assert BetterKeys(rows, k) == before;
    PrefixSize(rows, owner, game, keys, i);
  }

  lemma {:induction false} PrefixSize(rows: Rows, owner: string, game: string, keys: seq<Key>, i: nat)
    requires Listing(rows, owner, game, keys) && i <= |keys|
    ensures |Members(keys[..i])| == i
  {
    if i > 0 {
      PrefixSize(rows, owner, game, keys, i - 1);
      var last := keys[i - 1];
      forall n | 0 <= n < i - 1 ensures keys[n] != last {
        assert last in keys;
        BetterTotal(rows, last, last);
      }
      assert keys[..i] == keys[..i - 1] + [last];
      assert Members(keys[..i]) == Members(keys[..i - 1]) + {last};
      assert last !in keys[..i - 1];
    }
  }

  lemma {:induction false} ListingUnique(rows: Rows, owner: string, game: string, a: seq<Key>, b: seq<Key>, i: nat)
    requires Listing(rows, owner, game, a) && Listing(rows, owner, game, b) && i < |a|
    ensures i < |b| && a[i] == b[i]
  {
    assert a[i] in b;
    var j :| 0 <= j < |b| && b[j] == a[i];
    ListedAtRank(rows, owner, game, a, i);
    ListedAtRank(rows, owner, game, b, j);
  }

  /** The list of the bounded rows is the beginning of the list of the full rows, at most fifty long. */
  lemma SameListShown(full: Rows, owner: string, game: string, all: seq<Key>, shown: seq<Key>)
    requires Listing(full, owner, game, all) && Listing(Best(full), owner, game, shown)
    ensures shown == if |all| <= LIMIT then all else all[..LIMIT]
  {
    var first := if |all| <= LIMIT then all else all[..LIMIT];
    forall k ensures k in first <==> k in Best(full) && k.owner == owner && k.game == game {
      if k in all {
        var i :| 0 <= i < |all| && all[i] == k;
        ListedAtRank(full, owner, game, all, i);
        assert i < LIMIT ==> first[i] == k;
      }
      if k in first {
        var i :| 0 <= i < |first| && first[i] == k;
        assert all[i] == k;
        ListedAtRank(full, owner, game, all, i);
      }
    }
    forall i, j | 0 <= i < j < |first|
      ensures first[i] in Best(full) && first[j] in Best(full) && Better(Best(full), first[i], first[j])
    {
      assert first[i] in first && first[j] in first;
      assert Better(full, all[i], all[j]);
    }
    assert Listing(Best(full), owner, game, first);
    SameLength(Best(full), owner, game, shown, first);
    forall i | 0 <= i < |shown| ensures shown[i] == first[i] {
      ListingUnique(Best(full), owner, game, shown, first, i);
    }
  }

  lemma SameLength(rows: Rows, owner: string, game: string, a: seq<Key>, b: seq<Key>)
    requires Listing(rows, owner, game, a) && Listing(rows, owner, game, b)
    ensures |a| == |b|
  {
    if |a| > |b| {
      ListingUnique(rows, owner, game, a, b, |b|);
    }
    if |b| > |a| {
      ListingUnique(rows, owner, game, b, a, |a|);
    }
  }
}
