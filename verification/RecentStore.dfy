/** The recent-player store as an object that sorts and cuts its lists, proved against its functions. */
module RecentStore {
  import opened RecentPlayers
  import opened RecentRuns

  /** Cutting one more owner's list. */
  lemma TrimOneMore(rows: Rows, game: string, done: set<string>, owner: string)
    requires owner !in done
    ensures Trimmed(rows, game, done + {owner}) == Trimmed(Trimmed(rows, game, done), game, {owner})
  {
    var part := Trimmed(rows, game, done);
    forall k | k in part && k.owner == owner && k.game == game ensures Rank(part, k) == Rank(rows, k) {
      assert BetterKeys(part, k) == BetterKeys(rows, k);
    }
  }

  /** The rows without the listed keys from the limit on are the rows trimmed for the list's owner. */
  lemma CutList(rows: Rows, game: string, owner: string, keys: seq<Key>)
    requires Listing(rows, owner, game, keys)
    ensures Trimmed(rows, game, {owner}) == rows - Members(if |keys| <= LIMIT then [] else keys[LIMIT..])
  {
    var cut := if |keys| <= LIMIT then [] else keys[LIMIT..];
    forall k | k in rows && k.owner == owner && k.game == game ensures Rank(rows, k) < LIMIT <==> k !in cut {
      var i :| 0 <= i < |keys| && keys[i] == k;
      ListedAtRank(rows, owner, game, keys, i);
      if i >= LIMIT {
        assert cut[i - LIMIT] == k;
      } else if k in cut {
        var j :| 0 <= j < |cut| && cut[j] == k;
        ListedAtRank(rows, owner, game, keys, j + LIMIT);
      }
    }
    forall k | k in cut ensures k in rows && k.owner == owner && k.game == game {
      var j :| 0 <= j < |cut| && cut[j] == k;
      assert keys[j + LIMIT] in keys;
    }
  }

  // ----- sorting

  /** The list of the rows not in `todo`, best first. */
  ghost predicate PartListing(rows: Rows, owner: string, game: string, todo: set<Key>, keys: seq<Key>) {
    && (forall k :: k in keys <==> k in rows && k.owner == owner && k.game == game && k !in todo)
    && Ordered(rows, keys)
  }

  ghost predicate Ordered(rows: Rows, keys: seq<Key>) {
    && (forall i :: 0 <= i < |keys| ==> keys[i] in rows)
    && forall i, j :: 0 <= i < j < |keys| ==> Better(rows, keys[i], keys[j])
  }

  lemma Below(rows: Rows, keys: seq<Key>, at: nat, k: Key, owner: string, game: string)
    requires k in rows && k !in keys && at <= |keys| && k.owner == owner && k.game == game
    requires Ordered(rows, keys) && forall i :: 0 <= i < |keys| ==> keys[i].owner == owner && keys[i].game == game
    requires at < |keys| ==> !Better(rows, keys[at], k)
    ensures forall i :: at <= i < |keys| ==> Better(rows, k, keys[i])
  {
    forall i | at <= i < |keys| ensures Better(rows, k, keys[i]) {
      BetterTotal(rows, keys[at], k);
      if i > at {
        BetterTransitive(rows, k, keys[at], keys[i]);
      }
    }
  }

  lemma Inserted(rows: Rows, keys: seq<Key>, at: nat, k: Key)
    requires k in rows && at <= |keys| && Ordered(rows, keys)
    requires forall i :: 0 <= i < at ==> Better(rows, keys[i], k)
    requires forall i :: at <= i < |keys| ==> Better(rows, k, keys[i])
    ensures Ordered(rows, keys[..at] + [k] + keys[at..])
    ensures forall x :: x in keys[..at] + [k] + keys[at..] <==> x in keys || x == k
  {
    var longer := keys[..at] + [k] + keys[at..];
    assert keys == keys[..at] + keys[at..];
    forall i | 0 <= i < |longer| ensures longer[i] in rows {
      assert longer[i] == if i < at then keys[i] else if i == at then k else keys[i - 1];
    }
    forall i, j | 0 <= i < j < |longer| ensures Better(rows, longer[i], longer[j]) {
      assert longer[i] == if i < at then keys[i] else if i == at then k else keys[i - 1];
      assert longer[j] == if j < at then keys[j] else if j == at then k else keys[j - 1];
    }
  }

  method Insert(rows: Rows, owner: string, game: string, ghost todo: set<Key>, keys: seq<Key>, k: Key)
      returns (longer: seq<Key>)
    requires PartListing(rows, owner, game, todo, keys)
    requires k in todo && k in rows && k.owner == owner && k.game == game
    ensures PartListing(rows, owner, game, todo - {k}, longer)
  {
    assert forall i :: 0 <= i < |keys| ==> keys[i] in keys;
    var at := 0;
    while at < |keys| && Better(rows, keys[at], k)
      invariant at <= |keys| && forall i :: 0 <= i < at ==> Better(rows, keys[i], k)
    {
      at := at + 1;
    }
    Below(rows, keys, at, k, owner, game);
    Inserted(rows, keys, at, k);
    longer := keys[..at] + [k] + keys[at..];
  }

  // ----- the encounter's new rows

  /** Some of the rows an encounter writes. */
  function Met(rows: Rows, names: map<string, string>, now: real, done: set<Key>): Rows
    requires forall k :: k in done ==> k.target in names
  {
    map k | k in rows.Keys + done :: if k in done then Row(names[k.target], now) else rows[k]
  }

  lemma MetEverybody(rows: Rows, game: string, names: map<string, string>, now: real)
    ensures Met(rows, names, now, NewKeys(game, names)) == Added(rows, game, names, now)
  {
    forall k ensures k in NewKeys(game, names) <==> Meets(game, names, k) {
      assert Meets(game, names, k) ==> k == Key(k.owner, game, k.target);
    }
  }

  // ----- the store

  /** The displays of the first fifty rows of a list. */
  ghost predicate Shows(rows: Rows, keys: seq<Key>, displays: seq<string>) {
    && |displays| == (if |keys| <= LIMIT then |keys| else LIMIT)
    && forall i :: 0 <= i < |displays| ==> keys[i] in rows && displays[i] == rows[keys[i]].display
  }

  class Store {
    var rows: Rows

    constructor ()
      ensures rows == map[]
    {
      rows := map[];
    }

    /** The rows of one list, sorted by latest time and then by name. */
    method List(owner: string, game: string) returns (keys: seq<Key>)
      ensures Listing(rows, owner, game, keys)
    {
      var todo := set k | k in rows && k.owner == owner && k.game == game;
      keys := [];
      while todo != {}
        invariant forall k :: k in todo ==> k in rows && k.owner == owner && k.game == game
        invariant PartListing(rows, owner, game, todo, keys)
        decreases todo
      {
        var k :| k in todo;
        keys := Insert(rows, owner, game, todo, keys, k);
        todo := todo - {k};
      }
    }

    method Meet(game: string, names: map<string, string>, now: real)
      modifies this
      ensures rows == Added(old(rows), game, names, now)
    {
      var todo := NewKeys(game, names);
      ghost var done: set<Key> := {};
      while todo != {}
        invariant done + todo == NewKeys(game, names)
        invariant rows == Met(old(rows), names, now, done)
        decreases todo
      {
        var k :| k in todo;
        rows := rows[k := Row(names[k.target], now)];
        todo, done := todo - {k}, done + {k};
      }
      MetEverybody(old(rows), game, names, now);
    }

    method Cut(owner: string, game: string)
      modifies this
      ensures rows == Trimmed(old(rows), game, {owner})
    {
      var keys := List(owner, game);
      CutList(rows, game, owner, keys);
      var cut := if |keys| <= LIMIT then [] else keys[LIMIT..];
      for i := 0 to |cut|
        invariant rows == old(rows) - Members(cut[..i])
      {
        assert cut[..i + 1] == cut[..i] + [cut[i]];
        assert Members(cut[..i + 1]) == Members(cut[..i]) + {cut[i]};
        rows := rows - {cut[i]};
      }
      assert cut[..|cut|] == cut;
    }

    method CutAll(game: string, owners: set<string>)
      modifies this
      ensures rows == Trimmed(old(rows), game, owners)
    {
      var todo := owners;
      ghost var done: set<string> := {};
      while todo != {}
        invariant done + todo == owners && done !! todo
        invariant rows == Trimmed(old(rows), game, done)
        decreases todo
      {
        var owner :| owner in todo;
        TrimOneMore(old(rows), game, done, owner);
        todo, done := todo - {owner}, done + {owner};
        Cut(owner, game);
      }
      assert done == owners;
    }

    method Record(game: string, personas: seq<(string, string)>, now: real)
      modifies this
      ensures rows == Recorded(old(rows), game, personas, now)
    {
      var names := Names(personas);
      if |names| >= 2 {
        Meet(game, names, now);
        CutAll(game, names.Keys);
      }
    }

    /** The names of a list, best first, at most fifty. */
    method Snapshot(owner: string, game: string) returns (displays: seq<string>)
      ensures exists keys :: Listing(rows, owner, game, keys) && Shows(rows, keys, displays)
    {
      var keys := List(owner, game);
      assert forall i :: 0 <= i < |keys| ==> keys[i] in keys;
      displays := [];
      for i := 0 to if |keys| <= LIMIT then |keys| else LIMIT
        invariant Shows(rows, keys[..i], displays)
      {
        assert keys[..i + 1][..i] == keys[..i];
        displays := displays + [rows[keys[i]].display];
      }
      assert Shows(rows, keys, displays);
    }
  }
}
