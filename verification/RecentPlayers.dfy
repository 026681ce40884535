/** The bounded history of encounters (server/common/recent_players.py, in-memory branch). */
module RecentPlayers {
  import opened Collections

  const LIMIT := 50

  // ----- the order of strings by code point

  predicate Less(a: string, b: string) {
    b != "" && (a == "" || a[0] < b[0] || (a[0] == b[0] && Less(a[1..], b[1..])))
  }

  lemma {:induction false} LessTotal(a: string, b: string)
    ensures a != b ==> Less(a, b) || Less(b, a)
    ensures !(Less(a, b) && Less(b, a)) && !Less(a, a)
  {
    if a != "" && b != "" {
      LessTotal(a[1..], b[1..]);
      if a[0] == b[0] && a[1..] == b[1..] {
        assert a == [a[0]] + a[1..] && b == [b[0]] + b[1..];
      }
    }
    if a != "" {
      LessTotal(a[1..], a[1..]);
    }
  }

  lemma {:induction false} LessTransitive(a: string, b: string, c: string)
    requires Less(a, b) && Less(b, c)
    ensures Less(a, c)
  {
    if a != "" && a[0] == b[0] == c[0] {
      LessTransitive(a[1..], b[1..], c[1..]);
    }
  }

  // ----- rows

  datatype Key = Key(owner: string, game: string, target: string)
  datatype Row = Row(display: string, seen: real)
  type Rows = map<Key, Row>

  /** The folded persona names of one encounter with their displays; a later display wins. */
  function Names(personas: seq<(string, string)>): map<string, string> {
    if personas == [] then map[]
    else
      var (key, display) := personas[|personas| - 1];
      var before := Names(personas[..|personas| - 1]);
      if display == "" then before else before[key := display]
  }

  predicate Meets(game: string, names: map<string, string>, k: Key) {
    k.game == game && k.owner in names && k.target in names && k.owner != k.target
  }

  function NewKeys(game: string, names: map<string, string>): set<Key> {
    set o, t | o in names && t in names && o != t :: Key(o, game, t)
  }

  /** Everybody has met everybody else, now. */
  function Added(rows: Rows, game: string, names: map<string, string>, now: real): Rows {
    map k | k in rows.Keys + NewKeys(game, names) ::
      if Meets(game, names, k) then Row(names[k.target], now) else rows[k]
  }

  /** `j` comes before `k` in the recent list they share. */
  predicate Better(rows: Rows, j: Key, k: Key)
    requires j in rows && k in rows
  {
    && j.owner == k.owner && j.game == k.game
    && (rows[j].seen > rows[k].seen || (rows[j].seen == rows[k].seen && Less(j.target, k.target)))
  }

  function BetterKeys(rows: Rows, k: Key): set<Key>
    requires k in rows
  {
    set j | j in rows && Better(rows, j, k)
  }

  function Rank(rows: Rows, k: Key): nat
    requires k in rows
  {
    |BetterKeys(rows, k)|
  }

  /** The rows left when each owner of the encounter keeps only the best of the game's list. */
  function Trimmed(rows: Rows, game: string, owners: set<string>): Rows {
    map k | k in rows && (k.game == game && k.owner in owners ==> Rank(rows, k) < LIMIT) :: rows[k]
  }

  function Recorded(rows: Rows, game: string, personas: seq<(string, string)>, now: real): Rows {
    var names := Names(personas);
    if |names| < 2 then rows else Trimmed(Added(rows, game, names, now), game, names.Keys)
  }

  /** The same encounter in a history that forgets nothing. */
  function Remembered(rows: Rows, game: string, personas: seq<(string, string)>, now: real): Rows {
    var names := Names(personas);
    if |names| < 2 then rows else Added(rows, game, names, now)
  }

  /** The best of every list of a full history. */
  function Best(rows: Rows): Rows {
    map k | k in rows && Rank(rows, k) < LIMIT :: rows[k]
  }

  // ----- facts about the order

  lemma BetterTotal(rows: Rows, j: Key, k: Key)
    requires j in rows && k in rows && j.owner == k.owner && j.game == k.game
    ensures j != k ==> Better(rows, j, k) || Better(rows, k, j)
    ensures !(Better(rows, j, k) && Better(rows, k, j))
  {
    LessTotal(j.target, k.target);
  }

  lemma BetterTransitive(rows: Rows, i: Key, j: Key, k: Key)
    requires i in rows && j in rows && k in rows && Better(rows, i, j) && Better(rows, j, k)
    ensures Better(rows, i, k)
  {
    if Less(i.target, j.target) && Less(j.target, k.target) {
      LessTransitive(i.target, j.target, k.target);
    }
  }

  predicate OneList(rows: Rows, keys: set<Key>, owner: string, game: string) {
    forall k :: k in keys ==> k in rows && k.owner == owner && k.game == game
  }

  lemma {:induction false} Worst(rows: Rows, keys: set<Key>, owner: string, game: string) returns (m: Key)
    requires keys != {} && OneList(rows, keys, owner, game)
    ensures m in keys && forall k :: k in keys ==> !Better(rows, m, k)
    decreases |keys|
  {
    var x :| x in keys;
    m := x;
    BetterTotal(rows, x, x);
    if keys != {x} {
      var w := Worst(rows, keys - {x}, owner, game);
      BetterTotal(rows, w, x);
      if Better(rows, w, x) {
        forall k | k in keys ensures !Better(rows, x, k) {
          if k != x && Better(rows, x, k) {
            BetterTransitive(rows, w, x, k);
          }
        }
      } else {
        m := w;
      }
    }
  }

  function BetterWithin(rows: Rows, keys: set<Key>, v: Key): set<Key>
    requires v in rows && forall k :: k in keys ==> k in rows
  {
    set w | w in keys && Better(rows, w, v)
  }

  /** Any list of at least `n` rows has `n` rows with fewer than `n` better ones in it. */
  lemma {:induction false} TopOf(rows: Rows, keys: set<Key>, owner: string, game: string, n: nat)
      returns (top: set<Key>)
    requires |keys| >= n && OneList(rows, keys, owner, game)
    ensures top <= keys && |top| == n
    ensures forall v :: v in top ==> |BetterWithin(rows, keys, v)| < n
    decreases |keys|
  {
    if |keys| == n {
      top := keys;
      forall v | v in top ensures |BetterWithin(rows, keys, v)| < n {
        BetterTotal(rows, v, v);
        SubsetSize(BetterWithin(rows, keys, v), keys - {v});
      }
    } else {
      var m := Worst(rows, keys, owner, game);
      top := TopOf(rows, keys - {m}, owner, game, n);
      forall v | v in top ensures |BetterWithin(rows, keys, v)| < n {
        assert BetterWithin(rows, keys, v) == BetterWithin(rows, keys - {m}, v);
      }
    }
  }

  // ----- one encounter

  ghost predicate NotAfter(rows: Rows, now: real) {
    forall k :: k in rows ==> rows[k].seen <= now
  }

  lemma AddedKeys(rows: Rows, game: string, names: map<string, string>, now: real, k: Key)
    ensures k in Added(rows, game, names, now) <==> k in rows || Meets(game, names, k)
  {
    if Meets(game, names, k) {
      assert k == Key(k.owner, game, k.target) && k in NewKeys(game, names);
    }
  }

  /** An encounter never lets an old row climb: whoever was better than it still is. */
  lemma OldRankGrows(rows: Rows, game: string, names: map<string, string>, now: real, k: Key)
    requires NotAfter(rows, now) && k in rows && !Meets(game, names, k)
    ensures k in Added(rows, game, names, now)
    ensures Rank(rows, k) <= Rank(Added(rows, game, names, now), k)
  {
    var after := Added(rows, game, names, now);
    AddedKeys(rows, game, names, now, k);
    forall j | j in BetterKeys(rows, k) ensures j in BetterKeys(after, k) {
      AddedKeys(rows, game, names, now, j);
    }
    SubsetSize(BetterKeys(rows, k), BetterKeys(after, k));
  }

  /** Adding to the best rows only gives a part of what adding to all rows gives. */
  lemma AddedPart(full: Rows, game: string, names: map<string, string>, now: real, k: Key)
    requires k in Added(Best(full), game, names, now)
    ensures k in Added(full, game, names, now)
    ensures Added(full, game, names, now)[k] == Added(Best(full), game, names, now)[k]
  {
    AddedKeys(Best(full), game, names, now, k);
    AddedKeys(full, game, names, now, k);
  }

  lemma PartRank(part: Rows, full: Rows, k: Key)
    requires k in part && forall j :: j in part ==> j in full && full[j] == part[j]
    ensures Rank(part, k) <= Rank(full, k)
  {
    assert BetterKeys(part, k) <= BetterKeys(full, k);
    SubsetSize(BetterKeys(part, k), BetterKeys(full, k));
  }

  /** Every row that is among the best after the encounter was kept, or is new. */
  lemma BestSurvives(full: Rows, game: string, names: map<string, string>, now: real, k: Key)
    requires NotAfter(full, now)
    requires k in Added(full, game, names, now) && Rank(Added(full, game, names, now), k) < LIMIT
    ensures k in Added(Best(full), game, names, now)
  {
    AddedKeys(full, game, names, now, k);
    AddedKeys(Best(full), game, names, now, k);
    if !Meets(game, names, k) {
      OldRankGrows(full, game, names, now, k);
    }
  }

  /** A row outside the best of the full history has fifty better ones in the bounded one as well. */
  lemma CrowdedOut(full: Rows, game: string, names: map<string, string>, now: real, k: Key)
    requires NotAfter(full, now)
    requires k in Added(Best(full), game, names, now)
    requires k in Added(full, game, names, now) && Rank(Added(full, game, names, now), k) >= LIMIT
    ensures Rank(Added(Best(full), game, names, now), k) >= LIMIT
  {
    var (after, part) := (Added(full, game, names, now), Added(Best(full), game, names, now));
    var better := BetterKeys(after, k);
    var top := TopOf(after, better, k.owner, k.game, LIMIT);
    forall v | v in top ensures v in BetterKeys(part, k) {
      forall w | w in BetterKeys(after, v) ensures w in BetterWithin(after, better, v) {
        BetterTransitive(after, w, v, k);
      }
      SubsetSize(BetterKeys(after, v), BetterWithin(after, better, v));
      BestSurvives(full, game, names, now, v);
      AddedPart(full, game, names, now, v);
      AddedPart(full, game, names, now, k);
    }
    SubsetSize(top, BetterKeys(part, k));
  }
}
