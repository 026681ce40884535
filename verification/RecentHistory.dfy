/** What the full history of encounters holds (server/common/recent_players.py). */
module RecentHistory {
  import opened RecentPlayers
  import opened RecentRuns

  /** The last persona with this key and a display. */
  ghost predicate LastDisplay(personas: seq<(string, string)>, key: string, display: string) {
    exists i :: 0 <= i < |personas| && personas[i] == (key, display) && display != ""
      && forall j :: i < j < |personas| ==> personas[j].0 != key || personas[j].1 == ""
  }

  lemma {:induction false} NamesAre(personas: seq<(string, string)>, key: string)
    ensures if key in Names(personas) then LastDisplay(personas, key, Names(personas)[key])
            else forall i :: 0 <= i < |personas| ==> personas[i].0 != key || personas[i].1 == ""
  {
    if personas != [] {
      var (init, last) := (personas[..|personas| - 1], personas[|personas| - 1]);
      NamesAre(init, key);
      assert forall i :: 0 <= i < |init| ==> init[i] == personas[i];
      if key in Names(personas) {
        if last.0 == key && last.1 != "" {
          assert personas[|personas| - 1] == (key, Names(personas)[key]);
        } else {
          var i :| 0 <= i < |init| && init[i] == (key, Names(init)[key]) && Names(init)[key] != ""
            && forall j :: i < j < |init| ==> init[j].0 != key || init[j].1 == "";
          assert personas[i] == (key, Names(personas)[key]);
        }
      }
    }
  }

  /** The two of the key take part in the encounter. */
  predicate MetIn(e: Encounter, k: Key) {
    Meets(e.game, Names(e.personas), k)
  }

  lemma RememberedIs(rows: Rows, e: Encounter, k: Key)
    ensures var after := Remembered(rows, e.game, e.personas, e.now);
      if MetIn(e, k) then k in after && after[k] == Row(Names(e.personas)[k.target], e.now)
      else (k in after <==> k in rows) && (k in after ==> after[k] == rows[k])
  {
    AddedKeys(rows, e.game, Names(e.personas), e.now, k);
    if MetIn(e, k) {
      assert {k.owner, k.target} <= Names(e.personas).Keys;
      AtLeastTwo(Names(e.personas).Keys, k.owner, k.target);
    }
  }

  lemma AtLeastTwo(keys: set<string>, a: string, b: string)
    requires a in keys && b in keys && a != b
    ensures |keys| >= 2
  {
    assert keys == {a, b} + (keys - {a, b});
    assert |{a, b}| == 2;
  }

  /** Encounter `i` is the last in which the two met. */
  ghost predicate LastMet(encounters: seq<Encounter>, i: nat, k: Key) {
    && i < |encounters| && MetIn(encounters[i], k)
    && forall j :: i < j < |encounters| ==> !MetIn(encounters[j], k)
  }

  /**
   The history holds a row for everybody that an owner met in a game, with the time and the
   display of their last encounter.
   */
  lemma {:induction false} HistoryIs(rows: Rows, encounters: seq<Encounter>, k: Key)
    ensures var after := RunFull(rows, encounters);
      && (k in after <==> k in rows || exists i: nat :: LastMet(encounters, i, k))
      && (forall i: nat :: LastMet(encounters, i, k) ==>
            after[k] == Row(Names(encounters[i].personas)[k.target], encounters[i].now))
      && (k in after && (forall i: nat :: !LastMet(encounters, i, k)) ==> after[k] == rows[k])
    decreases |encounters|
  {
    if encounters != [] {
      var (e, rest) := (encounters[0], encounters[1..]);
      var next := Remembered(rows, e.game, e.personas, e.now);
      RememberedIs(rows, e, k);
      HistoryIs(next, rest, k);
      forall i: nat ensures LastMet(encounters, i + 1, k) <==> LastMet(rest, i, k) {
        LastMetLater(encounters, i, k);
      }
      NoneLater(rest, k);
      LastMetFirst(encounters, k);
      if exists i: nat :: LastMet(rest, i, k) {
        var i: nat :| LastMet(rest, i, k);
        assert LastMet(encounters, i + 1, k);
      }
      if exists i: nat :: LastMet(encounters, i, k) {
        var i: nat :| LastMet(encounters, i, k);
        assert i > 0 ==> LastMet(rest, i - 1, k);
      }
      forall i: nat | LastMet(encounters, i, k)
        ensures RunFull(rows, encounters)[k] == Row(Names(encounters[i].personas)[k.target], encounters[i].now)
      {
        if i > 0 {
          assert LastMet(rest, i - 1, k) && rest[i - 1] == encounters[i];
        }
      }
    }
  }

  lemma LastMetLater(encounters: seq<Encounter>, i: nat, k: Key)
    requires encounters != []
    ensures LastMet(encounters, i + 1, k) <==> LastMet(encounters[1..], i, k)
  {
    var rest := encounters[1..];
    assert forall j :: 0 <= j < |rest| ==> rest[j] == encounters[j + 1];
    if LastMet(rest, i, k) {
      forall j | i + 1 < j < |encounters| ensures !MetIn(encounters[j], k) {
        assert encounters[j] == rest[j - 1];
      }
    }
  }

  lemma LastMetFirst(encounters: seq<Encounter>, k: Key)
    requires encounters != []
    ensures LastMet(encounters, 0, k) <==>
      MetIn(encounters[0], k) && forall j :: 0 <= j < |encounters[1..]| ==> !MetIn(encounters[1..][j], k)
  {
    var rest := encounters[1..];
    assert forall j :: 0 <= j < |rest| ==> rest[j] == encounters[j + 1];
    if MetIn(encounters[0], k) && forall j :: 0 <= j < |rest| ==> !MetIn(rest[j], k) {
      forall j | 0 < j < |encounters| ensures !MetIn(encounters[j], k) {
        assert encounters[j] == rest[j - 1];
      }
    }
  }

  lemma {:induction false} NoneLater(encounters: seq<Encounter>, k: Key)
    ensures (forall j :: 0 <= j < |encounters| ==> !MetIn(encounters[j], k))
       <==> !exists i: nat :: LastMet(encounters, i, k)
    decreases |encounters|
  {
    if encounters != [] {
      var (init, last) := (encounters[..|encounters| - 1], |encounters| - 1);
      NoneLater(init, k);
      if MetIn(encounters[last], k) {
        assert LastMet(encounters, last, k);
      } else {
        forall i: nat ensures LastMet(encounters, i, k) <==> LastMet(init, i, k) {
          assert forall j :: 0 <= j < |init| ==> init[j] == encounters[j];
        }
      }
    }
  }
}
