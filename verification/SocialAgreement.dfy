/** The two implementations of the social relations agree, on every run for which they can. */
module SocialAgreement {
  import opened SocialGraph

  type Personas = map<Key, int>

  /** The unique display-name key and the primary key of the personas table. */
  ghost predicate ProperTable(personas: Personas) {
    "" !in personas && forall a, b :: a in personas && b in personas && personas[a] == personas[b] ==> a == b
  }

  predicate PairRepresented(personas: Personas, g: Graph, t: Table, a: Key, b: Key) {
    if a in personas && b in personas then
      && (HasFriend(g, a, b) <==> Row(personas[a], personas[b], Friend) in t)
      && ((a, b) in g.pending <==> Row(personas[a], personas[b], Pending) in t)
      && (HasBlocked(g, a, b) <==> Row(personas[a], personas[b], Block) in t)
    else !HasFriend(g, a, b) && (a, b) !in g.pending && !HasBlocked(g, a, b)
  }

  /** The dictionaries and the table hold the same relations, all between registered personas. */
  ghost predicate Represents(personas: Personas, g: Graph, t: Table) {
    && (forall a, b :: PairRepresented(personas, g, t, a, b))
    && (forall row :: row in t ==> row.source in personas.Values && row.target in personas.Values)
  }

  /** Operations that both implementations must answer alike: the guards of the table's `target_not_found`. */
  predicate Comparable(personas: Personas, op: Operation) {
    || op.Remove?
    || op.owner == "" || op.target == ""
    || ((op.Request? || op.SetBlocked?) && op.owner == op.target)
    || (op.owner in personas && op.target in personas)
  }

  lemma RowsAfterAsking(personas: Personas, g: Graph, t: Table, op: Operation, a: Key, b: Key)
    requires ProperTable(personas) && Consistent(g) && Represents(personas, g, t)
    requires a in personas && b in personas && op.owner in personas && op.target in personas
    requires op.Request? || op.Respond?
    ensures var (h, r) := GraphStep(g, op);
      var u := TableStep(personas, t, op).0;
      && TableStep(personas, t, op).1 == r
      && (Row(personas[a], personas[b], Friend) in u <==> FriendAfter(g, op, r, a, b))
      && (Row(personas[a], personas[b], Pending) in u <==> PendingAfter(g, op, r, a, b))
      && (Row(personas[a], personas[b], Block) in u <==> BlockedAfter(g, op, r, a, b))
  {
    var (x, y) := (op.owner, op.target);
    assert ConsistentPair(g, x, y) && ConsistentPair(g, y, x);
    assert PairRepresented(personas, g, t, x, y) && PairRepresented(personas, g, t, y, x);
    assert PairRepresented(personas, g, t, a, b);
  }

  lemma RowsAfterRemoving(personas: Personas, g: Graph, t: Table, op: Operation, a: Key, b: Key)
    requires ProperTable(personas) && Consistent(g) && Represents(personas, g, t)
    requires a in personas && b in personas && op.owner in personas && op.target in personas
    requires op.Remove? || op.SetBlocked?
    ensures var (h, r) := GraphStep(g, op);
      var u := TableStep(personas, t, op).0;
      && TableStep(personas, t, op).1 == r
      && (Row(personas[a], personas[b], Friend) in u <==> FriendAfter(g, op, r, a, b))
      && (Row(personas[a], personas[b], Pending) in u <==> PendingAfter(g, op, r, a, b))
      && (Row(personas[a], personas[b], Block) in u <==> BlockedAfter(g, op, r, a, b))
  {
    var (x, y) := (op.owner, op.target);
    assert ConsistentPair(g, x, y) && ConsistentPair(g, y, x);
    assert PairRepresented(personas, g, t, x, y) && PairRepresented(personas, g, t, y, x);
    assert PairRepresented(personas, g, t, a, b);
    DoomedRows(t, personas[x], personas[y]);
  }

  /** The rows after a step, pair by pair. */
  lemma RowsAfter(personas: Personas, g: Graph, t: Table, op: Operation, a: Key, b: Key)
    requires ProperTable(personas) && Consistent(g) && Represents(personas, g, t)
    requires a in personas && b in personas && op.owner in personas && op.target in personas
    ensures var (h, r) := GraphStep(g, op);
      var u := TableStep(personas, t, op).0;
      && TableStep(personas, t, op).1 == r
      && (Row(personas[a], personas[b], Friend) in u <==> FriendAfter(g, op, r, a, b))
      && (Row(personas[a], personas[b], Pending) in u <==> PendingAfter(g, op, r, a, b))
      && (Row(personas[a], personas[b], Block) in u <==> BlockedAfter(g, op, r, a, b))
  {
    if op.Request? || op.Respond? {
      RowsAfterAsking(personas, g, t, op, a, b);
    } else {
      RowsAfterRemoving(personas, g, t, op, a, b);
    }
  }

  lemma DoomedRows(t: Table, x: int, y: int)
    ensures t * Links(x, y) != {} <==>
      Row(x, y, Friend) in t || Row(y, x, Friend) in t || Row(x, y, Pending) in t || Row(y, x, Pending) in t
  {
    if t * Links(x, y) != {} {
      var row :| row in t * Links(x, y);
    }
    assert forall row :: row in t && row in Links(x, y) ==> row in t * Links(x, y);
  }

  lemma StaysRepresented(personas: Personas, g: Graph, t: Table, op: Operation)
    requires ProperTable(personas) && Consistent(g) && Represents(personas, g, t)
    requires Comparable(personas, op)
    ensures GraphStep(g, op).1 == TableStep(personas, t, op).1
    ensures Represents(personas, GraphStep(g, op).0, TableStep(personas, t, op).0)
  {
    var (x, y) := (op.owner, op.target);
    var (h, r) := GraphStep(g, op);
    var u := TableStep(personas, t, op).0;
    PairAfter(g, op);
    if x in personas && y in personas {
      RowsAfter(personas, g, t, op, x, y);
      forall a, b ensures PairRepresented(personas, h, u, a, b) {
        assert PairRepresented(personas, g, t, a, b);
        if a in personas && b in personas {
          RowsAfter(personas, g, t, op, a, b);
        }
      }
      assert personas[x] in personas.Values && personas[y] in personas.Values;
    } else {
      assert PairRepresented(personas, g, t, x, y) && PairRepresented(personas, g, t, y, x);
      forall a, b ensures PairRepresented(personas, h, u, a, b) {
        assert PairRepresented(personas, g, t, a, b);
      }
    }
  }

  /** A single step is answered alike exactly when it is comparable. */
  lemma StepAgreesIff(personas: Personas, g: Graph, t: Table, op: Operation)
    requires ProperTable(personas) && Consistent(g) && Represents(personas, g, t)
    ensures GraphStep(g, op).1 == TableStep(personas, t, op).1 <==> Comparable(personas, op)
  {
    var (x, y) := (op.owner, op.target);
    if Comparable(personas, op) {
      StaysRepresented(personas, g, t, op);
    } else {
      assert PairRepresented(personas, g, t, x, y) && PairRepresented(personas, g, t, y, x);
    }
  }

  // ----- runs

  function RunGraph(g: Graph, ops: seq<Operation>): Graph
    decreases |ops|
  {
    if ops == [] then g else RunGraph(GraphStep(g, ops[0]).0, ops[1..])
  }

  function RunTable(personas: Personas, t: Table, ops: seq<Operation>): Table
    decreases |ops|
  {
    if ops == [] then t else RunTable(personas, TableStep(personas, t, ops[0]).0, ops[1..])
  }

  function GraphResults(g: Graph, ops: seq<Operation>): seq<RelationResult>
    decreases |ops|
  {
    if ops == [] then [] else [GraphStep(g, ops[0]).1] + GraphResults(GraphStep(g, ops[0]).0, ops[1..])
  }

  function TableResults(personas: Personas, t: Table, ops: seq<Operation>): seq<RelationResult>
    decreases |ops|
  {
    if ops == [] then []
    else [TableStep(personas, t, ops[0]).1] + TableResults(personas, TableStep(personas, t, ops[0]).0, ops[1..])
  }

  predicate AllComparable(personas: Personas, ops: seq<Operation>) {
    forall k :: 0 <= k < |ops| ==> Comparable(personas, ops[k])
  }

  lemma {:induction false} RunsAgreeFrom(personas: Personas, g: Graph, t: Table, ops: seq<Operation>)
    requires ProperTable(personas) && Consistent(g) && Represents(personas, g, t)
    ensures Consistent(RunGraph(g, ops))
    ensures GraphResults(g, ops) == TableResults(personas, t, ops) <==> AllComparable(personas, ops)
    ensures AllComparable(personas, ops) ==> Represents(personas, RunGraph(g, ops), RunTable(personas, t, ops))
    decreases |ops|
  {
    if ops != [] {
      var (h, u) := (GraphStep(g, ops[0]).0, TableStep(personas, t, ops[0]).0);
      StaysConsistent(g, ops[0]);
      StepAgreesIff(personas, g, t, ops[0]);
      if Comparable(personas, ops[0]) {
        StaysRepresented(personas, g, t, ops[0]);
        RunsAgreeFrom(personas, h, u, ops[1..]);
        assert AllComparable(personas, ops) <==> AllComparable(personas, ops[1..]) by {
          assert forall k :: 0 <= k < |ops| - 1 ==> ops[1..][k] == ops[k + 1];
          assert forall k :: 1 <= k < |ops| ==> ops[k] == ops[1..][k - 1];
        }
        assert GraphResults(g, ops)[1..] == GraphResults(h, ops[1..]);
        assert TableResults(personas, t, ops)[1..] == TableResults(personas, u, ops[1..]);
      } else {
        RunIsConsistent(h, ops[1..]);
        assert GraphResults(g, ops)[0] != TableResults(personas, t, ops)[0];
      }
    }
  }

  lemma {:induction false} RunIsConsistent(g: Graph, ops: seq<Operation>)
    requires Consistent(g)
    ensures Consistent(RunGraph(g, ops))
    decreases |ops|
  {
    if ops != [] {
      StaysConsistent(g, ops[0]);
      RunIsConsistent(GraphStep(g, ops[0]).0, ops[1..]);
    }
  }

  /**
   From empty relations, a run gets the same answers from the dictionaries and from the
   table if and only if every operation is comparable; then they hold the same relations
   at the end.  Every reachable graph is consistent.
   */
  lemma RunsAgree(personas: Personas, ops: seq<Operation>)
    requires ProperTable(personas)
    ensures Consistent(RunGraph(EMPTY_GRAPH, ops))
    ensures GraphResults(EMPTY_GRAPH, ops) == TableResults(personas, {}, ops) <==> AllComparable(personas, ops)
    ensures AllComparable(personas, ops) ==>
      Represents(personas, RunGraph(EMPTY_GRAPH, ops), RunTable(personas, {}, ops))
  {
    RunsAgreeFrom(personas, EMPTY_GRAPH, {}, ops);
  }

  /** The delivery filter reads the same from both. */
  lemma BlocksAgree(personas: Personas, ops: seq<Operation>, a: Key, b: Key)
    requires ProperTable(personas) && AllComparable(personas, ops)
    ensures IsBlocked(RunGraph(EMPTY_GRAPH, ops), a, b) <==>
      && a in personas && b in personas
      && (Row(personas[a], personas[b], Block) in RunTable(personas, {}, ops)
          || Row(personas[b], personas[a], Block) in RunTable(personas, {}, ops))
  {
    RunsAgree(personas, ops);
    assert PairRepresented(personas, RunGraph(EMPTY_GRAPH, ops), RunTable(personas, {}, ops), a, b);
    assert PairRepresented(personas, RunGraph(EMPTY_GRAPH, ops), RunTable(personas, {}, ops), b, a);
  }
}
