/** Exactly when all reports and the finish signals agree on an order (server/carbon/gamemanager/results.py). */
module RaceConsensus {
  import opened Collections
  import opened Options
  import opened RaceResults
  import opened RaceRuns
  import opened RaceFinal

  // ----- the signals

  /** In the order, a car that signalled comes before every car that did not, and before those that signalled later. */
  ghost predicate SignalsFirst(finished: seq<Car>, order: seq<Car>) {
    forall i, j :: 0 <= i < |order| && 0 <= j < |order| && i != j && Earlier(finished, order[i], order[j]) ==> i < j
  }

  predicate Earlier(finished: seq<Car>, a: Car, b: Car) {
    a in finished && (b !in finished || RankIn(finished, a) < RankIn(finished, b))
  }

  lemma RankInLonger(order: seq<Car>, last: Car, car: Car)
    requires car != last
    ensures RankIn(order + [last], car) == RankIn(order, car)
  {
    assert (order + [last])[..|order|] == order;
  }

  /** Each car stands later in the order than those before it. */
  ghost predicate Rising(order: seq<Car>, cars: seq<Car>) {
    forall i, j :: 0 <= i < j < |cars| ==> RankIn(order, cars[i]) < RankIn(order, cars[j])
  }

  lemma {:induction false} ObservedIs(finished: seq<Car>, among: seq<Car>)
    requires NoRepeats(finished)
    ensures NoRepeats(Observed(finished, among))
    ensures forall c :: c in Observed(finished, among) <==> c in finished && c in among
    ensures Rising(finished, Observed(finished, among))
  {
    if finished != [] {
      var (init, last) := (finished[..|finished| - 1], finished[|finished| - 1]);
      assert finished == init + [last] && last !in init;
      ObservedIs(init, among);
      var (o, all) := (Observed(init, among), Observed(finished, among));
      assert all == o + if last in among then [last] else [];
      assert o + [] == o;
      forall i | 0 <= i < |o| ensures RankIn(finished, o[i]) == RankIn(init, o[i]) <= |init| {
        assert o[i] in o;
        RankInLonger(init, last, o[i]);
      }
      assert RankIn(finished, last) == |finished|;
      forall i, j | 0 <= i < j < |all| ensures RankIn(finished, all[i]) < RankIn(finished, all[j]) {
        assert all[i] == o[i] && all[j] == if j < |o| then o[j] else last;
        if j < |o| {
          assert RankIn(init, o[i]) < RankIn(init, o[j]);
          assert RankIn(finished, o[j]) == RankIn(init, o[j]);
        } else {
          assert RankIn(finished, o[i]) <= |init|;
          assert RankIn(finished, all[j]) == |finished|;
        }
      }
    }
  }

  /** The signals of an order are its beginning exactly when they come first in it. */
  lemma SignalsFirstIff(finished: seq<Car>, order: seq<Car>)
    requires NoRepeats(finished) && NoRepeats(order)
    ensures Observed(finished, order) <= order <==> SignalsFirst(finished, order)
  {
    var o := Observed(finished, order);
    ObservedIs(finished, order);
    if o <= order {
      forall i, j | 0 <= i < |order| && 0 <= j < |order| && i != j && Earlier(finished, order[i], order[j])
        ensures i < j
      {
        PrefixPosition(finished, order, i, j);
      }
    }
    if SignalsFirst(finished, order) {
      BeginningOf(finished, order, |o|);
    }
  }

  lemma PrefixPosition(finished: seq<Car>, order: seq<Car>, i: nat, j: nat)
    requires NoRepeats(finished) && NoRepeats(order) && i < |order| && j < |order| && i != j
    requires Observed(finished, order) <= order && Earlier(finished, order[i], order[j])
    ensures i < j
  {
    var o := Observed(finished, order);
    ObservedIs(finished, order);
    assert order[i] in o;
    var k :| 0 <= k < |o| && o[k] == order[i];
    assert order[k] == o[k];
    forall l | 0 <= l < |o| ensures order[l] == o[l] && order[l] in finished {
      assert o[l] in o;
    }
    if order[j] in finished {
      assert order[j] in o;
      var l :| 0 <= l < |o| && o[l] == order[j];
    }
  }

  lemma {:induction false} BeginningOf(finished: seq<Car>, order: seq<Car>, k: nat)
    requires NoRepeats(finished) && NoRepeats(order) && SignalsFirst(finished, order)
    requires k <= |Observed(finished, order)|
    ensures k <= |order| && Observed(finished, order)[..k] == order[..k]
  {
    var o := Observed(finished, order);
    ObservedIs(finished, order);
    if k > 0 {
      BeginningOf(finished, order, k - 1);
      var j := PlaceOfNext(finished, order, k - 1);
      NextInOrder(finished, order, k - 1, j);
      assert o[..k] == o[..k - 1] + [o[k - 1]] && order[..k] == order[..k - 1] + [order[k - 1]];
    }
  }

  lemma PlaceOfNext(finished: seq<Car>, order: seq<Car>, k: nat) returns (j: nat)
    requires NoRepeats(finished) && k < |Observed(finished, order)| && k <= |order|
    requires Observed(finished, order)[..k] == order[..k]
    ensures k <= j < |order| && order[j] == Observed(finished, order)[k]
  {
    var o := Observed(finished, order);
    ObservedIs(finished, order);
    assert o[k] in o;
    j :| 0 <= j < |order| && order[j] == o[k];
    forall i | 0 <= i < k ensures order[i] != o[k] {
      assert o[..k][i] == order[..k][i];
    }
  }

  /** A car of both lists that is not among the first `k` is a later one. */
  lemma LaterObserved(finished: seq<Car>, order: seq<Car>, k: nat, c: Car) returns (i: nat)
    requires NoRepeats(finished) && k <= |order| && k <= |Observed(finished, order)|
    requires Observed(finished, order)[..k] == order[..k] && c in finished && c in order && c !in order[..k]
    ensures k <= i < |Observed(finished, order)| && Observed(finished, order)[i] == c
  {
    var o := Observed(finished, order);
    ObservedIs(finished, order);
    assert c in o;
    i :| 0 <= i < |o| && o[i] == c;
    assert forall l :: 0 <= l < k ==> o[l] == o[..k][l] && o[..k][l] in order[..k];
  }

  lemma NextInOrder(finished: seq<Car>, order: seq<Car>, k: nat, j: nat)
    requires NoRepeats(finished) && NoRepeats(order) && SignalsFirst(finished, order)
    requires k < |Observed(finished, order)| && k <= |order| && Observed(finished, order)[..k] == order[..k]
    requires k <= j < |order| && order[j] == Observed(finished, order)[k]
    ensures j == k
  {
    var (o, c) := (Observed(finished, order), order[k]);
    ObservedIs(finished, order);
    assert o[k] in o;
    if c in finished {
      var i := LaterObserved(finished, order, k, c);
    }
  }

  // ----- the reports

  /** The ranking that a profile reports of a car, 0 without one. */
  function ShownRank(t: Tracker, p: Profile, car: Car): int {
    if p !in t.reports || t.reports[p].RowForCar(car).None? then 0 else t.reports[p].RowForCar(car).value.ranking
  }

  /** All reporters give the car the ranking that the first one gives it. */
  predicate Agreed(t: Tracker, reporters: seq<Profile>, car: Car) {
    reporters != [] && AgreedRank(t, reporters, car, ShownRank(t, reporters[0], car))
  }

  /** All cars of the profiles, in the order of the rankings that every one of them reports, with the signals first. */
  ghost predicate Consensus(t: Tracker, profiles: seq<Profile>, order: seq<Car>) {
    && profiles != [] && AllBound(t, profiles) && AllReported(t, profiles)
    && NoRepeats(order)
    && (forall p :: p in profiles ==> t.carByProfile[p] in order)
    && (forall c :: c in order ==> exists p :: p in profiles && t.carByProfile[p] == c)
    && ByRank(t, profiles, order)
    && SignalsFirst(t.finishOrder, order)
  }

  ghost predicate ByRank(t: Tracker, profiles: seq<Profile>, order: seq<Car>)
    requires profiles != []
  {
    && (forall i :: 0 <= i < |order| ==> Agreed(t, profiles, order[i]))
    && forall i, j :: 0 <= i < j < |order| ==>
         ShownRank(t, profiles[0], order[i]) < ShownRank(t, profiles[0], order[j])
  }

  lemma AgreedRankIs(t: Tracker, reporters: seq<Profile>, car: Car, rank: int)
    requires reporters != []
    ensures AgreedRank(t, reporters, car, rank) <==>
      Agreed(t, reporters, car) && rank == ShownRank(t, reporters[0], car)
  {
    assert reporters[0] in reporters;
  }

  /** An order found by the loops is a consensus. */
  lemma FoundIsConsensus(t: Tracker, profiles: seq<Profile>)
    requires Valid(t) && RankedReportOrder(t, profiles).Some?
    ensures Consensus(t, Deduplicated(profiles), RankedReportOrder(t, profiles).value)
  {
    var expected := Deduplicated(profiles);
    OrderJustified(t, profiles);
    var pairs := RankPairs(t, expected, expected).value;
    PairsRepeatNothing(t, expected);
    PairsMembers(t, expected, pairs);
    PairsByRank(t, expected, pairs);
    SortedCarsDiffer(pairs);
    SameCars(pairs);
    ObservedDependsOnMembers(t.finishOrder, Cars(pairs), Cars(Sorted(pairs)));
    SignalsFirstIff(t.finishOrder, Cars(Sorted(pairs)));
  }

  lemma SameCars(pairs: seq<(Car, int)>)
    requires DistinctRanks(pairs)
    ensures forall c :: c in Cars(pairs) <==> c in Cars(Sorted(pairs))
  {
    SortedAscends(pairs);
    CarsMembers(pairs, Sorted(pairs));
    CarsMembers(Sorted(pairs), pairs);
  }

  lemma PairsMembers(t: Tracker, expected: seq<Profile>, pairs: seq<(Car, int)>)
    requires Justified(t, expected, pairs)
    ensures forall p :: p in expected ==> t.carByProfile[p] in Cars(Sorted(pairs))
    ensures forall c :: c in Cars(Sorted(pairs)) ==> exists p :: p in expected && t.carByProfile[p] == c
  {
    SameCars(pairs);
    forall p | p in expected ensures t.carByProfile[p] in Cars(pairs) {
      var k :| 0 <= k < |expected| && expected[k] == p;
      assert Cars(pairs)[k] == t.carByProfile[p];
    }
    forall c | c in Cars(pairs) ensures exists p :: p in expected && t.carByProfile[p] == c {
      var k :| 0 <= k < |pairs| && Cars(pairs)[k] == c;
      assert expected[k] in expected;
    }
  }

  lemma PairsByRank(t: Tracker, expected: seq<Profile>, pairs: seq<(Car, int)>)
    requires Justified(t, expected, pairs)
    ensures ByRank(t, expected, Cars(Sorted(pairs)))
  {
    var (sorted, order) := (Sorted(pairs), Cars(Sorted(pairs)));
    SortedAscends(pairs);
    forall i | 0 <= i < |order|
      ensures Agreed(t, expected, order[i]) && sorted[i].1 == ShownRank(t, expected[0], order[i])
    {
      assert sorted[i] in pairs;
      var k :| 0 <= k < |pairs| && pairs[k] == sorted[i];
      AgreedRankIs(t, expected, pairs[k].0, pairs[k].1);
    }
  }

  /** The cars of an order with the ranks they are agreed on. */
  function RankedCars(t: Tracker, profiles: seq<Profile>, order: seq<Car>): (pairs: seq<(Car, int)>)
    requires profiles != []
    ensures |pairs| == |order|
  {
    seq(|order|, i requires 0 <= i < |order| => (order[i], ShownRank(t, profiles[0], order[i])))
  }

  /** A consensus is what the loops find. */
  lemma ConsensusIsFound(t: Tracker, profiles: seq<Profile>, order: seq<Car>)
    requires Valid(t) && NoRepeats(profiles) && Consensus(t, profiles, order)
    ensures RankPairs(t, profiles, profiles).Some?
    ensures var pairs := RankPairs(t, profiles, profiles).value;
      DistinctRanks(pairs) && Cars(Sorted(pairs)) == order && Observed(t.finishOrder, Cars(pairs)) <= order
  {
    EveryoneAgreed(t, profiles, order);
    var pairs := RankPairs(t, profiles, profiles).value;
    RankPairsAre(t, profiles, profiles);
    PairsAgreed(t, profiles, pairs);
    RanksApart(t, profiles, order, pairs);
    SortedIsOrder(t, profiles, order, pairs);
    SameCars(pairs);
    ObservedDependsOnMembers(t.finishOrder, Cars(pairs), order);
    SignalsFirstIff(t.finishOrder, order);
  }

  lemma EveryoneAgreed(t: Tracker, profiles: seq<Profile>, order: seq<Car>)
    requires Consensus(t, profiles, order)
    ensures RankPairs(t, profiles, profiles).Some?
  {
    RankPairsAre(t, profiles, profiles);
    forall p | p in profiles ensures CommonRank(t, profiles, t.carByProfile[p]).Some? {
      var car := t.carByProfile[p];
      var i :| 0 <= i < |order| && order[i] == car;
      CommonRankIsAgreed(t, profiles, car, ShownRank(t, profiles[0], car));
    }
  }

  /** The pairs hold every profile's car with its agreed rank. */
  ghost predicate PairsOf(t: Tracker, profiles: seq<Profile>, pairs: seq<(Car, int)>) {
    && profiles != [] && AllBound(t, profiles) && |pairs| == |profiles|
    && forall k :: 0 <= k < |profiles| ==>
         pairs[k].0 == t.carByProfile[profiles[k]] && pairs[k].1 == ShownRank(t, profiles[0], pairs[k].0)
  }

  lemma PairsAgreed(t: Tracker, profiles: seq<Profile>, pairs: seq<(Car, int)>)
    requires profiles != [] && AllReported(t, profiles) && AllBound(t, profiles) && |pairs| == |profiles|
    requires forall k :: 0 <= k < |profiles| ==>
      pairs[k].0 == t.carByProfile[profiles[k]] && CommonRank(t, profiles, pairs[k].0) == Some(pairs[k].1)
    ensures PairsOf(t, profiles, pairs)
  {
    forall k | 0 <= k < |profiles| ensures pairs[k].1 == ShownRank(t, profiles[0], pairs[k].0) {
      CommonRankIsAgreed(t, profiles, pairs[k].0, pairs[k].1);
      AgreedRankIs(t, profiles, pairs[k].0, pairs[k].1);
    }
  }

  lemma SortedIsOrder(t: Tracker, profiles: seq<Profile>, order: seq<Car>, pairs: seq<(Car, int)>)
    requires Consensus(t, profiles, order) && PairsOf(t, profiles, pairs) && DistinctRanks(pairs)
    ensures Cars(Sorted(pairs)) == order
  {
    var ranked := RankedCars(t, profiles, order);
    SortedAscends(pairs);
    PairsAreRanked(t, profiles, order, pairs);
    RankedArePairs(t, profiles, order, pairs);
    AscendingUnique(Sorted(pairs), ranked);
    assert Cars(ranked) == order;
  }

  lemma PairsAreRanked(t: Tracker, profiles: seq<Profile>, order: seq<Car>, pairs: seq<(Car, int)>)
    requires Consensus(t, profiles, order) && PairsOf(t, profiles, pairs)
    ensures forall q :: q in pairs ==> q in RankedCars(t, profiles, order)
  {
    var ranked := RankedCars(t, profiles, order);
    forall k | 0 <= k < |pairs| ensures pairs[k] in ranked {
      assert profiles[k] in profiles;
      var i :| 0 <= i < |order| && order[i] == pairs[k].0;
      assert ranked[i] == pairs[k];
    }
  }

  lemma RankedArePairs(t: Tracker, profiles: seq<Profile>, order: seq<Car>, pairs: seq<(Car, int)>)
    requires Consensus(t, profiles, order) && PairsOf(t, profiles, pairs)
    ensures forall q :: q in RankedCars(t, profiles, order) ==> q in pairs
  {
    var ranked := RankedCars(t, profiles, order);
    forall i | 0 <= i < |ranked| ensures ranked[i] in pairs {
      assert order[i] in order;
      var p :| p in profiles && t.carByProfile[p] == order[i];
      var k :| 0 <= k < |profiles| && profiles[k] == p;
      assert pairs[k] == ranked[i];
    }
  }

  lemma RanksApart(t: Tracker, profiles: seq<Profile>, order: seq<Car>, pairs: seq<(Car, int)>)
    requires Valid(t) && NoRepeats(profiles) && Consensus(t, profiles, order) && PairsOf(t, profiles, pairs)
    ensures DistinctRanks(pairs)
  {
    forall i, j | 0 <= i < j < |pairs| ensures pairs[i].1 != pairs[j].1 {
      assert profiles[i] in profiles && profiles[j] in profiles;
      assert pairs[i].0 != pairs[j].0;
      var k :| 0 <= k < |order| && order[k] == pairs[i].0;
      var l :| 0 <= l < |order| && order[l] == pairs[j].0;
    }
  }

  /** The loops find an order exactly when it is the consensus of the participants. */
  lemma UnanimousIff(t: Tracker, profiles: seq<Profile>, order: seq<Car>)
    requires Valid(t)
    ensures RankedReportOrder(t, profiles) == Some(order) <==> Consensus(t, Deduplicated(profiles), order)
  {
    if RankedReportOrder(t, profiles) == Some(order) {
      FoundIsConsensus(t, profiles);
    }
    if Consensus(t, Deduplicated(profiles), order) {
      ConsensusIsFound(t, Deduplicated(profiles), order);
    }
  }
}
