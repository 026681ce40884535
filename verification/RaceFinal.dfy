/**
 The unanimous report order does not depend on the order of the profiles, and a complete ranked
 race finalizes soundly.
 */
module RaceFinal {
  import opened Collections
  import opened Options
  import opened RaceResults
  import opened RaceRuns

  // ----- agreement among reporters

  lemma {:induction false} CommonRankIsAgreed(t: Tracker, reporters: seq<Profile>, car: Car, rank: int)
    requires reporters != [] && AllReported(t, reporters)
    ensures CommonRank(t, reporters, car) == Some(rank) <==> AgreedRank(t, reporters, car, rank)
    decreases |reporters|
  {
    var (init, last) := (reporters[..|reporters| - 1], reporters[|reporters| - 1]);
    assert forall r :: r in reporters <==> r in init || r == last;
    if init != [] {
      CommonRankIsAgreed(t, init, car, rank);
    }
  }

  lemma {:induction false} RankPairsAre(t: Tracker, reporters: seq<Profile>, profiles: seq<Profile>)
    requires reporters != [] && AllReported(t, reporters) && AllBound(t, profiles)
    ensures var r := RankPairs(t, reporters, profiles);
      if r.Some? then
        forall k :: 0 <= k < |profiles| ==>
          r.value[k].0 == t.carByProfile[profiles[k]] && CommonRank(t, reporters, r.value[k].0) == Some(r.value[k].1)
      else exists p :: p in profiles && CommonRank(t, reporters, t.carByProfile[p]).None?
    decreases |profiles|
  {
    if profiles != [] {
      RankPairsAre(t, reporters, profiles[1..]);
      var rest := RankPairs(t, reporters, profiles[1..]);
      if rest.None? {
        var p :| p in profiles[1..] && CommonRank(t, reporters, t.carByProfile[p]).None?;
        assert p in profiles;
      }
    }
  }

  // ----- sorting by rank

  ghost predicate Ascending(pairs: seq<(Car, int)>) {
    forall i, j :: 0 <= i < j < |pairs| ==> pairs[i].1 < pairs[j].1
  }

  lemma {:induction false} InsertKeeps(pair: (Car, int), sorted: seq<(Car, int)>)
    requires Ascending(sorted) && forall q :: q in sorted ==> q.1 != pair.1
    ensures Ascending(Insert(pair, sorted)) && |Insert(pair, sorted)| == |sorted| + 1
    ensures forall q :: q in Insert(pair, sorted) <==> q == pair || q in sorted
  {
    if sorted != [] && !Before(pair, sorted[0]) {
      assert sorted[0] in sorted;
      InsertKeeps(pair, sorted[1..]);
      var rest := Insert(pair, sorted[1..]);
      forall k | 0 <= k < |rest| ensures sorted[0].1 < rest[k].1 {
        assert rest[k] in rest;
      }
      assert forall q :: q in sorted <==> q == sorted[0] || q in sorted[1..];
    }
  }

  lemma {:induction false} SortedAscends(pairs: seq<(Car, int)>)
    requires DistinctRanks(pairs)
    ensures Ascending(Sorted(pairs)) && |Sorted(pairs)| == |pairs|
    ensures forall q :: q in Sorted(pairs) <==> q in pairs
  {
    if pairs != [] {
      SortedAscends(pairs[1..]);
      InsertKeeps(pairs[0], Sorted(pairs[1..]));
      assert forall q :: q in pairs <==> q == pairs[0] || q in pairs[1..];
    }
  }

  lemma HeadIsMember<T>(s: seq<T>)
    ensures s != [] ==> s[0] in s
  {
  }

  /** Two ascending sequences of the same pairs are equal. */
  lemma {:induction false} AscendingUnique(a: seq<(Car, int)>, b: seq<(Car, int)>)
    requires Ascending(a) && Ascending(b) && forall q :: q in a <==> q in b
    ensures a == b
    decreases |a|
  {
    HeadIsMember(a);
    HeadIsMember(b);
    if a != [] && b != [] {
      assert a[0] in b && b[0] in a;
      assert a[0] == b[0];
      assert forall q :: q in a[1..] <==> q in a && q != a[0];
      assert forall q :: q in b[1..] <==> q in b && q != b[0];
      AscendingUnique(a[1..], b[1..]);
    }
  }

  lemma {:induction false} ObservedDependsOnMembers(order: seq<Car>, a: seq<Car>, b: seq<Car>)
    requires forall c :: c in a <==> c in b
    ensures Observed(order, a) == Observed(order, b)
  {
    if order != [] {
      ObservedDependsOnMembers(order[..|order| - 1], a, b);
    }
  }

  /** What a successful report order is made of. */
  ghost predicate Justified(t: Tracker, profiles: seq<Profile>, pairs: seq<(Car, int)>) {
    && AllBound(t, profiles) && AllReported(t, profiles) && profiles != []
    && |pairs| == |profiles| && DistinctRanks(pairs)
    && forall k :: 0 <= k < |profiles| ==>
         pairs[k].0 == t.carByProfile[profiles[k]] && AgreedRank(t, profiles, pairs[k].0, pairs[k].1)
  }

  lemma OrderJustified(t: Tracker, profiles: seq<Profile>)
    requires RankedReportOrder(t, profiles).Some?
    ensures var expected := Deduplicated(profiles);
      && expected != [] && AllBound(t, expected) && AllReported(t, expected)
      && RankPairs(t, expected, expected).Some?
      && var pairs := RankPairs(t, expected, expected).value;
         && Justified(t, expected, pairs)
         && RankedReportOrder(t, profiles).value == Cars(Sorted(pairs))
         && Observed(t.finishOrder, Cars(pairs)) <= Cars(Sorted(pairs))
  {
    var expected := Deduplicated(profiles);
    var pairs := RankPairs(t, expected, expected).value;
    RankPairsAre(t, expected, expected);
    forall k | 0 <= k < |expected| ensures AgreedRank(t, expected, pairs[k].0, pairs[k].1) {
      CommonRankIsAgreed(t, expected, pairs[k].0, pairs[k].1);
    }
  }

  lemma SameMembersSameRank(t: Tracker, a: seq<Profile>, b: seq<Profile>, car: Car)
    requires a != [] && b != [] && AllReported(t, a) && AllReported(t, b) && forall p :: p in a <==> p in b
    ensures CommonRank(t, a, car) == CommonRank(t, b, car)
  {
    if CommonRank(t, a, car).Some? {
      CommonRankIsAgreed(t, a, car, CommonRank(t, a, car).value);
      CommonRankIsAgreed(t, b, car, CommonRank(t, a, car).value);
    } else if CommonRank(t, b, car).Some? {
      CommonRankIsAgreed(t, b, car, CommonRank(t, b, car).value);
      CommonRankIsAgreed(t, a, car, CommonRank(t, b, car).value);
    }
  }

  lemma PairsHaveSameMembers(t: Tracker, a: seq<Profile>, b: seq<Profile>)
    requires a != [] && AllReported(t, a) && AllBound(t, a) && b != [] && AllReported(t, b) && AllBound(t, b)
    requires forall p :: p in a <==> p in b
    ensures RankPairs(t, a, a).Some? <==> RankPairs(t, b, b).Some?
    ensures RankPairs(t, a, a).Some? ==> forall q :: q in RankPairs(t, a, a).value ==> q in RankPairs(t, b, b).value
  {
    RankPairsAre(t, a, a);
    RankPairsAre(t, b, b);
    forall car ensures CommonRank(t, a, car) == CommonRank(t, b, car) {
      SameMembersSameRank(t, a, b, car);
    }
    if RankPairs(t, a, a).Some? && RankPairs(t, b, b).Some? {
      var (x, y) := (RankPairs(t, a, a).value, RankPairs(t, b, b).value);
      forall k | 0 <= k < |x| ensures x[k] in y {
        assert a[k] in b;
        var j :| 0 <= j < |b| && b[j] == a[k];
        assert y[j] == x[k];
      }
    }
  }

  lemma PairsRepeatNothing(t: Tracker, profiles: seq<Profile>)
    requires Valid(t) && NoRepeats(profiles) && profiles != [] && AllReported(t, profiles) && AllBound(t, profiles)
    requires RankPairs(t, profiles, profiles).Some?
    ensures var pairs := RankPairs(t, profiles, profiles).value;
      forall i, j :: 0 <= i < j < |pairs| ==> pairs[i].0 != pairs[j].0
  {
    RankPairsAre(t, profiles, profiles);
  }

  lemma RanksClash(x: seq<(Car, int)>, y: seq<(Car, int)>)
    requires forall q :: q in x ==> q in y
    requires forall i, j :: 0 <= i < j < |x| ==> x[i].0 != x[j].0
    requires DistinctRanks(y)
    ensures DistinctRanks(x)
  {
    forall i, j | 0 <= i < j < |x| ensures x[i].1 != x[j].1 {
      assert x[i] in y && x[j] in y;
    }
  }

  /** The order depends on which profiles take part, not on the order they are listed in. */
  lemma ReportOrderIndependence(t: Tracker, a: seq<Profile>, b: seq<Profile>)
    requires Valid(t) && forall p :: p in a <==> p in b
    ensures RankedReportOrder(t, a) == RankedReportOrder(t, b)
  {
    var (x, y) := (Deduplicated(a), Deduplicated(b));
    assert forall p :: p in x <==> p in y;
    if x != [] && AllBound(t, x) && AllReported(t, x) {
      assert x[0] in y;
      PairsHaveSameMembers(t, x, y);
      PairsHaveSameMembers(t, y, x);
      if RankPairs(t, x, x).Some? {
        SamePairsSameOrder(t, x, y);
      }
    } else if y != [] {
      assert y[0] in x;
    }
  }

  lemma SamePairsSameOrder(t: Tracker, x: seq<Profile>, y: seq<Profile>)
    requires Valid(t) && NoRepeats(x) && NoRepeats(y)
    requires x != [] && AllReported(t, x) && AllBound(t, x) && y != [] && AllReported(t, y) && AllBound(t, y)
    requires RankPairs(t, x, x).Some? && RankPairs(t, y, y).Some?
    requires forall q :: q in RankPairs(t, x, x).value <==> q in RankPairs(t, y, y).value
    ensures var (p, q) := (RankPairs(t, x, x).value, RankPairs(t, y, y).value);
      && (DistinctRanks(p) <==> DistinctRanks(q))
      && (DistinctRanks(p) ==> Sorted(p) == Sorted(q))
      && Observed(t.finishOrder, Cars(p)) == Observed(t.finishOrder, Cars(q))
  {
    var (p, q) := (RankPairs(t, x, x).value, RankPairs(t, y, y).value);
    PairsRepeatNothing(t, x);
    PairsRepeatNothing(t, y);
    if DistinctRanks(q) {
      RanksClash(p, q);
    }
    if DistinctRanks(p) {
      RanksClash(q, p);
      SortedAscends(p);
      SortedAscends(q);
      AscendingUnique(Sorted(p), Sorted(q));
    }
    CarsMembers(p, q);
    CarsMembers(q, p);
    ObservedDependsOnMembers(t.finishOrder, Cars(p), Cars(q));
  }

  lemma CarsMembers(p: seq<(Car, int)>, q: seq<(Car, int)>)
    requires forall x :: x in p ==> x in q
    ensures forall c :: c in Cars(p) ==> c in Cars(q)
  {
    forall c | c in Cars(p) ensures c in Cars(q) {
      var k :| 0 <= k < |p| && p[k].0 == c;
      assert p[k] in q;
      var j :| 0 <= j < |q| && q[j] == p[k];
      assert Cars(q)[j] == c;
    }
  }

  // ----- completeness and finalization

  lemma {:induction false} NoRepeatsKept(s: seq<Profile>)
    requires NoRepeats(s)
    ensures Deduplicated(s) == s
  {
    if s != [] {
      NoRepeatsKept(s[..|s| - 1]);
      assert s[|s| - 1] !in s[..|s| - 1];
    }
  }

  /** All participants are bound, and no profile takes part twice. */
  ghost predicate Roster(t: Tracker, participants: seq<Participant>) {
    participants != [] && NoRepeats(Profiles(participants)) && AllBound(t, Profiles(participants))
  }

  function CarOf(t: Tracker, participants: seq<Participant>, i: nat): Car
    requires i < |participants| && AllBound(t, Profiles(participants))
  {
    assert Profiles(participants)[i] in Profiles(participants);
    t.carByProfile[participants[i].0]
  }

  lemma CarsDiffer(t: Tracker, participants: seq<Participant>, i: nat, j: nat)
    requires Valid(t) && Roster(t, participants) && i < j < |participants|
    ensures CarOf(t, participants, i) != CarOf(t, participants, j)
  {
    assert Profiles(participants)[i] != Profiles(participants)[j];
  }

  /** Ranks taken from an order that lists every participant: non-zero, different, and at most one of them first. */
  lemma PlacesFromOrder(t: Tracker, basis: Basis, participants: seq<Participant>)
    requires Valid(t) && t.ranked && Roster(t, participants)
    requires forall i :: 0 <= i < |participants| ==> CarOf(t, participants, i) in basis.order
    ensures var places := Places(t, basis, participants);
      && (forall i :: 0 <= i < |places| ==>
            places[i].ranking == RankIn(basis.order, CarOf(t, participants, i))
              && 1 <= places[i].ranking <= |basis.order|)
      && (forall i, j :: 0 <= i < j < |places| ==> places[i].ranking != places[j].ranking)
      && |WinnerProfiles(places)| <= 1
  {
    var places := Places(t, basis, participants);
    forall i | 0 <= i < |places| ensures places[i].ranking == RankIn(basis.order, CarOf(t, participants, i)) {
      assert Profiles(participants)[i] in Profiles(participants);
    }
    forall i, j | 0 <= i < j < |places| ensures places[i].ranking != places[j].ranking {
      CarsDiffer(t, participants, i, j);
    }
    WinnersAre(places);
  }

  predicate Fits(t: Tracker, basis: Basis, participants: seq<Participant>) {
    forall i :: 0 <= i < |participants| ==> Place(t, basis, participants[i]).ranking <= MAX_RACERS
  }

  lemma RowsFit(t: Tracker, basis: Basis, participants: seq<Participant>)
    requires Valid(t) && t.ranked && Roster(t, participants)
    requires forall i :: 0 <= i < |participants| ==> CarOf(t, participants, i) in basis.order
    ensures PlacementRows(t, Places(t, basis, participants)).Some? <==> Fits(t, basis, participants)
    ensures Fits(t, basis, participants) ==> |participants| <= MAX_RACERS
  {
    var places := Places(t, basis, participants);
    PlacesFromOrder(t, basis, participants);
    RowsSucceed(t, places);
    forall i | 0 <= i < |places|
      ensures PlacementRow(t, places[i]).Some? <==> places[i].ranking <= MAX_RACERS
    {
      RowAccepted(t, places[i]);
    }
    assert forall i :: 0 <= i < |places| ==> places[i] == Place(t, basis, participants[i]);
    if Fits(t, basis, participants) {
      var ranks: seq<nat> := seq(|places|, i requires 0 <= i < |places| => places[i].ranking);
      Pigeonhole(ranks, MAX_RACERS);
    }
  }

  /** With such ranks, finalizing succeeds exactly when they all fit the eight slots. */
  lemma FinalizeSucceedsIff(t: Tracker, participants: seq<Participant>, fallbackMode: int)
    requires Valid(t) && t.ranked && !t.finalSent && Roster(t, participants)
    requires forall i :: 0 <= i < |participants| ==>
      CarOf(t, participants, i) in FinalBasis(t, Profiles(participants)).order
    ensures var basis := FinalBasis(t, Profiles(participants));
      var (after, race) := Finalize(t, participants, fallbackMode);
      && (race.Some? <==> Fits(t, basis, participants))
      && (race.Some? ==>
            after == t.(finalSent := true)
            && race.value.placements == Places(t, basis, participants)
            && race.value.winners == WinnerProfiles(race.value.placements))
      && (race.None? ==> after == t)
  {
    var basis := FinalBasis(t, Profiles(participants));
    var places := Places(t, basis, participants);
    RowsFit(t, basis, participants);
    RowsSucceed(t, places);
    var rows := PlacementRows(t, places);
    if rows.Some? {
      ReportSucceeds(t, basis, places, rows.value, fallbackMode);
    }
  }

  // ----- the two ways to be complete

  lemma ReportsNotLost(t: Tracker, reporters: seq<Profile>, car: Car, rank: int)
    requires reporters != [] && AgreedRank(t, reporters, car, rank)
    ensures !ConsensusLost(t, car)
  {
    var r := reporters[0];
    assert r in reporters && ShowsRank(t.reports[r].RowForCar(car), rank);
    var values := set p | p in t.reports && t.reports[p].RowForCar(car).Some? :: t.reports[p].RowForCar(car).value.lost;
    assert false in values;
  }

  lemma NativePlaces(t: Tracker, participants: seq<Participant>)
    requires Valid(t) && t.ranked && Roster(t, participants) && NativeComplete(t, Profiles(participants))
    ensures FinalBasis(t, Profiles(participants)) == Basis(t.finishOrder, false)
    ensures forall i :: 0 <= i < |participants| ==> CarOf(t, participants, i) in t.finishOrder
    ensures forall i :: 0 <= i < |participants| ==> Place(t, Basis(t.finishOrder, false), participants[i]).finished
  {
    forall i | 0 <= i < |participants|
      ensures CarOf(t, participants, i) in t.finishOrder
      ensures Place(t, Basis(t.finishOrder, false), participants[i]).finished
    {
      assert Profiles(participants)[i] in Profiles(participants);
    }
  }

  /**
   Native completion: finalizing succeeds if and only if every participant is among the
   first eight of the finish order.  All participants then count as finished, with
   different ranks that are their places in the finish order, and at most one winner.
   */
  lemma NativeRace(t: Tracker, participants: seq<Participant>, fallbackMode: int)
    requires Valid(t) && t.ranked && !t.finalSent && Roster(t, participants)
    requires NativeComplete(t, Profiles(participants))
    ensures var (after, race) := Finalize(t, participants, fallbackMode);
      && (race.Some? <==> forall i :: 0 <= i < |participants| ==>
        RankIn(t.finishOrder, CarOf(t, participants, i)) <= MAX_RACERS)
      && (race.Some? ==>
            after.finalSent && |race.value.placements| == |participants| && |race.value.winners| <= 1
            && (forall i :: 0 <= i < |participants| ==>
                  race.value.placements[i].finished
                  && race.value.placements[i].ranking == RankIn(t.finishOrder, CarOf(t, participants, i)) > 0)
            && (forall i, j :: 0 <= i < j < |participants| ==>
                  race.value.placements[i].ranking != race.value.placements[j].ranking))
  {
    NativePlaces(t, participants);
    PlacesFromOrder(t, Basis(t.finishOrder, false), participants);
    FinalizeSucceedsIff(t, participants, fallbackMode);
    assert forall i :: 0 <= i < |participants| ==>
      Places(t, Basis(t.finishOrder, false), participants)[i] == Place(t, Basis(t.finishOrder, false), participants[i]);
  }

  /** The order holds every participant's car once, and nothing else. */
  ghost predicate Ranks(t: Tracker, participants: seq<Participant>, order: seq<Car>)
    requires AllBound(t, Profiles(participants))
  {
    && NoRepeats(order) && |order| == |participants|
    && (forall i :: 0 <= i < |participants| ==> CarOf(t, participants, i) in order)
    && (forall c :: c in order ==> exists i :: 0 <= i < |participants| && CarOf(t, participants, i) == c)
  }

  lemma OrderOfPairs(t: Tracker, participants: seq<Participant>, pairs: seq<(Car, int)>)
    requires Valid(t) && Roster(t, participants) && Justified(t, Profiles(participants), pairs)
    ensures Ranks(t, participants, Cars(Sorted(pairs))) && |participants| <= MAX_RACERS
    ensures forall c :: c in Cars(pairs) <==> c in Cars(Sorted(pairs))
  {
    var order := Cars(Sorted(pairs));
    forall i, j | 0 <= i < j < |pairs| ensures pairs[i].0 != pairs[j].0 {
      CarsDiffer(t, participants, i, j);
    }
    SortedAscends(pairs);
    SortedCarsDiffer(pairs);
    CarsMembers(pairs, Sorted(pairs));
    CarsMembers(Sorted(pairs), pairs);
    forall i | 0 <= i < |participants| ensures CarOf(t, participants, i) in order {
      assert Cars(pairs)[i] == CarOf(t, participants, i);
    }
    forall c | c in order ensures exists i :: 0 <= i < |participants| && CarOf(t, participants, i) == c {
      var k :| 0 <= k < |pairs| && Cars(pairs)[k] == c;
      assert CarOf(t, participants, k) == c;
    }
    ReportedRanksFit(t, Profiles(participants), pairs);
  }

  lemma ReportedPlaces(t: Tracker, participants: seq<Participant>) returns (pairs: seq<(Car, int)>)
    requires Valid(t) && t.ranked && Roster(t, participants)
    requires !NativeComplete(t, Profiles(participants)) && RankedReportOrder(t, Profiles(participants)).Some?
    ensures Justified(t, Profiles(participants), pairs)
    ensures RankedReportOrder(t, Profiles(participants)).value == Cars(Sorted(pairs))
    ensures FinalBasis(t, Profiles(participants)) == Basis(Cars(Sorted(pairs)), true)
    ensures Ranks(t, participants, Cars(Sorted(pairs))) && |participants| <= MAX_RACERS
    ensures Observed(t.finishOrder, Cars(Sorted(pairs))) <= Cars(Sorted(pairs))
  {
    var profiles := Profiles(participants);
    NoRepeatsKept(profiles);
    OrderJustified(t, profiles);
    pairs := RankPairs(t, profiles, profiles).value;
    OrderOfPairs(t, participants, pairs);
    ObservedDependsOnMembers(t.finishOrder, Cars(pairs), Cars(Sorted(pairs)));
    assert |Cars(Sorted(pairs))| > 0;
  }

  lemma SortedCarsDiffer(pairs: seq<(Car, int)>)
    requires DistinctRanks(pairs) && forall i, j :: 0 <= i < j < |pairs| ==> pairs[i].0 != pairs[j].0
    ensures NoRepeats(Cars(Sorted(pairs)))
  {
    var sorted := Sorted(pairs);
    SortedAscends(pairs);
    forall i, j | 0 <= i < j < |sorted| ensures sorted[i].0 != sorted[j].0 {
      assert sorted[i] in pairs && sorted[j] in pairs;
    }
  }

  /** Agreed ranks come from normal rows, so at most eight of them differ. */
  lemma ReportedRanksFit(t: Tracker, profiles: seq<Profile>, pairs: seq<(Car, int)>)
    requires Valid(t) && Justified(t, profiles, pairs)
    ensures |pairs| <= MAX_RACERS
  {
    forall k | 0 <= k < |pairs| ensures 1 <= pairs[k].1 <= MAX_RACERS {
      var r := profiles[0];
      assert r in profiles && ShowsRank(t.reports[r].RowForCar(pairs[k].0), pairs[k].1);
      assert t.reports[r].RowForCar(pairs[k].0).value.Clean();
    }
    var ranks: seq<nat> := seq(|pairs|, k requires 0 <= k < |pairs| => pairs[k].1);
    Pigeonhole(ranks, MAX_RACERS);
  }

  lemma ReportedFinished(t: Tracker, participants: seq<Participant>, pairs: seq<(Car, int)>, i: nat)
    requires Valid(t) && t.ranked && Roster(t, participants) && i < |participants|
    requires Justified(t, Profiles(participants), pairs) && Ranks(t, participants, Cars(Sorted(pairs)))
    ensures Place(t, Basis(Cars(Sorted(pairs)), true), participants[i]).finished
  {
    var profiles := Profiles(participants);
    assert profiles[i] in profiles;
    assert pairs[i].0 == CarOf(t, participants, i);
    ReportsNotLost(t, profiles, pairs[i].0, pairs[i].1);
  }

  /**
   Completion by unanimous reports: finalizing always succeeds.  All participants count
   as finished, with the ranks 1 to n in some order, exactly one winner, and the cars that
   did signal their finish ranked first, in the order of their signals.
   */
  lemma ReportedRace(t: Tracker, participants: seq<Participant>, fallbackMode: int)
    requires Valid(t) && t.ranked && !t.finalSent && Roster(t, participants)
    requires !NativeComplete(t, Profiles(participants)) && RankedReportOrder(t, Profiles(participants)).Some?
    ensures Decided(t, participants, RankedReportOrder(t, Profiles(participants)).value,
      Finalize(t, participants, fallbackMode))
    ensures var order := RankedReportOrder(t, Profiles(participants)).value;
      Observed(t.finishOrder, order) <= order
  {
    var pairs := ReportedPlaces(t, participants);
    RanksFit(t, participants, Cars(Sorted(pairs)));
    PlacesReported(t, participants, pairs);
    DecidedByBasis(t, participants, pairs, fallbackMode);
  }

  /** The outcome of a race whose order lists every participant. */
  ghost predicate Decided(t: Tracker, participants: seq<Participant>, order: seq<Car>,
      outcome: (Tracker, Option<FinalizedRace>))
    requires AllBound(t, Profiles(participants))
  {
    && outcome.0.finalSent && outcome.1.Some? && |outcome.1.value.winners| == 1
    && AllPlaced(t, participants, order, outcome.1.value.placements)
  }

  /** Every participant has finished at its own place of the order. */
  ghost predicate AllPlaced(t: Tracker, participants: seq<Participant>, order: seq<Car>, places: seq<Placement>)
    requires AllBound(t, Profiles(participants))
  {
    && |places| == |participants| == |order|
    && (forall i :: 0 <= i < |participants| ==>
          places[i].finished && 1 <= places[i].ranking <= |participants|
          && order[places[i].ranking - 1] == CarOf(t, participants, i))
    && (forall i, j :: 0 <= i < j < |participants| ==> places[i].ranking != places[j].ranking)
  }

  lemma DecidedByBasis(t: Tracker, participants: seq<Participant>, pairs: seq<(Car, int)>, fallbackMode: int)
    requires Valid(t) && t.ranked && !t.finalSent && Roster(t, participants)
    requires FinalBasis(t, Profiles(participants)) == Basis(Cars(Sorted(pairs)), true)
    requires Ranks(t, participants, Cars(Sorted(pairs)))
    requires Fits(t, Basis(Cars(Sorted(pairs)), true), participants)
    requires AllPlaced(t, participants, Cars(Sorted(pairs)), Places(t, Basis(Cars(Sorted(pairs)), true), participants))
    requires |WinnerProfiles(Places(t, Basis(Cars(Sorted(pairs)), true), participants))| == 1
    ensures Decided(t, participants, Cars(Sorted(pairs)), Finalize(t, participants, fallbackMode))
  {
    FinalizeSucceedsIff(t, participants, fallbackMode);
  }

  lemma PlacesReported(t: Tracker, participants: seq<Participant>, pairs: seq<(Car, int)>)
    requires Valid(t) && t.ranked && Roster(t, participants)
    requires Justified(t, Profiles(participants), pairs) && Ranks(t, participants, Cars(Sorted(pairs)))
    ensures |WinnerProfiles(Places(t, Basis(Cars(Sorted(pairs)), true), participants))| == 1
    ensures AllPlaced(t, participants, Cars(Sorted(pairs)), Places(t, Basis(Cars(Sorted(pairs)), true), participants))
  {
    var order := Cars(Sorted(pairs));
    forall i | 0 <= i < |participants| ensures Place(t, Basis(order, true), participants[i]).finished {
      ReportedFinished(t, participants, pairs, i);
    }
    AllFinished(t, Basis(order, true), participants);
    FinishedPlaces(t, participants, order);
    OneWinner(t, participants, order);
  }

  lemma AllFinished(t: Tracker, basis: Basis, participants: seq<Participant>)
    requires forall i :: 0 <= i < |participants| ==> Place(t, basis, participants[i]).finished
    ensures forall p :: p in Places(t, basis, participants) ==> p.finished
  {
  }

  lemma FinishedPlaces(t: Tracker, participants: seq<Participant>, order: seq<Car>)
    requires Valid(t) && t.ranked && Roster(t, participants) && Ranks(t, participants, order)
    requires forall p :: p in Places(t, Basis(order, true), participants) ==> p.finished
    ensures AllPlaced(t, participants, order, Places(t, Basis(order, true), participants))
  {
    var places := Places(t, Basis(order, true), participants);
    PlacesFromOrder(t, Basis(order, true), participants);
    assert forall i :: 0 <= i < |places| ==> places[i] in places;
    PlacedByRank(t, participants, order, places);
  }

  lemma PlacedByRank(t: Tracker, participants: seq<Participant>, order: seq<Car>, places: seq<Placement>)
    requires AllBound(t, Profiles(participants)) && Ranks(t, participants, order) && |places| == |participants|
    requires forall i :: 0 <= i < |places| ==>
      places[i].finished && places[i].ranking == RankIn(order, CarOf(t, participants, i))
    requires forall i, j :: 0 <= i < j < |places| ==> places[i].ranking != places[j].ranking
    ensures AllPlaced(t, participants, order, places)
  {
    forall i | 0 <= i < |participants|
      ensures 1 <= places[i].ranking <= |participants| && order[places[i].ranking - 1] == CarOf(t, participants, i)
    {
      RankedAt(order, CarOf(t, participants, i));
    }
  }

  lemma RankedAt(order: seq<Car>, car: Car)
    requires car in order
    ensures 1 <= RankIn(order, car) <= |order| && order[RankIn(order, car) - 1] == car
  {
  }

  lemma RanksFit(t: Tracker, participants: seq<Participant>, order: seq<Car>)
    requires Valid(t) && t.ranked && Roster(t, participants) && Ranks(t, participants, order)
    requires |participants| <= MAX_RACERS
    ensures Fits(t, Basis(order, true), participants)
  {
    PlacesFromOrder(t, Basis(order, true), participants);
    var places := Places(t, Basis(order, true), participants);
    assert forall i :: 0 <= i < |places| ==> places[i] == Place(t, Basis(order, true), participants[i]);
  }

  lemma OneWinner(t: Tracker, participants: seq<Participant>, order: seq<Car>)
    requires Valid(t) && t.ranked && Roster(t, participants) && Ranks(t, participants, order)
    ensures |WinnerProfiles(Places(t, Basis(order, true), participants))| == 1
  {
    var places := Places(t, Basis(order, true), participants);
    PlacesFromOrder(t, Basis(order, true), participants);
    assert order[0] in order;
    var w :| 0 <= w < |participants| && CarOf(t, participants, w) == order[0];
    RankInUnique(order, 0);
    WinnersAre(places);
    assert places[w] in places && places[w].ranking == 1;
    assert places[w] in Winners(places);
  }

  /** A complete ranked race with at most eight finish signals finalizes, and only once. */
  lemma CompleteMeansFinal(ranked: bool, evidence: seq<Evidence>, participants: seq<Participant>, fallbackMode: int)
    requires ranked && NoRepeats(Profiles(participants))
    requires var t := Run(NewTracker(ranked), evidence);
      IsComplete(t, Profiles(participants)) && |t.finishOrder| <= MAX_RACERS
    ensures Valid(Run(NewTracker(ranked), evidence))
    ensures var t := Run(NewTracker(ranked), evidence);
      var (after, race) := Finalize(t, participants, fallbackMode);
      && race.Some? && after.finalSent
      && (forall p :: p in race.value.placements ==> p.finished && p.ranking > 0)
      && (forall i, j :: 0 <= i < j < |race.value.placements| ==>
            race.value.placements[i].ranking != race.value.placements[j].ranking)
      && |race.value.winners| <= 1
      && Valid(after) && forall again, mode :: Finalize(after, again, mode) == (after, None)
  {
    var t := Run(NewTracker(ranked), evidence);
    RunStaysValid(NewTracker(ranked), evidence);
    if NativeComplete(t, Profiles(participants)) {
      NativeRace(t, participants, fallbackMode);
    } else {
      ReportedRace(t, participants, fallbackMode);
    }
  }
}
