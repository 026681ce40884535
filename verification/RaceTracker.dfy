/** The result tracker as the object with fields that the source has, proved against its functions. */
module RaceTracker {
  import opened Collections
  import opened Options
  import opened RaceResults

  lemma {:induction false} RankPairsAppend(t: Tracker, reporters: seq<Profile>, done: seq<Profile>, p: Profile)
    requires reporters != [] && AllReported(t, reporters) && AllBound(t, done + [p])
    requires AllBound(t, done) && p in t.carByProfile
    ensures RankPairs(t, reporters, done + [p]) ==
      match (RankPairs(t, reporters, done), CommonRank(t, reporters, t.carByProfile[p]))
      case (Some(pairs), Some(rank)) => Some(pairs + [(t.carByProfile[p], rank)])
      case _ => None
    decreases |done|
  {
    var all := done + [p];
    if done == [] {
      assert all == [p] && all[1..] == [];
      var rank := CommonRank(t, reporters, t.carByProfile[p]);
      if rank.Some? {
        assert [(t.carByProfile[p], rank.value)] + [] == [] + [(t.carByProfile[p], rank.value)];
      }
    } else {
      assert all[1..] == done[1..] + [p];
      RankPairsAppend(t, reporters, done[1..], p);
      var (head, tail) := (CommonRank(t, reporters, t.carByProfile[done[0]]), RankPairs(t, reporters, done[1..]));
      var last := CommonRank(t, reporters, t.carByProfile[p]);
      if head.Some? && tail.Some? && last.Some? {
        assert [(t.carByProfile[done[0]], head.value)] + (tail.value + [(t.carByProfile[p], last.value)])
          == [(t.carByProfile[done[0]], head.value)] + tail.value + [(t.carByProfile[p], last.value)];
      }
    }
  }

  lemma {:induction false} RankPairsFailed(t: Tracker, reporters: seq<Profile>, profiles: seq<Profile>, k: nat)
    requires reporters != [] && AllReported(t, reporters) && AllBound(t, profiles) && k < |profiles|
    requires CommonRank(t, reporters, t.carByProfile[(assert profiles[k] in profiles; profiles[k])]).None?
    ensures RankPairs(t, reporters, profiles).None?
    decreases k
  {
    if k > 0 {
      assert profiles[1..][k - 1] == profiles[k];
      RankPairsFailed(t, reporters, profiles[1..], k - 1);
    }
  }

  lemma {:induction false} PlacementRowsAppend(t: Tracker, done: seq<Placement>, p: Placement)
    ensures PlacementRows(t, done + [p]) ==
      match (PlacementRows(t, done), PlacementRow(t, p))
      case (Some(rows), Some(row)) => Some(rows + [row])
      case _ => None
    decreases |done|
  {
    var all := done + [p];
    if done == [] {
      assert all == [p] && all[1..] == [];
      var row := PlacementRow(t, p);
      if row.Some? {
        assert [row.value] + [] == [] + [row.value];
      }
    } else {
      assert all[1..] == done[1..] + [p];
      PlacementRowsAppend(t, done[1..], p);
      var (head, tail, last) := (PlacementRow(t, done[0]), PlacementRows(t, done[1..]), PlacementRow(t, p));
      if head.Some? && tail.Some? && last.Some? {
        assert [head.value] + (tail.value + [last.value]) == [head.value] + tail.value + [last.value];
      }
    }
  }

  lemma {:induction false} PlacementRowsFailed(t: Tracker, placements: seq<Placement>, k: nat)
    requires k < |placements| && PlacementRow(t, placements[k]).None?
    ensures PlacementRows(t, placements).None?
    decreases k
  {
    if k > 0 {
      PlacementRowsFailed(t, placements[1..], k - 1);
    }
  }

  class RaceResultTracker {
    const ranked: bool
    var carByProfile: map<Profile, Car>
    var profileByCar: map<Car, Profile>
    var finishSignals: map<Car, FinishSignal>
    var finishOrder: seq<Car>
    var reports: map<Profile, Report>
    var reportOrder: seq<Profile>
    var finalSent: bool

    function View(): Tracker
      reads this
    {
      Tracker(ranked, carByProfile, profileByCar, finishSignals, finishOrder, reports, reportOrder, finalSent)
    }

    constructor (ranked: bool)
      ensures View() == NewTracker(ranked)
    {
      this.ranked := ranked;
      carByProfile, profileByCar := map[], map[];
      finishSignals, finishOrder, reports, reportOrder, finalSent := map[], [], map[], [], false;
    }

    method Bind(profile: Profile, car: Car) returns (ok: bool)
      modifies this`carByProfile, this`profileByCar
      ensures View() == BindCar(old(View()), profile, car) && ok == CanBind(old(View()), profile, car)
    {
      if car.id <= 0 {
        return false;
      }
      if profile in carByProfile && carByProfile[profile] != car {
        return false;
      }
      if car in profileByCar && profileByCar[car] != profile {
        return false;
      }
      carByProfile := carByProfile[profile := car];
      profileByCar := profileByCar[car := profile];
      return true;
    }

    method Finish(profile: Profile, signal: FinishSignal) returns (recorded: bool)
      modifies this
      ensures View() == RecordFinish(old(View()), profile, signal)
      ensures recorded == (CanBind(old(View()), profile, signal.car) && signal.car !in old(finishSignals))
    {
      var ok := Bind(profile, signal.car);
      if !ok || signal.car in finishSignals {
        return false;
      }
      finishSignals := finishSignals[signal.car := signal];
      finishOrder := finishOrder + [signal.car];
      return true;
    }

    /** None stands for ResultCodecError; otherwise whether the stored report changed. */
    method ReportResults(profile: Profile, report: Report) returns (changed: Option<bool>)
      modifies this
      ensures View() == RecordReport(old(View()), profile, report)
      ensures changed.None? <==> report.Normalized().None?
      ensures changed.Some? ==> (changed.value <==> reports != old(reports))
    {
      var normal := report.Normalized();
      if normal.None? {
        return None;
      }
      if normal.value.reportingCar.id > 0 {
        var ok := Bind(profile, normal.value.reportingCar);
        if !ok {
          return Some(false);
        }
      }
      changed := Some(profile !in reports || reports[profile] != normal.value);
      if profile !in reports {
        reportOrder := reportOrder + [profile];
      }
      reports := reports[profile := normal.value];
    }

    method FindCommonRank(reporters: seq<Profile>, car: Car) returns (rank: Option<int>)
      requires reporters != [] && AllReported(View(), reporters)
      ensures rank == CommonRank(View(), reporters, car)
    {
      var ranks: set<Value> := {};
      for j := 0 to |reporters|
        invariant AllReported(View(), reporters[..j])
        invariant j == 0 <==> ranks == {}
        invariant j > 0 ==>
          match CommonRank(View(), reporters[..j], car)
          case Some(common) => ranks == {Value(common)}
          case None => exists a, b :: a in ranks && b in ranks && a != b
      {
        assert reporters[..j + 1][..j] == reporters[..j];
        assert reporters[j] in reporters;
        var row := reports[reporters[j]].RowForCar(car);
        if row.None? || row.value.lost || row.value.ranking <= 0 {
          CommonRankFails(View(), reporters, j, car);
          return None;
        }
        var before := ranks;
        ranks := ranks + {Value(row.value.ranking)};
        assert before <= ranks;
      }
      assert reporters[..|reporters|] == reporters;
      if |ranks| != 1 {
        return None;
      }
      OnlyOne(ranks);
      var only :| only in ranks;
      return Some(only.n);
    }

    method FindReportOrder(profiles: seq<Profile>) returns (order: Option<seq<Car>>)
      ensures order == RankedReportOrder(View(), profiles)
    {
      var expected := Deduplicated(profiles);
      if expected == [] || !AllBound(View(), expected) || !AllReported(View(), expected) {
        return None;
      }
      var pairs: seq<(Car, int)> := [];
      for i := 0 to |expected|
        invariant AllBound(View(), expected[..i]) && RankPairs(View(), expected, expected[..i]) == Some(pairs)
      {
        assert expected[..i + 1] == expected[..i] + [expected[i]] && expected[i] in expected;
        RankPairsAppend(View(), expected, expected[..i], expected[i]);
        var rank := FindCommonRank(expected, carByProfile[expected[i]]);
        if rank.None? {
          RankPairsFailed(View(), expected, expected, i);
          return None;
        }
        pairs := pairs + [(carByProfile[expected[i]], rank.value)];
      }
      assert expected[..|expected|] == expected;
      if !DistinctRanks(pairs) {
        return None;
      }
      var sorted := Cars(Sorted(pairs));
      var observed: seq<Car> := [];
      for i := 0 to |finishOrder|
        invariant observed == Observed(finishOrder[..i], Cars(pairs))
      {
        assert finishOrder[..i + 1][..i] == finishOrder[..i];
        if finishOrder[i] in Cars(pairs) {
          observed := observed + [finishOrder[i]];
        }
      }
      assert finishOrder[..|finishOrder|] == finishOrder;
      return if observed <= sorted then Some(sorted) else None;
    }

    /** The order that the final ranks come from. */
    method FindBasis(profiles: seq<Profile>) returns (basis: Basis)
      requires forall p :: p in reportOrder ==> p in reports
      ensures basis == FinalBasis(View(), profiles)
    {
      basis := Basis(finishOrder, false);
      if ranked && !NativeComplete(View(), profiles) {
        var reported := FindReportOrder(profiles);
        if reported.Some? {
          basis := Basis(if reported.value != [] then reported.value else finishOrder, true);
        }
      }
    }

    /** None stands for ResultCodecError; a failed call changes nothing, a second call always fails. */
    method Finalize(participants: seq<Participant>, fallbackMode: int) returns (race: Option<FinalizedRace>)
      requires forall p :: p in reportOrder ==> p in reports
      modifies this`finalSent
      ensures (View(), race) == RaceResults.Finalize(old(View()), participants, fallbackMode)
    {
      if finalSent || participants == [] {
        return None;
      }
      var profiles := Profiles(participants);
      var basis := FindBasis(profiles);
      var placements, rows := PlaceAll(basis, participants);
      if rows.None? {
        return None;
      }
      var results := FinalReport(View(), basis, placements, rows.value, fallbackMode);
      if results.None? {
        return None;
      }
      finalSent := true;
      return Some(FinalizedRace(results.value, placements, WinnerProfiles(placements), ranked));
    }

    method PlaceAll(basis: Basis, participants: seq<Participant>)
        returns (placements: seq<Placement>, rows: Option<seq<Row>>)
      ensures rows == PlacementRows(View(), Places(View(), basis, participants))
      ensures rows.Some? ==> placements == Places(View(), basis, participants)
    {
      placements := [];
      var built: seq<Row> := [];
      ghost var all := Places(View(), basis, participants);
      for i := 0 to |participants|
        invariant placements == all[..i] && PlacementRows(View(), placements) == Some(built)
      {
        var placement := Place(View(), basis, participants[i]);
        var row := PlacementRow(View(), placement);
        PlacementRowsAppend(View(), placements, placement);
        if row.None? {
          PlacementRowsFailed(View(), all, i);
          return placements, None;
        }
        placements := placements + [placement];
        built := built + [row.value];
      }
      assert placements == all;
      rows := Some(built);
    }

    static lemma {:induction false} CommonRankFails(t: Tracker, reporters: seq<Profile>, j: nat, car: Car)
      requires j < |reporters| && AllReported(t, reporters)
      requires var row := t.reports[(assert reporters[j] in reporters; reporters[j])].RowForCar(car);
        row.None? || row.value.lost || row.value.ranking <= 0
      ensures CommonRank(t, reporters, car).None?
      decreases |reporters|
    {
      if j < |reporters| - 1 {
        CommonRankFails(t, reporters[..|reporters| - 1], j, car);
      }
    }
  }
}
