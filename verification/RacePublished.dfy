/** What a finalized race publishes, in terms of the evidence (server/carbon/gamemanager/results.py). */
module RacePublished {
  import opened Collections
  import opened Options
  import opened RaceResults
  import opened RaceRuns
  import opened RaceFinal
  import opened RaceConsensus

  // ----- the evidence about one car

  /** The first row of a car in a report. */
  ghost predicate FirstRow(rows: seq<Row>, car: Car, row: Row) {
    exists k :: 0 <= k < |rows| && rows[k] == row && row.car == car && forall j :: 0 <= j < k ==> rows[j].car != car
  }

  /** The report of a profile shows the car with this row. */
  ghost predicate Shown(t: Tracker, p: Profile, car: Car, row: Row) {
    p in t.reports && FirstRow(t.reports[p].racers, car, row)
  }

  /** Some report shows the car, and every report that does says it lost the connection. */
  ghost predicate AllSayLost(t: Tracker, car: Car) {
    && (exists p, row :: Shown(t, p, car, row))
    && forall p, row :: Shown(t, p, car, row) ==> row.lost
  }

  /** Some report shows the car, and every report that does gives this reason. */
  ghost predicate OnlyReason(t: Tracker, car: Car, reason: int) {
    && (exists p, row :: Shown(t, p, car, row))
    && forall p, row :: Shown(t, p, car, row) ==> row.finishReason == reason
  }

  /** Some report gives the car this positive ranking, and none gives it another one. */
  ghost predicate OnlyRanking(t: Tracker, car: Car, ranking: int) {
    && ranking > 0 && (exists p, row :: Shown(t, p, car, row) && row.ranking > 0)
    && forall p, row :: Shown(t, p, car, row) && row.ranking > 0 ==> row.ranking == ranking
  }

  lemma {:induction false} FindRowIs(rows: seq<Row>, car: Car)
    ensures match FindRow(rows, car)
            case None => forall row :: !FirstRow(rows, car, row)
            case Some(found) => forall row :: FirstRow(rows, car, row) <==> row == found
  {
    if rows != [] {
      var rest := rows[1..];
      FindRowIs(rest, car);
      forall row ensures FirstRow(rows, car, row) <==>
        if rows[0].car == car then row == rows[0] else FirstRow(rest, car, row)
      {
        FirstRowLater(rows, car, row);
      }
    }
  }

  lemma FirstRowLater(rows: seq<Row>, car: Car, row: Row)
    requires rows != []
    ensures FirstRow(rows, car, row) <==> if rows[0].car == car then row == rows[0] else FirstRow(rows[1..], car, row)
  {
    var rest := rows[1..];
    if FirstRow(rows, car, row) {
      var k :| 0 <= k < |rows| && rows[k] == row && row.car == car && forall j :: 0 <= j < k ==> rows[j].car != car;
      assert k > 0 ==> rest[k - 1] == row && forall j :: 0 <= j < k - 1 ==> rest[j] == rows[j + 1];
    }
    if rows[0].car != car && FirstRow(rest, car, row) {
      var k :| 0 <= k < |rest| && rest[k] == row && row.car == car && forall j :: 0 <= j < k ==> rest[j].car != car;
      assert rows[k + 1] == row;
      assert forall j :: 0 < j < k + 1 ==> rows[j] == rest[j - 1];
    }
  }

  lemma ShownIs(t: Tracker, p: Profile, car: Car)
    ensures forall row :: Shown(t, p, car, row) <==> p in t.reports && t.reports[p].RowForCar(car) == Some(row)
  {
    if p in t.reports {
      FindRowIs(t.reports[p].racers, car);
    }
  }

  lemma AllShown(t: Tracker, car: Car)
    ensures forall p, row :: Shown(t, p, car, row) <==>
      p in t.reports && t.reports[p].RowForCar(car) == Some(row)
  {
    forall p ensures forall row :: Shown(t, p, car, row) <==>
      p in t.reports && t.reports[p].RowForCar(car) == Some(row)
    {
      ShownIs(t, p, car);
    }
  }

  lemma SoleIs(values: set<Value>)
    ensures forall v :: values == {v} ==> Sole(values) == v.n
    ensures (forall v :: values != {v}) ==> Sole(values) == 0
  {
    if |values| == 1 {
      OnlyOne(values);
      var v :| v in values && forall w :: w in values ==> w == v;
      assert values == {v};
    }
  }

  /** The consensus functions say what all reports that show the car agree on. */
  lemma ReasonIs(t: Tracker, car: Car)
    ensures forall n :: OnlyReason(t, car, n) ==> ConsensusReason(t, car) == n
    ensures (forall n :: !OnlyReason(t, car, n)) ==> ConsensusReason(t, car) == 0
  {
    var values := set p | p in t.reports && t.reports[p].RowForCar(car).Some? ::
                    Value(t.reports[p].RowForCar(car).value.finishReason);
    forall n ensures OnlyReason(t, car, n) <==> values == {Value(n)} {
      ReasonsAre(t, car, values, n);
    }
    SoleIs(values);
    forall v | values == {v} ensures OnlyReason(t, car, v.n) {
      assert values == {Value(v.n)};
    }
  }

  lemma ReasonsAre(t: Tracker, car: Car, values: set<Value>, n: int)
    requires values == set p | p in t.reports && t.reports[p].RowForCar(car).Some? ::
                         Value(t.reports[p].RowForCar(car).value.finishReason)
    ensures OnlyReason(t, car, n) <==> values == {Value(n)}
  {
    AllShown(t, car);
    if OnlyReason(t, car, n) {
      var p, row :| Shown(t, p, car, row);
      assert Value(n) in values;
      assert forall v :: v in values ==> v == Value(n);
    }
    if values == {Value(n)} {
      assert Value(n) in values;
      forall p, row | Shown(t, p, car, row) ensures row.finishReason == n {
        assert Value(row.finishReason) in values;
      }
    }
  }

  lemma RankingIs(t: Tracker, car: Car)
    ensures forall n :: OnlyRanking(t, car, n) ==> ConsensusRanking(t, car) == n
    ensures (forall n :: !OnlyRanking(t, car, n)) ==> ConsensusRanking(t, car) == 0
  {
    var values := set p | p in t.reports && t.reports[p].RowForCar(car).Some?
                          && t.reports[p].RowForCar(car).value.ranking > 0
                    :: Value(t.reports[p].RowForCar(car).value.ranking);
    forall n ensures OnlyRanking(t, car, n) <==> values == {Value(n)} {
      RankingsAre(t, car, values, n);
    }
    SoleIs(values);
    forall v | values == {v} ensures OnlyRanking(t, car, v.n) {
      assert values == {Value(v.n)};
    }
  }

  lemma RankingsAre(t: Tracker, car: Car, values: set<Value>, n: int)
    requires values == set p | p in t.reports && t.reports[p].RowForCar(car).Some?
                               && t.reports[p].RowForCar(car).value.ranking > 0
                         :: Value(t.reports[p].RowForCar(car).value.ranking)
    ensures OnlyRanking(t, car, n) <==> values == {Value(n)}
  {
    AllShown(t, car);
    if OnlyRanking(t, car, n) {
      var p, row :| Shown(t, p, car, row) && row.ranking > 0;
      assert Value(n) in values;
      assert forall v :: v in values ==> v == Value(n);
    }
    if values == {Value(n)} {
      assert Value(n) in values;
      forall p, row | Shown(t, p, car, row) && row.ranking > 0 ensures row.ranking == n {
        assert Value(row.ranking) in values;
      }
    }
  }

  lemma LostIs(t: Tracker, car: Car)
    ensures ConsensusLost(t, car) <==> AllSayLost(t, car)
  {
    var values := set p | p in t.reports && t.reports[p].RowForCar(car).Some? :: t.reports[p].RowForCar(car).value.lost;
    AllShown(t, car);
    if AllSayLost(t, car) {
      var p, row :| Shown(t, p, car, row);
      assert true in values && false !in values;
      assert values == {true};
    }
    if values == {true} {
      assert true in values;
      forall p, row | Shown(t, p, car, row) ensures row.lost {
        assert row.lost in values;
      }
    }
  }

  // ----- placements

  /** The ranking of the participant's own row of its car, 0 without one. */
  ghost predicate OwnRanking(t: Tracker, profile: Profile, car: Car, ranking: int) {
    if exists row :: Shown(t, profile, car, row)
    then exists row :: Shown(t, profile, car, row) && row.ranking == ranking
    else ranking == 0
  }

  /**
   The rank of a car by the evidence: its place in the order; outside of it nothing in a
   ranked race, and otherwise what all reports agree on, or else the participant's own report.
   */
  ghost predicate RankIs(t: Tracker, order: seq<Car>, profile: Profile, car: Car, rank: int) {
    if car in order then 1 <= rank <= |order| && order[rank - 1] == car
    else if t.ranked then rank == 0
    else if exists n :: OnlyRanking(t, car, n) then OnlyRanking(t, car, rank)
    else OwnRanking(t, profile, car, rank)
  }

  /** The reason of the car's signal, or the one that all reports agree on, or 0. */
  ghost predicate ReasonOf(t: Tracker, car: Car, reason: int) {
    if car in t.finishSignals then reason == t.finishSignals[car].finishReason
    else if exists n :: OnlyReason(t, car, n) then OnlyReason(t, car, reason)
    else reason == 0
  }

  /** The car of every profile has signalled its finish. */
  ghost predicate AllSignalled(t: Tracker, profiles: seq<Profile>) {
    forall p :: p in profiles ==> p in t.carByProfile && t.carByProfile[p] in t.finishSignals
  }

  /**
   A ranked race without all signals takes the order of the unanimous reports, if there is one;
   any other that of the signals.
   */
  ghost predicate OrderIs(t: Tracker, profiles: seq<Profile>, order: seq<Car>, fromReports: bool) {
    if t.ranked && !AllSignalled(t, profiles) && Agreeing(t, profiles)
    then fromReports && Consensus(t, Deduplicated(profiles), order)
    else !fromReports && order == t.finishOrder
  }

  /** Everything a placement says, by the evidence. */
  ghost predicate PlacedByEvidence(t: Tracker, order: seq<Car>, fromReports: bool, participant: Participant,
      p: Placement) {
    && p.profile == participant.0 && p.player == participant.1
    && p.car == ParticipantCar(t, participant)
    && RankIs(t, order, p.profile, p.car, p.ranking)
    && ReasonOf(t, p.car, p.finishReason)
    && (p.finished <==>
          p.ranking > 0 && if t.ranked && !fromReports then p.car in t.finishSignals else !AllSayLost(t, p.car))
    && (p.lost <==> !p.finished || AllSayLost(t, p.car))
  }

  lemma OwnRankingIs(t: Tracker, profile: Profile, car: Car)
    ensures OwnRanking(t, profile, car, SelfMetric(t, profile, car).ranking)
  {
    ShownIs(t, profile, car);
  }

  lemma RankFits(t: Tracker, order: seq<Car>, profile: Profile, car: Car)
    ensures var position := RankIn(order, car);
      var reported := ConsensusRanking(t, car);
      RankIs(t, order, profile, car,
             if position > 0 then position else if t.ranked then 0
             else if reported != 0 then reported else SelfMetric(t, profile, car).ranking)
  {
    RankingIs(t, car);
    OwnRankingIs(t, profile, car);
  }

  lemma ReasonFits(t: Tracker, car: Car)
    ensures ReasonOf(t, car, if car in t.finishSignals then t.finishSignals[car].finishReason
      else ConsensusReason(t, car))
  {
    ReasonIs(t, car);
  }

  lemma PlaceIs(t: Tracker, basis: Basis, participant: Participant)
    ensures PlacedByEvidence(t, basis.order, basis.fromReports, participant, Place(t, basis, participant))
  {
    var p := Place(t, basis, participant);
    RankFits(t, basis.order, p.profile, p.car);
    ReasonFits(t, p.car);
    LostIs(t, p.car);
  }

  lemma ConsensusIff(t: Tracker, profiles: seq<Profile>)
    requires Valid(t)
    ensures var reported := RankedReportOrder(t, profiles);
      && (reported.Some? ==> reported.value != [] && NoRepeats(reported.value)
                             && Consensus(t, Deduplicated(profiles), reported.value))
      && (reported.None? ==> !Agreeing(t, profiles))
  {
    var reported := RankedReportOrder(t, profiles);
    if reported.Some? {
      UnanimousIff(t, profiles, reported.value);
      ConsensusNotEmpty(t, Deduplicated(profiles), reported.value);
    } else {
      forall c ensures !Consensus(t, Deduplicated(profiles), c) {
        UnanimousIff(t, profiles, c);
      }
    }
  }

  lemma BasisIs(t: Tracker, profiles: seq<Profile>)
    requires Valid(t) && profiles != []
    ensures OrderIs(t, profiles, FinalBasis(t, profiles).order, FinalBasis(t, profiles).fromReports)
    ensures NoRepeats(FinalBasis(t, profiles).order)
  {
    ConsensusIff(t, profiles);
    assert NativeComplete(t, profiles) <==> AllSignalled(t, profiles);
  }

  /**
   A race is complete when all participants are bound to cars and, ranked, have all signalled
   their finish or agree on an order, or, unranked, have all reported.
   */
  lemma CompleteIff(t: Tracker, profiles: seq<Profile>)
    requires Valid(t)
    ensures IsComplete(t, profiles) <==>
      && profiles != [] && (forall p :: p in profiles ==> p in t.carByProfile)
      && if t.ranked then AllSignalled(t, profiles) || Agreeing(t, profiles)
         else forall p :: p in profiles ==> p in t.reports
  {
    AgreeingIff(t, profiles);
  }

  /** The participants agree on an order. */
  ghost predicate Agreeing(t: Tracker, profiles: seq<Profile>) {
    exists c :: Consensus(t, Deduplicated(profiles), c)
  }

  lemma AgreeingIff(t: Tracker, profiles: seq<Profile>)
    requires Valid(t)
    ensures RankedReportOrder(t, profiles).Some? <==> Agreeing(t, profiles)
  {
    ConsensusIff(t, profiles);
  }

  lemma ConsensusNotEmpty(t: Tracker, profiles: seq<Profile>, order: seq<Car>)
    requires Consensus(t, profiles, order)
    ensures order != []
  {
    assert profiles[0] in profiles;
  }

  lemma RankUnique(t: Tracker, order: seq<Car>, profile: Profile, car: Car, a: int, b: int)
    requires NoRepeats(order) && RankIs(t, order, profile, car, a) && RankIs(t, order, profile, car, b)
    ensures a == b
  {
    ShownIs(t, profile, car);
  }

  // ----- winners

  /** The indices of the winners, in order, with their profiles. */
  ghost predicate WinnersByIndex(placements: seq<Placement>, winners: seq<Profile>, indices: seq<nat>) {
    && |indices| == |winners|
    && (forall k :: 0 <= k < |indices| ==> WinsAt(placements, indices[k], winners[k]))
    && (forall j, k :: 0 <= j < k < |indices| ==> indices[j] < indices[k])
    && forall i :: 0 <= i < |placements| && placements[i].ranking == 1 ==> i in indices
  }

  predicate WinsAt(placements: seq<Placement>, index: nat, winner: Profile) {
    index < |placements| && placements[index].ranking == 1 && placements[index].profile == winner
  }

  lemma WinnersStep(placements: seq<Placement>)
    requires placements != []
    ensures WinnerProfiles(placements)
         == (if placements[0].ranking == 1 then [placements[0].profile] else []) + WinnerProfiles(placements[1..])
  {
  }

  lemma {:induction false} WinnersAreByIndex(placements: seq<Placement>) returns (indices: seq<nat>)
    ensures WinnersByIndex(placements, WinnerProfiles(placements), indices)
  {
    indices := [];
    if placements != [] {
      var later := WinnersAreByIndex(placements[1..]);
      indices := seq(|later|, k requires 0 <= k < |later| => later[k] + 1);
      var tail := WinnerProfiles(placements[1..]);
      Moved(placements, tail, later, indices);
      WinnersStep(placements);
      if placements[0].ranking == 1 {
        FirstWins(placements, tail, indices);
        indices := [0] + indices;
      } else {
        OthersWin(placements, tail, indices);
        assert [] + tail == tail;
      }
    }
  }

  lemma {:induction false} FirstWinnerIs(placements: seq<Placement>, indices: seq<nat>)
    requires WinnersByIndex(placements, WinnerProfiles(placements), indices)
    ensures |Winners(placements)| == |indices|
    ensures indices != [] ==> indices[0] < |placements| && Winners(placements)[0] == placements[indices[0]]
  {
    if indices != [] {
      assert WinsAt(placements, indices[0], WinnerProfiles(placements)[0]);
      FirstWinner(placements, indices[0]);
      forall i | 0 <= i < indices[0] ensures placements[i].ranking != 1 {
        if placements[i].ranking == 1 {
          var k :| 0 <= k < |indices| && indices[k] == i;
        }
      }
    }
  }

  /** The first placement of rank 1 is the first winner. */
  lemma {:induction false} FirstWinner(placements: seq<Placement>, first: nat)
    requires first < |placements| && placements[first].ranking == 1
    ensures (forall i :: 0 <= i < first ==> placements[i].ranking != 1) ==>
      Winners(placements) != [] && Winners(placements)[0] == placements[first]
  {
    if first > 0 {
      FirstWinner(placements[1..], first - 1);
      assert forall i :: 0 <= i < first - 1 ==> placements[1..][i] == placements[i + 1];
    }
  }

  /** The winners behind the first placement, counted from it. */
  lemma Moved(placements: seq<Placement>, winners: seq<Profile>, later: seq<nat>, moved: seq<nat>)
    requires placements != [] && WinnersByIndex(placements[1..], winners, later)
    requires |moved| == |later| && forall k :: 0 <= k < |later| ==> moved[k] == later[k] + 1
    ensures |moved| == |winners|
    ensures forall k :: 0 <= k < |moved| ==> WinsAt(placements, moved[k], winners[k])
    ensures forall j, k :: 0 <= j < k < |moved| ==> moved[j] < moved[k]
    ensures forall i :: 1 <= i < |placements| && placements[i].ranking == 1 ==> i in moved
    ensures forall i :: i in moved ==> i >= 1
  {
    var tail := placements[1..];
    forall k | 0 <= k < |moved| ensures WinsAt(placements, moved[k], winners[k]) {
      assert WinsAt(tail, later[k], winners[k]);
    }
    forall i | 1 <= i < |placements| && placements[i].ranking == 1 ensures i in moved {
      assert tail[i - 1] == placements[i];
      var k :| 0 <= k < |later| && later[k] == i - 1;
      assert moved[k] == i;
    }
  }

  lemma FirstWins(placements: seq<Placement>, winners: seq<Profile>, moved: seq<nat>)
    requires placements != [] && placements[0].ranking == 1 && |moved| == |winners|
    requires forall k :: 0 <= k < |moved| ==> WinsAt(placements, moved[k], winners[k])
    requires forall j, k :: 0 <= j < k < |moved| ==> moved[j] < moved[k]
    requires forall i :: 1 <= i < |placements| && placements[i].ranking == 1 ==> i in moved
    requires forall i :: i in moved ==> i >= 1
    ensures WinnersByIndex(placements, [placements[0].profile] + winners, [0] + moved)
  {
    var (all, indices) := ([placements[0].profile] + winners, [0] + moved);
    forall k | 0 <= k < |indices| ensures WinsAt(placements, indices[k], all[k]) {
      assert k > 0 ==> indices[k] == moved[k - 1] && all[k] == winners[k - 1];
    }
    forall j, k | 0 <= j < k < |indices| ensures indices[j] < indices[k] {
      assert indices[k] == moved[k - 1] && moved[k - 1] in moved;
      assert j > 0 ==> indices[j] == moved[j - 1];
    }
  }

  lemma OthersWin(placements: seq<Placement>, winners: seq<Profile>, moved: seq<nat>)
    requires placements != [] && placements[0].ranking != 1 && |moved| == |winners|
    requires forall k :: 0 <= k < |moved| ==> WinsAt(placements, moved[k], winners[k])
    requires forall j, k :: 0 <= j < k < |moved| ==> moved[j] < moved[k]
    requires forall i :: 1 <= i < |placements| && placements[i].ranking == 1 ==> i in moved
    ensures WinnersByIndex(placements, winners, moved)
  {
  }

  // ----- the published report

  /** The fullest report, the earliest of several; an empty one with the fallback mode when there is none. */
  ghost predicate HeaderIs(t: Tracker, fallbackMode: int, header: Report)
    requires forall p :: p in t.reportOrder ==> p in t.reports
  {
    if t.reportOrder == [] then header == Report(0, fallbackMode, 0, 0, 0, Car(0), Blank(MAX_RACERS))
    else exists k :: 0 <= k < |t.reportOrder| && FullestAt(t, t.reportOrder, k) && header == t.reports[t.reportOrder[k]]
  }

  ghost predicate FullestAt(t: Tracker, order: seq<Profile>, k: nat)
    requires k < |order| && forall p :: p in order ==> p in t.reports
  {
    forall j :: 0 <= j < |order| ==>
      var (count, best) := (t.reports[order[j]].racerCount, t.reports[order[k]].racerCount);
      if j < k then count < best else count <= best
  }

  lemma {:induction false} HeaderIsFullest(t: Tracker, order: seq<Profile>, fallbackMode: int) returns (k: nat)
    requires order != [] && forall p :: p in order ==> p in t.reports
    ensures k < |order| && FullestAt(t, order, k) && Header(t.reports, order, fallbackMode) == t.reports[order[k]]
  {
    var (init, last) := (order[..|order| - 1], |order| - 1);
    assert order[last] in order;
    if init == [] {
      k := 0;
    } else {
      k := HeaderIsFullest(t, init, fallbackMode);
      assert forall j :: 0 <= j < last ==> init[j] == order[j] && order[j] in order;
      if t.reports[order[last]].racerCount > t.reports[order[k]].racerCount {
        k := last;
      }
    }
  }

  lemma HeaderFits(t: Tracker, fallbackMode: int)
    requires forall p :: p in t.reportOrder ==> p in t.reports
    ensures HeaderIs(t, fallbackMode, Header(t.reports, t.reportOrder, fallbackMode))
  {
    if t.reportOrder != [] {
      var k := HeaderIsFullest(t, t.reportOrder, fallbackMode);
    }
  }

  /** The metrics of the participant's own row of its car, all zero without one. */
  ghost predicate OwnMetrics(t: Tracker, profile: Profile, car: Car, metrics: seq<Float>) {
    if exists row :: Shown(t, profile, car, row)
    then exists row :: Shown(t, profile, car, row) && row.metrics == metrics
    else |metrics| == 10 && forall m :: m in metrics ==> m == ZERO
  }

  ghost predicate RowOf(t: Tracker, p: Placement, row: Row) {
    && row.car == p.car && row.ranking == p.ranking && row.lost == p.lost && row.finishReason == p.finishReason % 256
    && OwnMetrics(t, p.profile, p.car, row.metrics)
  }

  lemma OwnMetricsAre(t: Tracker, p: Placement)
    ensures OwnMetrics(t, p.profile, p.car, SelfMetric(t, p.profile, p.car).metrics)
  {
    ShownIs(t, p.profile, p.car);
  }

  lemma {:induction false} RowsAre(t: Tracker, placements: seq<Placement>)
    requires PlacementRows(t, placements).Some?
    ensures var rows := PlacementRows(t, placements).value;
      |rows| == |placements| && forall i :: 0 <= i < |rows| ==> RowOf(t, placements[i], rows[i])
  {
    if placements != [] {
      RowsAre(t, placements[1..]);
      OwnMetricsAre(t, placements[0]);
    }
  }

  lemma {:induction false} CleanRowsKept(rows: seq<Row>)
    requires forall row :: row in rows ==> row.Clean()
    ensures CleanRows(rows) == Some(rows)
  {
    if rows != [] {
      assert rows[0] in rows && rows[0].Clean();
      assert NonFinite !in rows[0].metrics;
      assert rows[0].Cleaned() == Some(rows[0]);
      CleanRowsKept(rows[1..]);
      assert rows == [rows[0]] + rows[1..];
    }
  }

  /** Cutting numbers to their wire width is all that is done to a report of eight clean rows. */
  lemma NormalizedIs(report: Report)
    requires 0 <= report.racerCount <= MAX_RACERS && |report.racers| == MAX_RACERS
    requires forall row :: row in report.racers ==> row.Clean()
    ensures report.Normalized() == Some(report
        .(raceMode := report.raceMode % 256, trackNumber := report.trackNumber % 0x1_0000)
        .(trackDirection := report.trackDirection % 256, laps := report.laps % 256))
  {
    CleanRowsKept(report.racers);
    assert report.racers + [] == report.racers;
  }

  /** The course of the header, with the fallback for a ranked race that shows no mode. */
  ghost predicate CourseOf(header: Report, ranked: bool, fallbackMode: int, results: Report) {
    && results.raceMode == (if ranked && header.raceMode == 0 then fallbackMode else header.raceMode) % 256
    && results.trackNumber == header.trackNumber % 0x1_0000
    && results.trackDirection == header.trackDirection % 256 && results.laps == header.laps % 256
  }

  /** A ranked race publishes one row a participant, in order, and then blank ones. */
  ghost predicate RankedRows(t: Tracker, order: seq<Car>, placements: seq<Placement>, results: Report) {
    && results.racerCount == |placements| <= |results.racers| == MAX_RACERS
    && (forall i :: 0 <= i < |placements| ==> RowOf(t, placements[i], results.racers[i]))
    && (forall i :: |placements| <= i < MAX_RACERS ==> results.racers[i] == EMPTY_ROW)
    && results.reportingCar == if order != [] then order[0] else Car(0)
  }

  /** An unranked race publishes the header's rows, with the car of the first winner as the reporting one. */
  ghost predicate HeaderRows(header: Report, placements: seq<Placement>, indices: seq<nat>, results: Report)
    requires forall k :: 0 <= k < |indices| ==> indices[k] < |placements|
  {
    && results.racerCount == header.racerCount && results.racers == header.racers
    && results.reportingCar == if indices != [] then placements[indices[0]].car else header.reportingCar
  }

  lemma {:induction false} PaddedRows(rows: seq<Row>)
    requires |rows| <= MAX_RACERS && forall row :: row in rows ==> row.Clean()
    ensures var all := rows + Blank(MAX_RACERS - |rows|);
      && |all| == MAX_RACERS && (forall row :: row in all ==> row.Clean())
      && (forall i :: 0 <= i < |rows| ==> all[i] == rows[i])
      && forall i :: |rows| <= i < MAX_RACERS ==> all[i] == EMPTY_ROW
  {
    var blank := Blank(MAX_RACERS - |rows|);
    var all := rows + blank;
    assert EMPTY_ROW.Clean();
    forall i | |rows| <= i < MAX_RACERS ensures all[i] == EMPTY_ROW {
      assert blank[i - |rows|] in blank;
    }
  }

  lemma {:induction false} RankedReport(t: Tracker, basis: Basis, placements: seq<Placement>, fallbackMode: int)
    requires Valid(t) && t.ranked && PlacementRows(t, placements).Some?
    ensures var header := Header(t.reports, t.reportOrder, fallbackMode);
      var results := FinalReport(t, basis, placements, PlacementRows(t, placements).value, fallbackMode);
      && (results.Some? <==> |placements| <= MAX_RACERS)
      && (results.Some? ==>
            RankedRows(t, basis.order, placements, results.value)
              && CourseOf(header, true, fallbackMode, results.value))
  {
    if |placements| <= MAX_RACERS {
      var rows := PlacementRows(t, placements).value;
      RowsSucceed(t, placements);
      RowsAre(t, placements);
      PaddedRows(rows);
      var header := Header(t.reports, t.reportOrder, fallbackMode);
      NormalizedIs(Report(
        |placements|, if header.raceMode != 0 then header.raceMode else fallbackMode, header.trackNumber,
        header.trackDirection, header.laps, if basis.order != [] then basis.order[0] else Car(0),
        rows + Blank(MAX_RACERS - |rows|)));
    }
  }

  lemma {:induction false} UnrankedReport(t: Tracker, basis: Basis, placements: seq<Placement>, rows: seq<Row>,
      fallbackMode: int,
      indices: seq<nat>)
    requires Valid(t) && !t.ranked && WinnersByIndex(placements, WinnerProfiles(placements), indices)
    requires |Winners(placements)| == |indices|
    requires indices != [] ==> indices[0] < |placements| && Winners(placements)[0] == placements[indices[0]]
    ensures var header := Header(t.reports, t.reportOrder, fallbackMode);
      var results := FinalReport(t, basis, placements, rows, fallbackMode);
      && results.Some? && HeaderRows(header, placements, indices, results.value)
      && CourseOf(header, false, fallbackMode, results.value)
  {
    var header := Header(t.reports, t.reportOrder, fallbackMode);
    HeaderFits(t, fallbackMode);
    assert EMPTY_ROW.Clean();
    assert header.Normal();
    var winners := Winners(placements);
    NormalizedIs(header.(reportingCar := if winners != [] then winners[0].car else header.reportingCar));
  }

  // ----- the whole race

  /** What a finalized race says about the evidence. */
  ghost predicate ByEvidence(t: Tracker, participants: seq<Participant>, fallbackMode: int, race: FinalizedRace)
    requires Valid(t)
  {
    exists order, fromReports, indices, header ::
      && OrderIs(t, Profiles(participants), order, fromReports)
      && WinnersByIndex(race.placements, race.winners, indices)
      && HeaderIs(t, fallbackMode, header)
      && SaysEvidence(t, participants, fallbackMode, order, fromReports, indices, header, race)
  }

  ghost predicate SaysEvidence(t: Tracker, participants: seq<Participant>, fallbackMode: int, order: seq<Car>,
      fromReports: bool, indices: seq<nat>, header: Report, race: FinalizedRace)
    requires Valid(t) && WinnersByIndex(race.placements, race.winners, indices)
  {
    && race.ranked == t.ranked
    && |race.placements| == |participants|
    && (forall i :: 0 <= i < |participants| ==>
          PlacedByEvidence(t, order, fromReports, participants[i], race.placements[i]))
    && CourseOf(header, t.ranked, fallbackMode, race.results)
    && if t.ranked then RankedRows(t, order, race.placements, race.results)
       else HeaderRows(header, race.placements, indices, race.results)
  }

  /** Every participant's rank, by the evidence, fits the eight slots. */
  ghost predicate EveryRankFits(t: Tracker, participants: seq<Participant>) {
    exists order, fromReports ::
      && OrderIs(t, Profiles(participants), order, fromReports)
      && forall i :: 0 <= i < |participants| ==> RankFitsSlot(t, order, participants[i])
  }

  ghost predicate RankFitsSlot(t: Tracker, order: seq<Car>, participant: Participant) {
    exists rank :: RankIs(t, order, participant.0, ParticipantCar(t, participant), rank) && rank <= MAX_RACERS
  }

  /** The bound car of a participant, or one with the player's own number. */
  function ParticipantCar(t: Tracker, participant: Participant): Car {
    if participant.0 in t.carByProfile then t.carByProfile[participant.0] else Car(participant.1)
  }

  lemma RowAcceptedIff(t: Tracker, basis: Basis, participant: Participant)
    requires Valid(t) && NoRepeats(basis.order)
    ensures PlacementRow(t, Place(t, basis, participant)).Some? <==> RankFitsSlot(t, basis.order, participant)
  {
    var p := Place(t, basis, participant);
    PlaceIs(t, basis, participant);
    RowAccepted(t, p);
    RankNotNegative(t, basis, participant);
    assert RankIs(t, basis.order, p.profile, p.car, p.ranking);
    if RankFitsSlot(t, basis.order, participant) {
      var rank :| RankIs(t, basis.order, p.profile, p.car, rank) && rank <= MAX_RACERS;
      RankUnique(t, basis.order, p.profile, p.car, p.ranking, rank);
    }
  }

  lemma RankNotNegative(t: Tracker, basis: Basis, participant: Participant)
    requires Valid(t)
    ensures Place(t, basis, participant).ranking >= 0
  {
    var car := Place(t, basis, participant).car;
    RankingIs(t, car);
    var metric := SelfMetric(t, participant.0, car);
    assert metric == EMPTY_ROW || metric.Clean();
  }

  /** The order is the only one. */
  lemma OrderUnique(t: Tracker, profiles: seq<Profile>, a: seq<Car>, b: seq<Car>, x: bool, y: bool)
    requires Valid(t) && OrderIs(t, profiles, a, x) && OrderIs(t, profiles, b, y)
    ensures a == b && x == y
  {
    UnanimousIff(t, profiles, a);
    UnanimousIff(t, profiles, b);
  }

  lemma RowsAcceptedIff(t: Tracker, participants: seq<Participant>)
    requires Valid(t) && participants != []
    ensures var basis := FinalBasis(t, Profiles(participants));
      PlacementRows(t, Places(t, basis, participants)).Some? <==> EveryRankFits(t, participants)
  {
    var basis := FinalBasis(t, Profiles(participants));
    var places := Places(t, basis, participants);
    BasisIs(t, Profiles(participants));
    RowsSucceed(t, places);
    forall i | 0 <= i < |participants|
      ensures PlacementRow(t, places[i]).Some? <==> RankFitsSlot(t, basis.order, participants[i])
    {
      RowAcceptedIff(t, basis, participants[i]);
    }
    if EveryRankFits(t, participants) {
      var order, fromReports :| OrderIs(t, Profiles(participants), order, fromReports)
        && forall i :: 0 <= i < |participants| ==> RankFitsSlot(t, order, participants[i]);
      OrderUnique(t, Profiles(participants), order, basis.order, fromReports, basis.fromReports);
    }
  }

  /**
   Every race, ranked or not: when finalizing succeeds, and that everything it publishes is
   what the evidence says.
   */
  lemma {:induction false} FinalizedByEvidence(t: Tracker, participants: seq<Participant>, fallbackMode: int)
    requires Valid(t)
    ensures var (after, race) := Finalize(t, participants, fallbackMode);
      && (race.Some? <==> !t.finalSent && participants != [] && (t.ranked ==> |participants| <= MAX_RACERS)
                          && EveryRankFits(t, participants))
      && after == t.(finalSent := t.finalSent || race.Some?)
      && (race.Some? ==> ByEvidence(t, participants, fallbackMode, race.value))
  {
    if !t.finalSent && participants != [] {
      var basis := FinalBasis(t, Profiles(participants));
      var places := Places(t, basis, participants);
      RowsAcceptedIff(t, participants);
      BasisIs(t, Profiles(participants));
      HeaderFits(t, fallbackMode);
      var indices := WinnersAreByIndex(places);
      FirstWinnerIs(places, indices);
      if PlacementRows(t, places).Some? {
        if t.ranked {
          RankedReport(t, basis, places, fallbackMode);
        } else {
          UnrankedReport(t, basis, places, PlacementRows(t, places).value, fallbackMode, indices);
        }
        forall i | 0 <= i < |participants|
          ensures PlacedByEvidence(t, basis.order, basis.fromReports, participants[i], places[i])
        {
          PlaceIs(t, basis, participants[i]);
        }
        var race := Finalize(t, participants, fallbackMode).1;
        if race.Some? {
          assert SaysEvidence(t, participants, fallbackMode, basis.order, basis.fromReports, indices,
                              Header(t.reports, t.reportOrder, fallbackMode), race.value);
        }
      }
    }
  }
}
