/** What each piece of evidence adds to a race (server/carbon/gamemanager/results.py). */
module RaceEvidence {
  import opened Options
  import opened RaceResults
  import opened RaceRuns

  // ----- reports

  function Kept(report: Report): nat {
    if |report.racers| <= 8 then |report.racers| else 8
  }

  predicate RowFits(row: Row) {
    0 <= row.ranking <= 8 && forall m :: m in row.metrics ==> m.Finite?
  }

  /** A report is accepted when its count and the rows that are kept fit the wire format. */
  predicate Acceptable(report: Report) {
    0 <= report.racerCount <= 8 && forall i :: 0 <= i < Kept(report) ==> RowFits(report.racers[i])
  }

  /** The first eight rows, filled up with blank ones, and every number cut to its width. */
  predicate OnWire(report: Report, stored: Report) {
    && stored.racerCount == report.racerCount && stored.reportingCar == report.reportingCar
    && stored.raceMode == report.raceMode % 0x100 && stored.trackNumber == report.trackNumber % 0x1_0000
    && stored.trackDirection == report.trackDirection % 0x100 && stored.laps == report.laps % 0x100
    && |stored.racers| == 8
    && (forall i :: 0 <= i < Kept(report) ==>
          stored.racers[i] == report.racers[i].(finishReason := report.racers[i].finishReason % 0x100))
    && forall i :: Kept(report) <= i < 8 ==> stored.racers[i] == EMPTY_ROW
  }

  lemma CleanedIff(row: Row)
    ensures row.Cleaned().Some? <==> RowFits(row)
    ensures row.Cleaned().Some? ==> row.Cleaned().value == row.(finishReason := row.finishReason % 0x100)
  {
    if NonFinite !in row.metrics {
      assert forall m :: m in row.metrics ==> m.Finite?;
    }
  }

  lemma {:induction false} CleanRowsIff(rows: seq<Row>)
    ensures CleanRows(rows).Some? <==> forall i :: 0 <= i < |rows| ==> RowFits(rows[i])
    ensures CleanRows(rows).Some? ==>
      forall i :: 0 <= i < |rows| ==> CleanRows(rows).value[i] == rows[i].(finishReason := rows[i].finishReason % 0x100)
  {
    if rows != [] {
      CleanedIff(rows[0]);
      CleanRowsIff(rows[1..]);
      assert forall i :: 0 < i < |rows| ==> rows[i] == rows[1..][i - 1];
    }
  }

  lemma {:induction false} NormalizedIff(report: Report)
    ensures report.Normalized().Some? <==> Acceptable(report)
    ensures report.Normalized().Some? ==> OnWire(report, report.Normalized().value)
  {
    var rows := if |report.racers| <= MAX_RACERS then report.racers else report.racers[..MAX_RACERS];
    CleanRowsIff(rows);
    assert |rows| == Kept(report) && forall i :: 0 <= i < |rows| ==> rows[i] == report.racers[i];
    if report.Normalized().Some? {
      var (cleaned, blank) := (CleanRows(rows).value, Blank(MAX_RACERS - |rows|));
      forall i | |rows| <= i < MAX_RACERS ensures (cleaned + blank)[i] == EMPTY_ROW {
        assert blank[i - |rows|] in blank;
      }
    }
  }

  // ----- cars

  /** A profile may take a car that it has or that, like the profile, is free. */
  ghost predicate MayBind(t: Tracker, profile: Profile, car: Car) {
    car.id > 0 && forall q :: q in t.carByProfile ==> (q == profile <==> t.carByProfile[q] == car)
  }

  lemma CanBindIff(t: Tracker, profile: Profile, car: Car)
    requires Valid(t)
    ensures CanBind(t, profile, car) <==> MayBind(t, profile, car)
  {
    if CanBind(t, profile, car) {
      forall q | q in t.carByProfile ensures q == profile <==> t.carByProfile[q] == car {
        assert t.profileByCar[t.carByProfile[q]] == q;
      }
    }
  }

  /** The tracker with a car bound, and nothing else different. */
  ghost predicate WithCar(t: Tracker, profile: Profile, car: Car, after: Tracker) {
    && after.carByProfile == t.carByProfile[profile := car]
    && after.(carByProfile := t.carByProfile, profileByCar := t.profileByCar) == t
  }

  ghost predicate FinishedOnce(t: Tracker, profile: Profile, signal: FinishSignal, after: Tracker) {
    && after.carByProfile == t.carByProfile[profile := signal.car]
    && after.finishOrder == t.finishOrder + (if signal.car in t.finishOrder then [] else [signal.car])
    && after.finishSignals == (if signal.car in t.finishOrder then t.finishSignals
                               else t.finishSignals[signal.car := signal])
    && after.reports == t.reports && after.reportOrder == t.reportOrder
  }

  ghost predicate ReportStored(t: Tracker, profile: Profile, report: Report, after: Tracker) {
    && profile in after.reports && OnWire(report, after.reports[profile])
    && after.reports == t.reports[profile := after.reports[profile]]
    && after.reportOrder == t.reportOrder + (if profile in t.reports then [] else [profile])
    && after.carByProfile == (if report.reportingCar.id > 0 then t.carByProfile[profile := report.reportingCar]
                              else t.carByProfile)
    && after.finishOrder == t.finishOrder && after.finishSignals == t.finishSignals
  }

  ghost predicate ReportCounts(t: Tracker, profile: Profile, report: Report) {
    Acceptable(report) && (report.reportingCar.id > 0 ==> MayBind(t, profile, report.reportingCar))
  }

  lemma ReportAdds(t: Tracker, profile: Profile, report: Report)
    requires Valid(t)
    ensures var after := RecordReport(t, profile, report);
      if ReportCounts(t, profile, report) then ReportStored(t, profile, report, after) else after == t
  {
    NormalizedIff(report);
    CanBindIff(t, profile, report.reportingCar);
  }

  lemma FinishAdds(t: Tracker, profile: Profile, signal: FinishSignal)
    requires Valid(t)
    ensures var after := RecordFinish(t, profile, signal);
      if MayBind(t, profile, signal.car) then FinishedOnce(t, profile, signal, after) else after == t
  {
    CanBindIff(t, profile, signal.car);
    assert t.finishOrder + [] == t.finishOrder;
  }

  /** Each piece of evidence, from what was known before: refused without a change, or recorded exactly. */
  lemma EvidenceAdds(t: Tracker, e: Evidence)
    requires Valid(t)
    ensures var after := AfterEvidence(t, e);
      match e
      case Bound(profile, car) =>
        if MayBind(t, profile, car) then WithCar(t, profile, car, after) else after == t
      case Finished(profile, signal) =>
        if MayBind(t, profile, signal.car) then FinishedOnce(t, profile, signal, after) else after == t
      case Reported(profile, report) =>
        if ReportCounts(t, profile, report) then ReportStored(t, profile, report, after) else after == t
  {
    match e
    case Bound(profile, car) => CanBindIff(t, profile, car);
    case Finished(profile, signal) => FinishAdds(t, profile, signal);
    case Reported(profile, report) => ReportAdds(t, profile, report);
  }
}
