/** What every run of evidence keeps, and what completeness promises about the final result. */
module RaceRuns {
  import opened Options
  import opened RaceResults

  datatype Evidence =
    | Bound(profile: Profile, car: Car)
    | Finished(profile: Profile, signal: FinishSignal)
    | Reported(profile: Profile, report: Report)

  function AfterEvidence(t: Tracker, e: Evidence): Tracker {
    match e
    case Bound(profile, car) => BindCar(t, profile, car)
    case Finished(profile, signal) => RecordFinish(t, profile, signal)
    case Reported(profile, report) => RecordReport(t, profile, report)
  }

  function Run(t: Tracker, evidence: seq<Evidence>): Tracker
    decreases |evidence|
  {
    if evidence == [] then t else Run(AfterEvidence(t, evidence[0]), evidence[1..])
  }

  ghost predicate NoRepeats<T>(s: seq<T>) {
    forall i, j :: 0 <= i < j < |s| ==> s[i] != s[j]
  }

  /** Cars and profiles are in bijection. */
  ghost predicate Bijective(t: Tracker) {
    && (forall p :: p in t.carByProfile ==>
          t.carByProfile[p].id > 0 && t.carByProfile[p] in t.profileByCar && t.profileByCar[t.carByProfile[p]] == p)
    && (forall c :: c in t.profileByCar ==>
      t.profileByCar[c] in t.carByProfile && t.carByProfile[t.profileByCar[c]] == c)
  }

  /** The finish order lists the signalled cars, all of them bound, once each. */
  ghost predicate OrderValid(t: Tracker) {
    && NoRepeats(t.finishOrder)
    && (forall c :: c in t.finishOrder <==> c in t.finishSignals)
    && (forall c :: c in t.finishSignals ==> c in t.profileByCar)
  }

  ghost predicate ReportsValid(t: Tracker) {
    && (forall p :: p in t.reports ==> t.reports[p].Normal())
    && NoRepeats(t.reportOrder)
    && (forall p :: p in t.reportOrder <==> p in t.reports)
  }

  ghost predicate Valid(t: Tracker) {
    Bijective(t) && OrderValid(t) && ReportsValid(t)
  }

  lemma BindStaysValid(t: Tracker, profile: Profile, car: Car)
    requires Valid(t)
    ensures Valid(BindCar(t, profile, car))
    ensures CanBind(t, profile, car) ==> car in BindCar(t, profile, car).profileByCar
  {
    var b := BindCar(t, profile, car);
    assert Bijective(b);
    assert OrderValid(b);
    assert ReportsValid(b);
  }

  lemma AppendNew<T>(s: seq<T>, x: T)
    requires NoRepeats(s) && x !in s
    ensures NoRepeats(s + [x])
    ensures forall y :: y in s + [x] <==> y in s || y == x
  {
  }

  lemma FinishStaysValid(t: Tracker, profile: Profile, signal: FinishSignal)
    requires Valid(t)
    ensures Valid(RecordFinish(t, profile, signal))
  {
    BindStaysValid(t, profile, signal.car);
    if CanBind(t, profile, signal.car) && signal.car !in t.finishSignals {
      AppendNew(t.finishOrder, signal.car);
      var r := RecordFinish(t, profile, signal);
      assert Bijective(r);
      assert OrderValid(r);
    }
  }

  lemma StoreStaysValid(t: Tracker, profile: Profile, normal: Report)
    requires Valid(t) && normal.Normal()
    ensures Valid(StoreReport(t, profile, normal))
  {
    if profile !in t.reports {
      AppendNew(t.reportOrder, profile);
    }
    var r := StoreReport(t, profile, normal);
    assert Bijective(r);
    assert OrderValid(r);
    assert ReportsValid(r);
  }

  lemma ReportStaysValid(t: Tracker, profile: Profile, report: Report)
    requires Valid(t)
    ensures Valid(RecordReport(t, profile, report))
  {
    var normal := report.Normalized();
    if normal.Some? {
      BindStaysValid(t, profile, normal.value.reportingCar);
      StoreStaysValid(t, profile, normal.value);
      StoreStaysValid(BindCar(t, profile, normal.value.reportingCar), profile, normal.value);
    }
  }

  lemma StaysValid(t: Tracker, e: Evidence)
    requires Valid(t)
    ensures Valid(AfterEvidence(t, e))
    ensures AfterEvidence(t, e).ranked == t.ranked && AfterEvidence(t, e).finalSent == t.finalSent
  {
    match e
    case Bound(profile, car) => BindStaysValid(t, profile, car);
    case Finished(profile, signal) => FinishStaysValid(t, profile, signal);
    case Reported(profile, report) => ReportStaysValid(t, profile, report);
  }

  /** Every run keeps the bijection and the rest of the invariant. */
  lemma {:induction false} RunStaysValid(t: Tracker, evidence: seq<Evidence>)
    requires Valid(t)
    ensures Valid(Run(t, evidence))
    ensures Run(t, evidence).ranked == t.ranked && Run(t, evidence).finalSent == t.finalSent
    decreases |evidence|
  {
    if evidence != [] {
      StaysValid(t, evidence[0]);
      RunStaysValid(AfterEvidence(t, evidence[0]), evidence[1..]);
    }
  }

  // ----- positions

  lemma {:induction false} RankInUnique(order: seq<Car>, k: nat)
    requires NoRepeats(order) && k < |order|
    ensures RankIn(order, order[k]) == k + 1
  {
    var r := RankIn(order, order[k]);
    assert order[k] in order;
    assert order[r - 1] == order[k];
  }

  /** Pairwise different numbers from 1 to `bound` are at most `bound` many. */
  lemma {:induction false} Pigeonhole(values: seq<nat>, bound: nat)
    requires NoRepeats(values) && forall k :: 0 <= k < |values| ==> 1 <= values[k] <= bound
    ensures |values| <= bound
    decreases bound
  {
    assert values != [] ==> 1 <= values[0] <= bound;
    if bound > 0 {
      if exists k :: 0 <= k < |values| && values[k] == bound {
        var k :| 0 <= k < |values| && values[k] == bound;
        Pigeonhole(values[..k] + values[k + 1..], bound - 1);
      } else {
        Pigeonhole(values, bound - 1);
      }
    }
  }

  // ----- rows and winners

  lemma {:induction false} RowsSucceed(t: Tracker, placements: seq<Placement>)
    ensures PlacementRows(t, placements).Some? <==>
      forall k :: 0 <= k < |placements| ==> PlacementRow(t, placements[k]).Some?
    ensures PlacementRows(t, placements).Some? ==>
      var rows := PlacementRows(t, placements).value;
      |rows| == |placements| && forall row :: row in rows ==> row.Clean()
  {
    if placements != [] {
      RowsSucceed(t, placements[1..]);
      assert forall k :: 1 <= k < |placements| ==> placements[k] == placements[1..][k - 1];
    }
  }

  /** A placement's row is accepted exactly when its rank fits the eight slots. */
  lemma RowAccepted(t: Tracker, p: Placement)
    requires Valid(t)
    ensures PlacementRow(t, p).Some? <==> 0 <= p.ranking <= MAX_RACERS
  {
    var metric := SelfMetric(t, p.profile, p.car);
    assert metric == EMPTY_ROW || metric.Clean();
  }

  lemma {:induction false} CleanRowsSucceed(rows: seq<Row>)
    requires forall row :: row in rows ==> row.Clean()
    ensures CleanRows(rows).Some?
  {
    if rows != [] {
      assert rows[0] in rows && rows[0].Clean();
      assert NonFinite !in rows[0].metrics;
      CleanRowsSucceed(rows[1..]);
    }
  }

  lemma ReportSucceeds(t: Tracker, basis: Basis, placements: seq<Placement>, rows: seq<Row>, fallbackMode: int)
    requires Valid(t) && t.ranked
    requires |rows| == |placements| <= MAX_RACERS && forall row :: row in rows ==> row.Clean()
    ensures FinalReport(t, basis, placements, rows, fallbackMode).Some?
  {
    var all := rows + Blank(MAX_RACERS - |rows|);
    assert EMPTY_ROW.Clean();
    CleanRowsSucceed(all);
    assert |all| == MAX_RACERS;
  }

  lemma {:induction false} WinnersAre(placements: seq<Placement>)
    ensures forall w :: w in Winners(placements) <==> w in placements && w.ranking == 1
    ensures (forall i, j :: 0 <= i < j < |placements| ==> placements[i].ranking != placements[j].ranking) ==>
      |Winners(placements)| <= 1
  {
    if placements != [] {
      WinnersAre(placements[1..]);
      var rest := Winners(placements[1..]);
      if placements[0].ranking == 1 && rest != [] {
        assert rest[0] in placements[1..];
        var k :| 0 <= k < |placements[1..]| && placements[1..][k] == rest[0];
        assert placements[k + 1].ranking == 1;
      }
    }
  }
}
