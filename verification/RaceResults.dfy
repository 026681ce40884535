/** Evidence about one race and its authoritative result (server/carbon/gamemanager/results.py). */
module RaceResults {
  import opened Collections
  import opened Options

  const MAX_RACERS := 8

  datatype Profile = Profile(id: int)
  datatype Car = Car(id: int)

  datatype Float = Finite(value: real) | NonFinite

  /** One racer slot; the ten wire floats travel as a sequence. */
  datatype Row = Row(lost: bool, ranking: int, finishReason: int, car: Car, metrics: seq<Float>) {
    predicate Clean() {
      0 <= ranking <= MAX_RACERS && 0 <= finishReason < 256 && forall m :: m in metrics ==> m.Finite?
    }

    /** None stands for ResultCodecError. */
    function Cleaned(): (r: Option<Row>)
      ensures r.Some? ==> r.value.Clean()
    {
      if !(0 <= ranking <= MAX_RACERS) || NonFinite in metrics then None
      else Some(this.(finishReason := finishReason % 256))
    }
  }

  const ZERO := Finite(0.0)
  const EMPTY_ROW := Row(false, 0, 0, Car(0), [ZERO, ZERO, ZERO, ZERO, ZERO, ZERO, ZERO, ZERO, ZERO, ZERO])

  /** `(_EMPTY_RACER,) * n`, empty for a negative count. */
  function Blank(n: int): (rows: seq<Row>)
    ensures |rows| == if n < 0 then 0 else n
    ensures forall row :: row in rows ==> row == EMPTY_ROW
  {
    if n <= 0 then [] else [EMPTY_ROW] + Blank(n - 1)
  }

  datatype Report = Report(
    racerCount: int, raceMode: int, trackNumber: int, trackDirection: int, laps: int,
    reportingCar: Car, racers: seq<Row>)
  {
    function Normalized(): (r: Option<Report>)
      ensures r.Some? ==> r.value.Normal()
    {
      var cleaned := CleanRows(if |racers| <= MAX_RACERS then racers else racers[..MAX_RACERS]);
      if !(0 <= racerCount <= MAX_RACERS) || cleaned.None? then None
      else
        Some(Report(racerCount, raceMode % 256, trackNumber % 0x1_0000, trackDirection % 256, laps % 256, reportingCar,
                    cleaned.value + Blank(MAX_RACERS - |cleaned.value|)))
    }

    predicate Normal() {
      0 <= racerCount <= MAX_RACERS && |racers| == MAX_RACERS && forall row :: row in racers ==> row.Clean()
    }

    /** The first row of the car. */
    function RowForCar(car: Car): Option<Row> {
      FindRow(racers, car)
    }
  }

  function CleanRows(rows: seq<Row>): (r: Option<seq<Row>>)
    ensures r.Some? ==> |r.value| == |rows| && forall row :: row in r.value ==> row.Clean()
  {
    if rows == [] then Some([])
    else
      match (rows[0].Cleaned(), CleanRows(rows[1..]))
      case (Some(first), Some(rest)) => Some([first] + rest)
      case _ => None
  }

  function FindRow(rows: seq<Row>, car: Car): (r: Option<Row>)
    ensures r.Some? ==> r.value in rows && r.value.car == car
  {
    if rows == [] then None
    else if rows[0].car == car then Some(rows[0])
    else FindRow(rows[1..], car)
  }

  datatype FinishSignal = FinishSignal(car: Car, finishReason: int)

  /** `reportOrder` is the insertion order of the reports dictionary. */
  datatype Tracker = Tracker(
    ranked: bool, carByProfile: map<Profile, Car>, profileByCar: map<Car, Profile>,
    finishSignals: map<Car, FinishSignal>, finishOrder: seq<Car>,
    reports: map<Profile, Report>, reportOrder: seq<Profile>, finalSent: bool)

  function NewTracker(ranked: bool): Tracker {
    Tracker(ranked, map[], map[], map[], [], map[], [], false)
  }

  predicate CanBind(t: Tracker, profile: Profile, car: Car) {
    && car.id > 0
    && (profile in t.carByProfile ==> t.carByProfile[profile] == car)
    && (car in t.profileByCar ==> t.profileByCar[car] == profile)
  }

  function BindCar(t: Tracker, profile: Profile, car: Car): Tracker {
    if !CanBind(t, profile, car) then t
    else t.(carByProfile := t.carByProfile[profile := car], profileByCar := t.profileByCar[car := profile])
  }

  function RecordFinish(t: Tracker, profile: Profile, signal: FinishSignal): Tracker {
    if !CanBind(t, profile, signal.car) then t
    else
      var b := BindCar(t, profile, signal.car);
      if signal.car in t.finishSignals then b
      else b.(finishSignals := t.finishSignals[signal.car := signal], finishOrder := t.finishOrder + [signal.car])
  }

  function StoreReport(t: Tracker, profile: Profile, normal: Report): Tracker {
    t.(reports := t.reports[profile := normal],
       reportOrder := if profile in t.reports then t.reportOrder else t.reportOrder + [profile])
  }

  function RecordReport(t: Tracker, profile: Profile, report: Report): Tracker {
    match report.Normalized()
    case None => t
    case Some(normal) =>
      if normal.reportingCar.id <= 0 then StoreReport(t, profile, normal)
      else if !CanBind(t, profile, normal.reportingCar) then t
      else StoreReport(BindCar(t, profile, normal.reportingCar), profile, normal)
  }

  // ----- the unanimous report order

  predicate AllBound(t: Tracker, profiles: seq<Profile>) {
    forall p :: p in profiles ==> p in t.carByProfile
  }

  predicate AllReported(t: Tracker, profiles: seq<Profile>) {
    forall p :: p in profiles ==> p in t.reports
  }

  predicate ShowsRank(row: Option<Row>, rank: int) {
    row.Some? && !row.value.lost && row.value.ranking == rank
  }

  /** Every reporter shows the car connected, with this same positive ranking. */
  predicate AgreedRank(t: Tracker, reporters: seq<Profile>, car: Car, rank: int) {
    rank > 0 && forall r :: r in reporters ==> r in t.reports && ShowsRank(t.reports[r].RowForCar(car), rank)
  }

  /** The common ranking of the car; None when a reporter lacks it or two differ. */
  function CommonRank(t: Tracker, reporters: seq<Profile>, car: Car): Option<int>
    requires reporters != [] && AllReported(t, reporters)
  {
    var (init, last) := (reporters[..|reporters| - 1], reporters[|reporters| - 1]);
    var row := t.reports[last].RowForCar(car);
    if row.None? || row.value.lost || row.value.ranking <= 0 then None
    else if init == [] || CommonRank(t, init, car) == Some(row.value.ranking) then Some(row.value.ranking)
    else None
  }

  /** (car, rank) for every profile of `profiles`, in order. */
  function RankPairs(t: Tracker, reporters: seq<Profile>, profiles: seq<Profile>): (r: Option<seq<(Car, int)>>)
    requires reporters != [] && AllReported(t, reporters) && AllBound(t, profiles)
    ensures r.Some? ==> |r.value| == |profiles|
  {
    if profiles == [] then Some([])
    else
      assert profiles[0] in profiles;
      var car := t.carByProfile[profiles[0]];
      match CommonRank(t, reporters, car)
      case None => None
      case Some(rank) =>
        match RankPairs(t, reporters, profiles[1..])
        case None => None
        case Some(rest) => Some([(car, rank)] + rest)
  }

  predicate DistinctRanks(pairs: seq<(Car, int)>) {
    forall i, j :: 0 <= i < j < |pairs| ==> pairs[i].1 != pairs[j].1
  }

  predicate Before(a: (Car, int), b: (Car, int)) {
    a.1 < b.1 || (a.1 == b.1 && a.0.id <= b.0.id)
  }

  function Insert(pair: (Car, int), sorted: seq<(Car, int)>): seq<(Car, int)> {
    if sorted == [] || Before(pair, sorted[0]) then [pair] + sorted
    else [sorted[0]] + Insert(pair, sorted[1..])
  }

  /** Python's `sorted` by ranking, then car. */
  function Sorted(pairs: seq<(Car, int)>): seq<(Car, int)> {
    if pairs == [] then [] else Insert(pairs[0], Sorted(pairs[1..]))
  }

  function Cars(pairs: seq<(Car, int)>): seq<Car> {
    seq(|pairs|, i requires 0 <= i < |pairs| => pairs[i].0)
  }

  /** The finish order restricted to the cars of `among`. */
  function Observed(order: seq<Car>, among: seq<Car>): seq<Car> {
    if order == [] then []
    else
      Observed(order[..|order| - 1], among)
      + if order[|order| - 1] in among then [order[|order| - 1]] else []
  }

  function RankedReportOrder(t: Tracker, profiles: seq<Profile>): Option<seq<Car>> {
    var expected := Deduplicated(profiles);
    if expected == [] || !AllBound(t, expected) || !AllReported(t, expected) then None
    else
      match RankPairs(t, expected, expected)
      case None => None
      case Some(pairs) =>
        if !DistinctRanks(pairs) then None
        else
          var order := Cars(Sorted(pairs));
          if Observed(t.finishOrder, Cars(pairs)) <= order then Some(order) else None
  }

  predicate NativeComplete(t: Tracker, profiles: seq<Profile>) {
    forall p :: p in profiles ==> p in t.carByProfile && t.carByProfile[p] in t.finishSignals
  }

  predicate IsComplete(t: Tracker, profiles: seq<Profile>) {
    && profiles != [] && AllBound(t, profiles)
    && if t.ranked then NativeComplete(t, profiles) || RankedReportOrder(t, profiles).Some?
       else AllReported(t, profiles)
  }

  // ----- the final result

  datatype Value = Value(n: int)

  /** The only value, or 0 when there is none or several. */
  function Sole(values: set<Value>): int {
    if |values| == 1 then
      OnlyOne(values);
      var v :| v in values; v.n
    else 0
  }

  lemma OnlyOne(values: set<Value>)
    requires |values| == 1
    ensures exists v :: v in values && forall w :: w in values ==> w == v
  {
    assert values != {};
    var v :| v in values;
    assert |values - {v}| == 0;
    assert values - {v} == {};
    assert values <= {v};
  }

  function ConsensusReason(t: Tracker, car: Car): int {
    Sole(set p | p in t.reports && t.reports[p].RowForCar(car).Some? ::
           Value(t.reports[p].RowForCar(car).value.finishReason))
  }

  function ConsensusRanking(t: Tracker, car: Car): int {
    Sole(set p | p in t.reports && t.reports[p].RowForCar(car).Some? && t.reports[p].RowForCar(car).value.ranking > 0
           :: Value(t.reports[p].RowForCar(car).value.ranking))
  }

  predicate ConsensusLost(t: Tracker, car: Car) {
    (set p | p in t.reports && t.reports[p].RowForCar(car).Some? :: t.reports[p].RowForCar(car).value.lost) == {true}
  }

  function SelfMetric(t: Tracker, profile: Profile, car: Car): Row {
    if profile !in t.reports then EMPTY_ROW
    else match t.reports[profile].RowForCar(car)
      case None => EMPTY_ROW
      case Some(row) => row
  }

  /** One-based position of the car; 0 when it is not in the order. */
  function RankIn(order: seq<Car>, car: Car): (r: nat)
    ensures r <= |order|
    ensures r == 0 <==> car !in order
    ensures r > 0 ==> order[r - 1] == car
  {
    if order == [] then 0
    else if order[|order| - 1] == car then |order|
    else RankIn(order[..|order| - 1], car)
  }

  /** (profile id, player id). */
  type Participant = (Profile, int)

  datatype Placement = Placement(
    profile: Profile, player: int, car: Car, ranking: int, finishReason: int, finished: bool, lost: bool)

  /** What the final order is made of. */
  datatype Basis = Basis(order: seq<Car>, fromReports: bool)

  function FinalBasis(t: Tracker, profiles: seq<Profile>): Basis {
    var reported := if t.ranked && !NativeComplete(t, profiles) then RankedReportOrder(t, profiles) else None;
    if reported.Some? && reported.value != [] then Basis(reported.value, true)
    else Basis(t.finishOrder, reported.Some?)
  }

  function Place(t: Tracker, basis: Basis, participant: Participant): Placement {
    var (profile, player) := participant;
    var car := if profile in t.carByProfile then t.carByProfile[profile] else Car(player);
    var position := RankIn(basis.order, car);
    var reported := ConsensusRanking(t, car);
    var rank := if position > 0 then position
                else if t.ranked then 0
                else if reported != 0 then reported
                else SelfMetric(t, profile, car).ranking;
    var consensusLost := ConsensusLost(t, car);
    var finished := if t.ranked && !basis.fromReports then car in t.finishSignals && rank > 0
                    else rank > 0 && !consensusLost;
    var reason := if car in t.finishSignals then t.finishSignals[car].finishReason else ConsensusReason(t, car);
    Placement(profile, player, car, rank, reason, finished, !finished || consensusLost)
  }

  function PlacementRow(t: Tracker, p: Placement): Option<Row> {
    SelfMetric(t, p.profile, p.car)
      .(lost := p.lost, ranking := p.ranking, finishReason := p.finishReason % 256, car := p.car).Cleaned()
  }

  /** The report with the most racers, the earliest of them in dictionary order. */
  function Header(reports: map<Profile, Report>, order: seq<Profile>, fallbackMode: int): Report
    requires forall p :: p in order ==> p in reports
  {
    if order == [] then Report(0, fallbackMode, 0, 0, 0, Car(0), Blank(MAX_RACERS))
    else
      assert order[|order| - 1] in order;
      var last := reports[order[|order| - 1]];
      if |order| == 1 then last
      else
        var best := Header(reports, order[..|order| - 1], fallbackMode);
        if last.racerCount > best.racerCount then last else best
  }

  datatype FinalizedRace = FinalizedRace(results: Report, placements: seq<Placement>, winners: seq<Profile>,
    ranked: bool)

  function Places(t: Tracker, basis: Basis, participants: seq<Participant>): seq<Placement> {
    seq(|participants|, i requires 0 <= i < |participants| => Place(t, basis, participants[i]))
  }

  function PlacementRows(t: Tracker, placements: seq<Placement>): Option<seq<Row>> {
    if placements == [] then Some([])
    else
      match (PlacementRow(t, placements[0]), PlacementRows(t, placements[1..]))
      case (Some(row), Some(rest)) => Some([row] + rest)
      case _ => None
  }

  function Winners(placements: seq<Placement>): seq<Placement> {
    if placements == [] then []
    else (if placements[0].ranking == 1 then [placements[0]] else []) + Winners(placements[1..])
  }

  function Profiles(participants: seq<Participant>): seq<Profile> {
    seq(|participants|, i requires 0 <= i < |participants| => participants[i].0)
  }

  function WinnerProfiles(placements: seq<Placement>): seq<Profile> {
    var winners := Winners(placements);
    seq(|winners|, i requires 0 <= i < |winners| => winners[i].profile)
  }

  function FinalReport(t: Tracker, basis: Basis, placements: seq<Placement>, rows: seq<Row>,
      fallbackMode: int): Option<Report>
    requires forall p :: p in t.reportOrder ==> p in t.reports
  {
    var header := Header(t.reports, t.reportOrder, fallbackMode);
    var winners := Winners(placements);
    if t.ranked then
      Report(|placements|, if header.raceMode != 0 then header.raceMode else fallbackMode, header.trackNumber,
             header.trackDirection, header.laps, if basis.order != [] then basis.order[0] else Car(0),
             rows + Blank(MAX_RACERS - |rows|)).Normalized()
    else
      header.(reportingCar := if winners != [] then winners[0].car else header.reportingCar).Normalized()
  }

  /** None stands for ResultCodecError; the tracker is closed only on success. */
  function Finalize(t: Tracker, participants: seq<Participant>,
      fallbackMode: int): (r: (Tracker, Option<FinalizedRace>))
    requires forall p :: p in t.reportOrder ==> p in t.reports
  {
    if t.finalSent || participants == [] then (t, None)
    else
      var basis := FinalBasis(t, Profiles(participants));
      var placements := Places(t, basis, participants);
      match PlacementRows(t, placements)
      case None => (t, None)
      case Some(rows) =>
        match FinalReport(t, basis, placements, rows, fallbackMode)
        case None => (t, None)
        case Some(results) =>
          (t.(finalSent := true), Some(FinalizedRace(results, placements, WinnerProfiles(placements), t.ranked)))
  }
}
