/** A race with nine finish signals (server/carbon/gamemanager/results.py). */
module RaceNinth {
  import opened Options
  import opened RaceResults
  import opened RaceRuns
  import opened RaceFinal

  /** `n` players signal their finish, one after the other. */
  function Finishers(n: nat): seq<Evidence> {
    if n == 0 then [] else Finishers(n - 1) + [Finished(Profile(n), FinishSignal(Car(n), 0))]
  }

  function Players(n: nat): seq<Participant> {
    if n == 0 then [] else Players(n - 1) + [(Profile(n), n)]
  }

  lemma {:induction false} RunLast(t: Tracker, evidence: seq<Evidence>, e: Evidence)
    ensures Run(t, evidence + [e]) == AfterEvidence(Run(t, evidence), e)
    decreases |evidence|
  {
    if evidence == [] {
      assert [] + [e] == [e] && [e][1..] == [];
      assert Run(AfterEvidence(t, e), []) == AfterEvidence(t, e);
    } else {
      assert (evidence + [e])[1..] == evidence[1..] + [e];
      RunLast(AfterEvidence(t, evidence[0]), evidence[1..], e);
    }
  }

  /** The first `n` cars have finished in their order, and nothing else has happened. */
  ghost predicate InOrder(t: Tracker, n: nat) {
    && t.ranked && !t.finalSent && |t.finishOrder| == n
    && (forall k :: 0 <= k < n ==> t.finishOrder[k] == Car(k + 1))
    && (forall c :: c in t.finishSignals <==> 1 <= c.id <= n)
    && (forall p :: p in t.carByProfile <==> 1 <= p.id <= n)
    && (forall p :: p in t.carByProfile ==> t.carByProfile[p] == Car(p.id))
    && (forall c :: c in t.profileByCar <==> 1 <= c.id <= n)
  }

  lemma {:induction false} FinishersInOrder(n: nat)
    ensures InOrder(Run(NewTracker(true), Finishers(n)), n)
  {
    if n > 0 {
      FinishersInOrder(n - 1);
      RunLast(NewTracker(true), Finishers(n - 1), Finished(Profile(n), FinishSignal(Car(n), 0)));
    }
  }

  lemma {:induction false} PlayersAre(n: nat)
    ensures |Players(n)| == n && forall k :: 0 <= k < n ==> Players(n)[k] == (Profile(k + 1), k + 1)
  {
    if n > 0 {
      PlayersAre(n - 1);
    }
  }

  /** More evidence only adds to what was bound and to who has finished. */
  ghost predicate Extends(t: Tracker, u: Tracker) {
    && t.finishOrder <= u.finishOrder
    && (forall p :: p in t.carByProfile ==> p in u.carByProfile && u.carByProfile[p] == t.carByProfile[p])
    && forall c :: c in t.finishSignals ==> c in u.finishSignals
  }

  lemma BindExtends(t: Tracker, profile: Profile, car: Car)
    ensures Extends(t, BindCar(t, profile, car))
  {
  }

  lemma StepExtends(t: Tracker, e: Evidence)
    ensures Extends(t, AfterEvidence(t, e))
  {
    match e
    case Bound(profile, car) => BindExtends(t, profile, car);
    case Finished(profile, signal) => BindExtends(t, profile, signal.car);
    case Reported(profile, report) =>
      if report.Normalized().Some? {
        BindExtends(t, profile, report.Normalized().value.reportingCar);
      }
  }

  lemma {:induction false} RunExtends(t: Tracker, evidence: seq<Evidence>)
    ensures Extends(t, Run(t, evidence))
    decreases |evidence|
  {
    if evidence != [] {
      StepExtends(t, evidence[0]);
      RunExtends(AfterEvidence(t, evidence[0]), evidence[1..]);
    }
  }

  lemma StillReady(t: Tracker, u: Tracker, participants: seq<Participant>)
    requires Extends(t, u) && Roster(t, participants) && NativeComplete(t, Profiles(participants))
    ensures Roster(u, participants) && NativeComplete(u, Profiles(participants))
    ensures forall i :: 0 <= i < |participants| ==> CarOf(u, participants, i) == CarOf(t, participants, i)
  {
    forall i | 0 <= i < |participants| ensures CarOf(u, participants, i) == CarOf(t, participants, i) {
      assert Profiles(participants)[i] in Profiles(participants);
    }
  }

  lemma SameRank(before: seq<Car>, after: seq<Car>, car: Car)
    requires before <= after && NoRepeats(after) && car in before
    ensures RankIn(after, car) == RankIn(before, car)
  {
    var r := RankIn(before, car);
    assert after[r - 1] == car;
    RankInUnique(after, r - 1);
  }

  /** A complete race with a participant behind the eighth place never finalizes, whatever evidence follows. */
  lemma BehindTheEighth(t: Tracker, participants: seq<Participant>, i: nat, more: seq<Evidence>, fallbackMode: int)
    requires Valid(t) && t.ranked && !t.finalSent && Roster(t, participants)
      && NativeComplete(t, Profiles(participants))
    requires i < |participants| && RankIn(t.finishOrder, CarOf(t, participants, i)) > MAX_RACERS
    ensures Valid(Run(t, more)) && IsComplete(Run(t, more), Profiles(participants))
    ensures Finalize(Run(t, more), participants, fallbackMode) == (Run(t, more), None)
  {
    var u := Run(t, more);
    RunStaysValid(t, more);
    RunExtends(t, more);
    StillReady(t, u, participants);
    SameRank(t.finishOrder, u.finishOrder, CarOf(t, participants, i));
    NeverFinal(u, participants, i, fallbackMode);
  }

  lemma NeverFinal(t: Tracker, participants: seq<Participant>, i: nat, fallbackMode: int)
    requires Valid(t) && t.ranked && !t.finalSent && Roster(t, participants)
      && NativeComplete(t, Profiles(participants))
    requires i < |participants| && RankIn(t.finishOrder, CarOf(t, participants, i)) > MAX_RACERS
    ensures Finalize(t, participants, fallbackMode) == (t, None)
  {
    NativeRace(t, participants, fallbackMode);
    FinalizeFails(t, participants, fallbackMode);
  }

  lemma FinalizeFails(t: Tracker, participants: seq<Participant>, fallbackMode: int)
    requires Valid(t) && Finalize(t, participants, fallbackMode).1.None?
    ensures Finalize(t, participants, fallbackMode).0 == t
  {
  }

  /** Nine players who all signal their finish: a reachable race that is complete and never finalizes. */
  lemma NineFinishers(more: seq<Evidence>, fallbackMode: int)
    ensures var t := Run(Run(NewTracker(true), Finishers(9)), more);
      && Valid(t) && IsComplete(t, Profiles(Players(9))) && Finalize(t, Players(9), fallbackMode) == (t, None)
  {
    var t := Run(NewTracker(true), Finishers(9));
    FinishersInOrder(9);
    RunStaysValid(NewTracker(true), Finishers(9));
    PlayersAre(9);
    PlayersReady(t, 9);
    assert t.finishOrder[8] == CarOf(t, Players(9), 8);
    RankInUnique(t.finishOrder, 8);
    BehindTheEighth(t, Players(9), 8, more, fallbackMode);
  }

  lemma PlayersReady(t: Tracker, n: nat)
    requires InOrder(t, n) && n > 0
    ensures |Players(n)| == n
    ensures Roster(t, Players(n)) && NativeComplete(t, Profiles(Players(n)))
    ensures forall k :: 0 <= k < n ==> CarOf(t, Players(n), k) == Car(k + 1)
  {
    PlayersAre(n);
    var profiles := Profiles(Players(n));
    assert forall k :: 0 <= k < n ==> profiles[k] == Profile(k + 1);
    forall p | p in profiles ensures p in t.carByProfile && t.carByProfile[p] in t.finishSignals {
      var k :| 0 <= k < |profiles| && profiles[k] == p;
    }
    assert AllBound(t, profiles);
  }
}
