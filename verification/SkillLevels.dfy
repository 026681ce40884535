/** The pairwise skill rating of a race (server/carbon/progression.py), over real numbers. */
module SkillLevels {
  const TOP := 3000.0

  function Clamp(x: real, low: real, high: real): real {
    if x < low then low else if x > high then high else x
  }

  function Factor(count: nat): real
    requires count > 0
  {
    50.0 / count as real - 1.0
  }

  function Expected(mine: real, other: real): real {
    (Clamp(mine - other, -500.0, 500.0) + 500.0) * 0.001
  }

  /** What one player gains from one opponent. */
  function Gain(skills: seq<real>, ranks: seq<int>, i: nat, j: nat, factor: real): real
    requires i < |skills| == |ranks| && j < |skills|
  {
    ((if ranks[i] < ranks[j] then 1.0 else 0.0) - Expected(skills[i], skills[j])) * factor
  }

  /** What player `i` gains from the opponents below `m`. */
  function Delta(skills: seq<real>, ranks: seq<int>, i: nat, m: nat, factor: real): real
    requires i < |skills| == |ranks| && m <= |skills|
  {
    if m == 0 then 0.0
    else Delta(skills, ranks, i, m - 1, factor) + if m - 1 == i then 0.0 else Gain(skills, ranks, i, m - 1, factor)
  }

  function UpdatedBy(skills: seq<real>, ranks: seq<int>, factor: real): (u: seq<real>)
    requires |skills| == |ranks|
    ensures |u| == |skills|
  {
    seq(|skills|, i requires 0 <= i < |skills| => skills[i] + Delta(skills, ranks, i, |skills|, factor))
  }

  function Updated(skills: seq<real>, ranks: seq<int>): seq<real>
    requires |skills| == |ranks| >= 2
  {
    UpdatedBy(skills, ranks, Factor(|skills|))
  }

  /** One entry is cut to the pool's range and the others share what it had too much or too little. */
  function Spill(u: seq<real>, index: nat): (v: seq<real>)
    requires index < |u| && |u| >= 2
    ensures |v| == |u|
  {
    var kept := Clamp(u[index], 0.0, TOP);
    if u[index] == kept then u
    else
      var share := (u[index] - kept) / (|u| - 1) as real;
      seq(|u|, j requires 0 <= j < |u| => if j == index then kept else u[j] + share)
  }

  function Redistributed(u: seq<real>, upto: nat): (v: seq<real>)
    requires upto <= |u| && |u| >= 2
    ensures |v| == |u|
  {
    if upto == 0 then u else Spill(Redistributed(u, upto - 1), upto - 1)
  }

  function Clamped(u: seq<real>): (v: seq<real>)
    ensures |v| == |u|
  {
    seq(|u|, i requires 0 <= i < |u| => Clamp(u[i], 0.0, TOP))
  }

  function SkillLevels(current: seq<real>, ranks: seq<int>): (r: seq<real>)
    requires |current| == |ranks|
    ensures |r| == |current|
  {
    if |current| < 2 then Clamped(current) else Clamped(Redistributed(Updated(current, ranks), |current|))
  }

  /** `ok` is false when the source raises ValueError. */
  method CalculateSkillLevels(current: seq<real>, rankings: seq<int>) returns (ok: bool, result: seq<real>)
    ensures ok == (|current| == |rankings|)
    ensures ok ==> result == SkillLevels(current, rankings)
  {
    if |current| != |rankings| {
      return false, [];
    }
    ok := true;
    var count := |current|;
    if count < 2 {
      result := Clamped(current);
      return;
    }
    var factor := 50.0 / count as real - 1.0;
    var updated: seq<real> := [];
    for index := 0 to count
      invariant updated == Updated(current, rankings)[..index]
    {
      var delta := 0.0;
      for opponent := 0 to count
        invariant delta == Delta(current, rankings, index, opponent, factor)
      {
        if opponent != index {
          var difference := Clamp(current[index] - current[opponent], -500.0, 500.0);
          var expected := (difference + 500.0) * 0.001;
          var actual := if rankings[index] < rankings[opponent] then 1.0 else 0.0;
          delta := delta + (actual - expected) * factor;
        }
      }
      updated := updated + [current[index] + delta];
    }
    ghost var start := Updated(current, rankings);
    assert updated == start;
    for index := 0 to count
      invariant |updated| == count && updated == Redistributed(start, index)
    {
      ghost var before := updated;
      if updated[index] > TOP || updated[index] < 0.0 {
        var bound := if updated[index] > TOP then TOP else 0.0;
        var share := (updated[index] - bound) / (count - 1) as real;
        for opponent := 0 to count
          invariant |updated| == count
          invariant forall j :: 0 <= j < count ==>
            updated[j] == before[j] + if j < opponent && j != index then share else 0.0
        {
          if opponent != index {
            updated := updated[opponent := updated[opponent] + share];
          }
        }
        updated := updated[index := bound];
      }
      assert updated == Spill(before, index);
    }
    result := Clamped(updated);
  }

  // ----- totals

  function Sum(s: seq<real>): real {
    if s == [] then 0.0 else Sum(s[..|s| - 1]) + s[|s| - 1]
  }

  /** `x` taken `n` times. */
  function Times(x: real, n: nat): real {
    if n == 0 then 0.0 else Times(x, n - 1) + x
  }

  lemma {:induction false} TimesIsProduct(x: real, n: nat)
    ensures Times(x, n) == x * n as real
  {
    if n > 0 {
      TimesIsProduct(x, n - 1);
      var m := (n - 1) as real;
      assert n as real == m + 1.0;
      assert x * (m + 1.0) == x * m + x;
    }
  }

  /** The gains of the first players against the opponents below `m`. */
  function DeltaTotal(skills: seq<real>, ranks: seq<int>, players: nat, m: nat, factor: real): real
    requires players <= |skills| == |ranks| && m <= |skills|
  {
    if players == 0 then 0.0
    else DeltaTotal(skills, ranks, players - 1, m, factor) + Delta(skills, ranks, players - 1, m, factor)
  }

  /** Players below `m` who share the rank of player `i`. */
  function TiesWith(ranks: seq<int>, i: nat, m: nat): nat
    requires i < |ranks| && m <= |ranks|
  {
    if m == 0 then 0 else TiesWith(ranks, i, m - 1) + if ranks[m - 1] == ranks[i] then 1 else 0
  }

  /** Unordered pairs of players below `m` with equal ranks. */
  function TiedPairs(ranks: seq<int>, m: nat): nat
    requires m <= |ranks|
  {
    if m == 0 then 0 else TiedPairs(ranks, m - 1) + TiesWith(ranks, m - 1, m - 1)
  }

  /** A pair's two gains cancel unless the players are tied; then the pair loses `factor`. */
  lemma GainsCancel(skills: seq<real>, ranks: seq<int>, i: nat, j: nat, factor: real)
    requires i < |skills| == |ranks| && j < |skills|
    ensures Gain(skills, ranks, i, j, factor) + Gain(skills, ranks, j, i, factor)
      == if ranks[i] == ranks[j] then -factor else 0.0
  {
    var (e, f) := (Expected(skills[i], skills[j]), Expected(skills[j], skills[i]));
    assert e + f == 1.0;
    var (a, b) := (if ranks[i] < ranks[j] then 1.0 else 0.0, if ranks[j] < ranks[i] then 1.0 else 0.0);
    assert (a - e) * factor + (b - f) * factor == (a + b - (e + f)) * factor;
  }

  /** Opponent `m` joins: every earlier player's delta grows by its gain from `m`. */
  lemma {:induction false} OpponentJoins(skills: seq<real>, ranks: seq<int>, players: nat, m: nat, factor: real)
    requires players <= m < |skills| == |ranks|
    ensures DeltaTotal(skills, ranks, players, m + 1, factor) + Delta(skills, ranks, m, players, factor)
      == DeltaTotal(skills, ranks, players, m, factor) - Times(factor, TiesWith(ranks, m, players))
    decreases players
  {
    if players > 0 {
      OpponentJoins(skills, ranks, players - 1, m, factor);
      GainsCancel(skills, ranks, players - 1, m, factor);
    }
  }

  lemma {:induction false} TimesSum(x: real, a: nat, b: nat)
    ensures Times(x, a + b) == Times(x, a) + Times(x, b)
  {
    if b > 0 {
      TimesSum(x, a, b - 1);
    }
  }

  lemma {:induction false} DeltasCancel(skills: seq<real>, ranks: seq<int>, m: nat, factor: real)
    requires m <= |skills| == |ranks|
    ensures DeltaTotal(skills, ranks, m, m, factor) == -Times(factor, TiedPairs(ranks, m))
  {
    if m > 0 {
      DeltasCancel(skills, ranks, m - 1, factor);
      OpponentJoins(skills, ranks, m - 1, m - 1, factor);
      TimesSum(factor, TiedPairs(ranks, m - 1), TiesWith(ranks, m - 1, m - 1));
    }
  }

  lemma {:induction false} SumUpdated(skills: seq<real>, ranks: seq<int>, k: nat, factor: real)
    requires k <= |skills| == |ranks|
    ensures Sum(UpdatedBy(skills, ranks, factor)[..k])
      == Sum(skills[..k]) + DeltaTotal(skills, ranks, k, |skills|, factor)
  {
    var u := UpdatedBy(skills, ranks, factor);
    if k > 0 {
      SumUpdated(skills, ranks, k - 1, factor);
      assert u[..k][..k - 1] == u[..k - 1];
      assert skills[..k][..k - 1] == skills[..k - 1];
    }
  }

  lemma TotalByFactor(skills: seq<real>, ranks: seq<int>, factor: real)
    requires |skills| == |ranks|
    ensures Sum(UpdatedBy(skills, ranks, factor)) == Sum(skills) - Times(factor, TiedPairs(ranks, |ranks|))
  {
    var n := |skills|;
    SumUpdated(skills, ranks, n, factor);
    DeltasCancel(skills, ranks, n, factor);
    assert UpdatedBy(skills, ranks, factor)[..n] == UpdatedBy(skills, ranks, factor);
    assert skills[..n] == skills;
  }

  /** Before any clamping the total changes by exactly minus factor times the number of tied pairs. */
  lemma TotalBeforeClamping(skills: seq<real>, ranks: seq<int>)
    requires |skills| == |ranks| >= 2
    ensures Sum(Updated(skills, ranks)) == Sum(skills) - Times(Factor(|skills|), TiedPairs(ranks, |ranks|))
  {
    TotalByFactor(skills, ranks, Factor(|skills|));
  }

  lemma {:induction false} SumShifted(u: seq<real>, v: seq<real>, index: nat, share: real, k: nat)
    requires |u| == |v| && index < |u| && k <= |u|
    requires forall j :: 0 <= j < |u| && j != index ==> v[j] == u[j] + share
    ensures Sum(v[..k]) == Sum(u[..k])
      + if k <= index then Times(share, k) else Times(share, k - 1) + v[index] - u[index]
  {
    if k > 0 {
      SumShifted(u, v, index, share, k - 1);
      assert u[..k][..k - 1] == u[..k - 1] && v[..k][..k - 1] == v[..k - 1];
    }
  }

  lemma SpillKeepsTotal(u: seq<real>, index: nat)
    requires index < |u| && |u| >= 2
    ensures Sum(Spill(u, index)) == Sum(u)
  {
    var kept := Clamp(u[index], 0.0, TOP);
    if u[index] != kept {
      Shares(u[index] - kept, |u| - 1);
      ShareOut(u, Spill(u, index), index, (u[index] - kept) / (|u| - 1) as real);
    }
  }

  lemma ShareOut(u: seq<real>, v: seq<real>, index: nat, share: real)
    requires |u| == |v| && index < |u|
    requires forall j :: 0 <= j < |u| && j != index ==> v[j] == u[j] + share
    requires Times(share, |u| - 1) == u[index] - v[index]
    ensures Sum(v) == Sum(u)
  {
    SumShifted(u, v, index, share, |u|);
    assert u[..|u|] == u && v[..|v|] == v;
  }

  lemma Shares(excess: real, parts: nat)
    requires parts > 0
    ensures Times(excess / parts as real, parts) == excess
  {
    TimesIsProduct(excess / parts as real, parts);
  }

  /** The overflow and underflow redistribution never changes the total. */
  lemma {:induction false} RedistributionKeepsTotal(u: seq<real>, upto: nat)
    requires upto <= |u| && |u| >= 2
    ensures Sum(Redistributed(u, upto)) == Sum(u)
  {
    if upto > 0 {
      RedistributionKeepsTotal(u, upto - 1);
      SpillKeepsTotal(Redistributed(u, upto - 1), upto - 1);
    }
  }

  // ----- after the final clamp

  /** Nothing is cut when every player keeps a distance of the largest possible gain from both ends. */
  predicate Roomy(skills: seq<real>, margin: real) {
    forall i :: 0 <= i < |skills| ==> margin <= skills[i] <= TOP - margin
  }

  lemma {:induction false} DeltaBound(skills: seq<real>, ranks: seq<int>, i: nat, m: nat, factor: real)
    requires i < |skills| == |ranks| && m <= |skills| && factor >= 0.0
    ensures var opponents := if i < m then m - 1 else m;
      -Times(factor, opponents) <= Delta(skills, ranks, i, m, factor) <= Times(factor, opponents)
  {
    if m > 0 {
      DeltaBound(skills, ranks, i, m - 1, factor);
      GainBound(skills, ranks, i, m - 1, factor);
    }
  }

  lemma GainBound(skills: seq<real>, ranks: seq<int>, i: nat, j: nat, factor: real)
    requires i < |skills| == |ranks| && j < |skills| && factor >= 0.0
    ensures -factor <= Gain(skills, ranks, i, j, factor) <= factor
  {
    var d := (if ranks[i] < ranks[j] then 1.0 else 0.0) - Expected(skills[i], skills[j]);
    assert -1.0 <= d <= 1.0;
    ScaledBound(d, factor);
  }

  lemma ScaledBound(d: real, factor: real)
    requires -1.0 <= d <= 1.0 && factor >= 0.0
    ensures -factor <= d * factor <= factor
  {
    NonNegativeProduct(1.0 - d, factor);
    NonNegativeProduct(1.0 + d, factor);
    assert (1.0 - d) * factor == factor - d * factor;
    assert (1.0 + d) * factor == factor + d * factor;
  }

  lemma NonNegativeProduct(a: real, b: real)
    requires a >= 0.0 && b >= 0.0
    ensures a * b >= 0.0
  {
  }

  lemma {:induction false} InRangeStays(u: seq<real>, upto: nat)
    requires upto <= |u| && |u| >= 2 && Roomy(u, 0.0)
    ensures Redistributed(u, upto) == u
  {
    if upto > 0 {
      InRangeStays(u, upto - 1);
    }
  }

  lemma ClampedStays(u: seq<real>)
    requires Roomy(u, 0.0)
    ensures Clamped(u) == u
  {
  }

  /**
   With that much room nothing is redistributed, and the final ratings change in total by exactly
   minus factor times the tied pairs.
   */
  lemma RoomyRaceTotal(skills: seq<real>, ranks: seq<int>, factor: real)
    requires |skills| == |ranks| >= 2 && factor == Factor(|skills|) && factor >= 0.0
    requires Roomy(skills, Times(factor, |skills| - 1))
    ensures Sum(SkillLevels(skills, ranks)) == Sum(skills) - Times(factor, TiedPairs(ranks, |ranks|))
  {
    var u := UpdatedBy(skills, ranks, factor);
    forall i | 0 <= i < |u| ensures 0.0 <= u[i] <= TOP {
      DeltaBound(skills, ranks, i, |skills|, factor);
    }
    InRangeStays(u, |u|);
    ClampedStays(u);
    TotalByFactor(skills, ranks, factor);
  }

  /** What a list has above the top. */
  function Over(v: seq<real>): real {
    if v == [] then 0.0
    else
      var x := v[|v| - 1];
      Over(v[..|v| - 1]) + if x > TOP then x - TOP else 0.0
  }

  /** What a list has below zero. */
  function Under(v: seq<real>): real {
    if v == [] then 0.0
    else
      var x := v[|v| - 1];
      Under(v[..|v| - 1]) + if x < 0.0 then -x else 0.0
  }

  /** The final clamp takes away what is above the top and fills up what is below zero. */
  lemma {:induction false} ClampedTotal(v: seq<real>)
    ensures Sum(Clamped(v)) == Sum(v) - Over(v) + Under(v)
  {
    if v != [] {
      var init := v[..|v| - 1];
      ClampedTotal(init);
      assert Clamped(v)[..|v| - 1] == Clamped(init);
    }
  }

  lemma {:induction false} ExcessIff(v: seq<real>)
    ensures Over(v) >= 0.0 && Under(v) >= 0.0
    ensures Over(v) == 0.0 <==> forall i :: 0 <= i < |v| ==> v[i] <= TOP
    ensures Under(v) == 0.0 <==> forall i :: 0 <= i < |v| ==> v[i] >= 0.0
  {
    if v != [] {
      var init := v[..|v| - 1];
      ExcessIff(init);
      assert forall i :: 0 <= i < |init| ==> init[i] == v[i];
    }
  }

  /** The list that the final clamp gets. */
  function BeforeClamp(skills: seq<real>, ranks: seq<int>): (v: seq<real>)
    requires |skills| == |ranks| >= 2
    ensures |v| == |skills|
  {
    Redistributed(Updated(skills, ranks), |skills|)
  }

  /**
   The total of every race: the tied pairs cost `factor` each, and the final clamp loses and
   gains what the redistribution left outside the range.
   */
  lemma FinalTotal(skills: seq<real>, ranks: seq<int>)
    requires |skills| == |ranks| >= 2
    ensures var v := BeforeClamp(skills, ranks);
      Sum(SkillLevels(skills, ranks))
        == Sum(skills) - Times(Factor(|skills|), TiedPairs(ranks, |ranks|)) - Over(v) + Under(v)
  {
    TotalBeforeClamping(skills, ranks);
    RedistributionKeepsTotal(Updated(skills, ranks), |skills|);
    ClampedTotal(BeforeClamp(skills, ranks));
  }

  /** The final total is the old one less `factor` for every tied pair. */
  predicate ObeysLaw(skills: seq<real>, ranks: seq<int>)
    requires |skills| == |ranks| >= 2
  {
    Sum(SkillLevels(skills, ranks)) == Sum(skills) - Times(Factor(|skills|), TiedPairs(ranks, |ranks|))
  }

  /**
   Exactly when a race obeys the law: when the redistribution leaves as much above the top as
   below zero; so, when it leaves nothing on the one side, if and only if it leaves nothing
   on the other.
   */
  lemma LawIff(skills: seq<real>, ranks: seq<int>)
    requires |skills| == |ranks| >= 2
    ensures var v := BeforeClamp(skills, ranks);
      && (ObeysLaw(skills, ranks) <==> Over(v) == Under(v))
      && ((forall i :: 0 <= i < |v| ==> v[i] >= 0.0) ==>
            (ObeysLaw(skills, ranks) <==> forall i :: 0 <= i < |v| ==> v[i] <= TOP))
      && ((forall i :: 0 <= i < |v| ==> v[i] <= TOP) ==>
            (ObeysLaw(skills, ranks) <==> forall i :: 0 <= i < |v| ==> v[i] >= 0.0))
  {
    FinalTotal(skills, ranks);
    ExcessIff(BeforeClamp(skills, ranks));
  }

  // ----- three players

  /** What a cut of `x` gives each of two others. */
  function HalfExcess(x: real): real {
    (x - Clamp(x, 0.0, TOP)) / 2.0
  }

  lemma SpillThree(u: seq<real>, index: nat)
    requires |u| == 3 && index < 3
    ensures forall j :: 0 <= j < 3 ==>
      Spill(u, index)[j] == if j == index then Clamp(u[index], 0.0, TOP) else u[j] + HalfExcess(u[index])
  {
    assert (|u| - 1) as real == 2.0;
  }

  /** The entries after the three cuts, from the excess of each cut. */
  lemma RedistributedThree(u: seq<real>, v: seq<real>)
    requires |u| == 3 && v == Redistributed(u, 3)
    ensures var e := HalfExcess(u[0]);
      var f := HalfExcess(u[1] + e);
      var g := HalfExcess(u[2] + e + f);
      && v[0] == Clamp(u[0], 0.0, TOP) + f + g
      && v[1] == Clamp(u[1] + e, 0.0, TOP) + g
      && v[2] == Clamp(u[2] + e + f, 0.0, TOP)
  {
    var u1 := Spill(u, 0);
    var u2 := Spill(u1, 1);
    assert Redistributed(u, 0) == u && Redistributed(u, 1) == u1 && Redistributed(u, 2) == u2;
    SpillThree(u, 0);
    SpillThree(u1, 1);
    SpillThree(u2, 2);
  }

  /**
   Of three entries not far outside the range, the redistribution never leaves one above the top
   and another below zero.
   */
  lemma OneSided(u: seq<real>, v: seq<real>)
    requires |u| == 3 && Roomy(u, -100.0) && v == Redistributed(u, 3)
    ensures (forall i :: 0 <= i < 3 ==> v[i] >= 0.0) || (forall i :: 0 <= i < 3 ==> v[i] <= TOP)
  {
    RedistributedThree(u, v);
    OneSidedNumbers(u[0], u[1], u[2]);
  }

  lemma OneSidedNumbers(x: real, y: real, z: real)
    requires -100.0 <= x <= TOP + 100.0 && -100.0 <= y <= TOP + 100.0 && -100.0 <= z <= TOP + 100.0
    ensures var e := HalfExcess(x);
      var f := HalfExcess(y + e);
      var g := HalfExcess(z + e + f);
      var (a, b) := (Clamp(x, 0.0, TOP) + f + g, Clamp(y + e, 0.0, TOP) + g);
      !(a > TOP && b < 0.0) && !(a < 0.0 && b > TOP)
  {
    var e := HalfExcess(x);
    assert -50.0 <= e <= 50.0;
    var f := HalfExcess(y + e);
    assert -75.0 <= f <= 75.0;
    var g := HalfExcess(z + e + f);
    assert -113.0 <= g <= 113.0;
  }

  /**
   Three players with ratings in the range: the law holds if and only if the redistribution
   leaves every entry in the range.
   */
  lemma ThreePlayerTotal(skills: seq<real>, ranks: seq<int>)
    requires |skills| == |ranks| == 3 && Roomy(skills, 0.0)
    ensures ObeysLaw(skills, ranks) <==> Roomy(BeforeClamp(skills, ranks), 0.0)
  {
    var (u, f) := (Updated(skills, ranks), Factor(3));
    assert f == 47.0 / 3.0 && Times(f, 0) == 0.0 && Times(f, 1) == f && Times(f, 2) == f + f;
    forall i | 0 <= i < 3 ensures -100.0 <= u[i] <= TOP + 100.0 {
      DeltaBound(skills, ranks, i, 3, f);
    }
    OneSided(u, BeforeClamp(skills, ranks));
    LawIff(skills, ranks);
  }

  /** The final ratings always lie in the pool's range. */
  lemma FinalRange(skills: seq<real>, ranks: seq<int>)
    requires |skills| == |ranks|
    ensures Roomy(SkillLevels(skills, ranks), 0.0)
  {
  }

  lemma TwoPlayerUpdate(a: real, b: real, r: int, s: int)
    ensures Updated([a, b], [r, s])
      == [a + Gain([a, b], [r, s], 0, 1, 24.0), b + Gain([a, b], [r, s], 1, 0, 24.0)]
  {
    var (k, q) := ([a, b], [r, s]);
    assert Factor(2) == 24.0;
    assert Delta(k, q, 0, 2, 24.0) == Delta(k, q, 0, 1, 24.0) + Gain(k, q, 0, 1, 24.0);
    assert Delta(k, q, 1, 2, 24.0) == Delta(k, q, 1, 1, 24.0);
    assert Delta(k, q, 0, 0, 24.0) == 0.0 && Delta(k, q, 1, 0, 24.0) == 0.0;
  }

  function SpillTwo(x: real, y: real): (real, real) {
    var kept := Clamp(x, 0.0, TOP);
    (kept, y + (x - kept))
  }

  lemma RedistributedTwo(x: real, y: real)
    ensures var (p, q) := SpillTwo(x, y);
      var (q', p') := SpillTwo(q, p);
      Redistributed([x, y], 2) == [p', q']
  {
    var u := [x, y];
    var (p, q) := SpillTwo(x, y);
    assert Redistributed(u, 0) == u;
    assert Spill(u, 0) == [p, q];
    assert Redistributed(u, 1) == [p, q];
    var (q', p') := SpillTwo(q, p);
    assert Spill([p, q], 1) == [p', q'];
  }

  /**
   A race of two with ratings in the pool's range: with different ranks the total is
   conserved to the end; a tie costs 24, or all there is when there is less than that.
   */
  lemma TwoPlayerTotal(a: real, b: real, r: int, s: int)
    requires 0.0 <= a <= TOP && 0.0 <= b <= TOP
    ensures Sum(SkillLevels([a, b], [r, s])) ==
      if r != s then a + b else if a + b >= 24.0 then a + b - 24.0 else 0.0
  {
    var (k, q) := ([a, b], [r, s]);
    var (x, y) := (a + Gain(k, q, 0, 1, 24.0), b + Gain(k, q, 1, 0, 24.0));
    TwoPlayerUpdate(a, b, r, s);
    RedistributedTwo(x, y);
    var (p, w) := SpillTwo(x, y);
    var (w', p') := SpillTwo(w, p);
    assert SkillLevels(k, q) == [Clamp(p', 0.0, TOP), Clamp(w', 0.0, TOP)];
    SumOfTwo(Clamp(p', 0.0, TOP), Clamp(w', 0.0, TOP));
    TwoPlayerArithmetic(a, b, r, s, x, y);
  }

  lemma SumOfTwo(x: real, y: real)
    ensures Sum([x, y]) == x + y
  {
    assert [x, y][..1] == [x] && [x][..0] == [];
    assert Sum([x]) == Sum([]) + x;
    assert Sum([x, y]) == Sum([x, y][..1]) + y;
  }

  lemma TwoPlayerArithmetic(a: real, b: real, r: int, s: int, x: real, y: real)
    requires 0.0 <= a <= TOP && 0.0 <= b <= TOP
    requires x == a + Gain([a, b], [r, s], 0, 1, 24.0) && y == b + Gain([a, b], [r, s], 1, 0, 24.0)
    ensures var (p, w) := SpillTwo(x, y);
      var (w', p') := SpillTwo(w, p);
      Clamp(p', 0.0, TOP) + Clamp(w', 0.0, TOP) ==
        if r != s then a + b else if a + b >= 24.0 then a + b - 24.0 else 0.0
  {
  }

  /**
   With three players the sequential redistribution can push an entry that was already cut
   over the top again, and the final clamp then loses points although nobody is tied.
   */
  lemma ThreePlayersCanLose()
    ensures Sum(SkillLevels([TOP, TOP, TOP], [1, 2, 3])) < Sum([TOP, TOP, TOP])
    ensures TiedPairs([1, 2, 3], 3) == 0
  {
    var (skills, ranks, f) := ([TOP, TOP, TOP], [1, 2, 3], 47.0 / 3.0);
    assert Factor(3) == f;
    FirstOfThree(skills, ranks, f);
    var u0 := [TOP + f, TOP, TOP - f];
    assert Updated(skills, ranks) == u0;
    var u1 := [TOP, TOP + f / 2.0, TOP - f / 2.0];
    assert Spill(u0, 0) == u1;
    var u2 := [TOP + f / 4.0, TOP, TOP - f / 4.0];
    assert Spill(u1, 1) == u2;
    assert Spill(u2, 2) == u2;
    assert Redistributed(u0, 0) == u0 && Redistributed(u0, 1) == u1 && Redistributed(u0, 2) == u2;
    assert Redistributed(u0, 3) == u2;
    assert Clamped(u2) == [TOP, TOP, TOP - f / 4.0];
    SumOfThree(TOP, TOP, TOP - f / 4.0);
    SumOfThree(TOP, TOP, TOP);
    assert TiesWith(ranks, 1, 1) == 0 && TiesWith(ranks, 2, 2) == 0;
  }

  lemma FirstOfThree(skills: seq<real>, ranks: seq<int>, f: real)
    requires skills == [TOP, TOP, TOP] && ranks == [1, 2, 3]
    ensures Delta(skills, ranks, 0, 3, f) == f && Delta(skills, ranks, 1, 3, f) == 0.0
      && Delta(skills, ranks, 2, 3, f) == -f
  {
    assert Expected(TOP, TOP) == 0.5;
    assert Delta(skills, ranks, 0, 0, f) == 0.0 && Delta(skills, ranks, 1, 0, f) == 0.0
      && Delta(skills, ranks, 2, 0, f) == 0.0;
    assert Delta(skills, ranks, 0, 1, f) == 0.0 && Delta(skills, ranks, 0, 2, f) == 0.5 * f;
    assert Delta(skills, ranks, 1, 1, f) == -0.5 * f && Delta(skills, ranks, 1, 2, f) == -0.5 * f;
    assert Delta(skills, ranks, 2, 1, f) == -0.5 * f && Delta(skills, ranks, 2, 2, f) == -f;
  }

  lemma SumOfThree(x: real, y: real, z: real)
    ensures Sum([x, y, z]) == x + y + z
  {
    assert [x, y, z][..2] == [x, y];
    SumOfTwo(x, y);
    assert Sum([x, y, z]) == Sum([x, y, z][..2]) + z;
  }
}
