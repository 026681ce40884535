/** What each player gains and loses in a rated race (server/carbon/progression.py). */
module SkillGains {
  import opened SkillLevels

  /** The part of the factor that a race against one opponent is worth, by the rating lead over that opponent. */
  function Worth(won: bool, lead: real): real {
    if lead <= -500.0 then if won then 1.0 else 0.0
    else if lead >= 500.0 then if won then 0.0 else -1.0
    else (if won then 0.5 else -0.5) - lead / 1000.0
  }

  /**
   Beating an opponent never costs anything and not beating one never gains anything; a win is
   worth the less the greater the lead was, everything against an opponent 500 above, nothing
   against one 500 below, and half among equals.
   */
  lemma WorthLaws(lead: real, greater: real)
    requires lead <= greater
    ensures 0.0 <= Worth(true, lead) <= 1.0 && -1.0 <= Worth(false, lead) <= 0.0
    ensures Worth(true, lead) >= Worth(true, greater) && Worth(false, lead) >= Worth(false, greater)
    ensures Worth(true, 0.0) == 0.5 && Worth(false, 0.0) == -0.5
    ensures Worth(true, lead) - Worth(false, lead) == 1.0
    ensures Worth(true, lead) == 0.0 <==> lead >= 500.0
    ensures Worth(true, lead) == 1.0 <==> lead <= -500.0
    ensures Worth(true, lead) == -Worth(false, -lead)
  {
  }

  lemma GainIs(skills: seq<real>, ranks: seq<int>, i: nat, j: nat, factor: real)
    requires i < |skills| == |ranks| && j < |skills|
    ensures Gain(skills, ranks, i, j, factor) == Worth(ranks[i] < ranks[j], skills[i] - skills[j]) * factor
  {
    var won := ranks[i] < ranks[j];
    assert (if won then 1.0 else 0.0) - Expected(skills[i], skills[j]) == Worth(won, skills[i] - skills[j]);
  }

  /** What player `i` gains from each player; nothing from itself. */
  function Gains(skills: seq<real>, ranks: seq<int>, i: nat, factor: real): (gains: seq<real>)
    requires i < |skills| == |ranks|
    ensures |gains| == |skills|
  {
    seq(|skills|, j requires 0 <= j < |skills| =>
      if j == i then 0.0 else Worth(ranks[i] < ranks[j], skills[i] - skills[j]) * factor)
  }

  lemma {:induction false} DeltaIsSum(skills: seq<real>, ranks: seq<int>, i: nat, m: nat, factor: real,
      gains: seq<real>)
    requires i < |skills| == |ranks| == |gains| && m <= |skills|
    requires forall j :: 0 <= j < |gains| ==> gains[j] == if j == i then 0.0 else Gain(skills, ranks, i, j, factor)
    ensures Delta(skills, ranks, i, m, factor) == Sum(gains[..m])
  {
    if m > 0 {
      DeltaIsSum(skills, ranks, i, m - 1, factor, gains);
      assert gains[..m][..m - 1] == gains[..m - 1];
    }
  }

  /**
   Before anything is cut to the range, every player has gained exactly what its races against
   the others are worth.
   */
  lemma RatingChange(skills: seq<real>, ranks: seq<int>, i: nat)
    requires i < |skills| == |ranks| && |skills| >= 2
    ensures Updated(skills, ranks)[i]
         == skills[i] + Sum(Gains(skills, ranks, i, 50.0 / |skills| as real - 1.0))
  {
    var factor := Factor(|skills|);
    var gains := Gains(skills, ranks, i, factor);
    forall j | 0 <= j < |gains| ensures gains[j] == if j == i then 0.0 else Gain(skills, ranks, i, j, factor) {
      GainIs(skills, ranks, i, j, factor);
    }
    DeltaIsSum(skills, ranks, i, |skills|, factor, gains);
    assert gains[..|skills|] == gains;
  }

  /** And that is the final rating of everybody when it leaves nobody outside the range. */
  lemma RatingInRange(skills: seq<real>, ranks: seq<int>)
    requires |skills| == |ranks| && |skills| >= 2
    ensures Roomy(Updated(skills, ranks), 0.0) ==> SkillLevels.SkillLevels(skills, ranks) == Updated(skills, ranks)
  {
    var u := Updated(skills, ranks);
    if Roomy(u, 0.0) {
      InRangeStays(u, |u|);
      ClampedStays(u);
    }
  }

  /** A cut entry keeps the total, and the others keep their distances. */
  lemma SpillShares(u: seq<real>, index: nat)
    requires index < |u| && |u| >= 2
    ensures var v := Spill(u, index);
      && Sum(v) == Sum(u)
      && v[index] == (if u[index] > TOP then TOP else if u[index] < 0.0 then 0.0 else u[index])
      && forall j, k :: 0 <= j < |u| && 0 <= k < |u| && j != index && k != index ==> v[j] - u[j] == v[k] - u[k]
  {
    SpillKeepsTotal(u, index);
  }

  // ----- races of two

  function Least(x: real, y: real): real {
    if x <= y then x else y
  }

  /** The winner of two gains the worth of its win, but not over the top and not more than the loser has. */
  lemma WinOfTwo(a: real, b: real, r: int, s: int)
    requires 0.0 <= a <= TOP && 0.0 <= b <= TOP && r < s
    ensures var gain := Least(24.0 * Worth(true, a - b), Least(TOP - a, b));
      SkillLevels.SkillLevels([a, b], [r, s]) == [a + gain, b - gain]
        && SkillLevels.SkillLevels([b, a], [s, r]) == [b - gain, a + gain]
  {
    var gain := 24.0 * Worth(true, a - b);
    TwoRatings(a, b, r, s);
    TwoRatings(b, a, s, r);
    WorthLaws(a - b, a - b);
    WinnersCut(a, b, gain);
    WinnersCut'(a, b, gain);
  }

  /** What a race of two leaves, from the two unlimited ratings. */
  function Cut(x: real, y: real): seq<real> {
    var (p, w) := SpillTwo(x, y);
    var (w', p') := SpillTwo(w, p);
    [Clamp(p', 0.0, TOP), Clamp(w', 0.0, TOP)]
  }

  lemma TwoRatings(a: real, b: real, r: int, s: int)
    ensures SkillLevels.SkillLevels([a, b], [r, s])
         == Cut(a + 24.0 * Worth(r < s, a - b), b + 24.0 * Worth(s < r, b - a))
  {
    var (k, q) := ([a, b], [r, s]);
    GainIs(k, q, 0, 1, 24.0);
    GainIs(k, q, 1, 0, 24.0);
    TwoPlayerUpdate(a, b, r, s);
    CutOfTwo(a + Gain(k, q, 0, 1, 24.0), b + Gain(k, q, 1, 0, 24.0));
  }

  lemma CutOfTwo(x: real, y: real)
    ensures Clamped(Redistributed([x, y], 2)) == Cut(x, y)
  {
    RedistributedTwo(x, y);
  }

  lemma WinnersCut(a: real, b: real, gain: real)
    requires 0.0 <= a <= TOP && 0.0 <= b <= TOP && gain == 24.0 * Worth(true, a - b)
    ensures var least := Least(gain, Least(TOP - a, b)); Cut(a + gain, b - gain) == [a + least, b - least]
  {
  }

  lemma WinnersCut'(a: real, b: real, gain: real)
    requires 0.0 <= a <= TOP && 0.0 <= b <= TOP && gain == 24.0 * Worth(true, a - b)
    ensures var least := Least(gain, Least(TOP - a, b)); Cut(b - gain, a + gain) == [b - least, a + least]
  {
  }

  /**
   Two who tie lose 24 between them, each what an expected half is short of its rating; what one
   does not have the other pays.
   */
  lemma TieOfTwo(a: real, b: real, r: int)
    requires 0.0 <= a <= TOP && 0.0 <= b <= TOP
    ensures var (x, y) := (a + 24.0 * Worth(false, a - b), b + 24.0 * Worth(false, b - a));
      SkillLevels.SkillLevels([a, b], [r, r]) ==
        if a + b < 24.0 then [0.0, 0.0] else if x < 0.0 then [0.0, x + y] else if y < 0.0 then [x + y, 0.0] else [x, y]
  {
    TwoRatings(a, b, r, r);
    WorthLaws(a - b, a - b);
  }

  /** A favourite 500 or more ahead gains nothing by winning, and loses all of 24 to an outsider. */
  lemma FavouriteAndOutsider()
    ensures SkillLevels.SkillLevels([2000.0, 1000.0], [1, 2]) == [2000.0, 1000.0]
    ensures SkillLevels.SkillLevels([2000.0, 1000.0], [2, 1]) == [1976.0, 1024.0]
    ensures SkillLevels.SkillLevels([1500.0, 1500.0], [1, 2]) == [1512.0, 1488.0]
  {
    WinOfTwo(2000.0, 1000.0, 1, 2);
    WinOfTwo(1000.0, 2000.0, 1, 2);
    WinOfTwo(1500.0, 1500.0, 1, 2);
  }
}
