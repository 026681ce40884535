/** Exactly when a lock removes what it names (server/carbon/admin/dlc.py, server/carbon/dlc.py). */
module DlcLocks {
  import opened Options
  import opened LatinText
  import opened DlcCatalog
  import opened DlcAdmin

  /** A selector behind `n` hyphens. */
  function Led(s: string, n: nat): string {
    if n == 0 then s else "-" + Led(s, n - 1)
  }

  lemma {:induction false} LedIsTrimmed(s: string, n: nat)
    requires Trimmed(s)
    ensures Trimmed(Led(s, n)) && (n > 0 ==> Negative(Led(s, n)))
  {
    if n > 0 {
      LedIsTrimmed(s, n - 1);
      var t := Led(s, n - 1);
      assert t != "" ==> ("-" + t)[|t|] == t[|t| - 1];
    }
  }

  lemma AskedTwice(raw: string)
    ensures Asked(Asked(raw)) == Asked(raw) && Trimmed(Asked(raw))
  {
    AskedIsTrimmed(raw);
    StripTrimmed(Asked(raw));
  }

  lemma {:induction false} LedIsAsked(s: string, n: nat)
    requires Asked(s) == s
    ensures Asked(Led(s, n)) == Led(s, n)
  {
    AskedTwice(s);
    LedIsTrimmed(s, n);
    StripTrimmed(Led(s, n));
    LedIsFolded(s, n);
  }

  lemma {:induction false} LedIsFolded(s: string, n: nat)
    requires Fold(s) == s
    ensures Fold(Led(s, n)) == Led(s, n)
  {
    if n > 0 {
      LedIsFolded(s, n - 1);
      FoldOfJoin("-", Led(s, n - 1));
      assert Fold("-") == "-";
    }
  }

  // ----- which items a lock leaves

  lemma LockOneHas(before: seq<string>, r: string, item: string)
    ensures item in LockOne(before, r) <==> item == "-" + r || (item in before && item != r && item != "none")
  {
  }

  lemma OwnItem(before: seq<string>, r: string, s: string)
    requires r != s
    ensures "-" + s in LockOne(before, r) <==> "-" + s in before && r != "-" + s
  {
    var item := "-" + s;
    LockOneHas(before, r, item);
    assert item[1..] == s && ("-" + r)[1..] == r && item[0] == '-';
  }

  lemma NegativeItem(before: seq<string>, r: string, item: string)
    requires item in before && Negative(item)
    ensures if item == r then "-" + r in LockOne(before, r) else item in LockOne(before, r)
  {
    LockOneHas(before, r, item);
    LockOneHas(before, r, "-" + r);
  }

  lemma PlainItem(before: seq<string>, r: string, s: string)
    requires !Negative(s)
    ensures s in LockOne(before, r) ==> s in before && r != s
  {
    LockOneHas(before, r, s);
    assert ("-" + r)[0] == '-';
  }

  /** A later removal, read as the command reads it. */
  predicate AskedAfter(removals: seq<string>, k: nat, item: string) {
    exists i :: k < i < |removals| && Asked(removals[i]) == item
  }

  lemma AskedAfterLast(removals: seq<string>, k: nat, item: string)
    requires k < |removals| - 1
    ensures AskedAfter(removals, k, item) <==>
      AskedAfter(removals[..|removals| - 1], k, item) || Asked(removals[|removals| - 1]) == item
  {
    var init := removals[..|removals| - 1];
    assert forall i :: k < i < |init| ==> init[i] == removals[i];
    if AskedAfter(removals, k, item) {
      var i :| k < i < |removals| && Asked(removals[i]) == item;
      assert i < |init| ==> init[i] == removals[i];
    }
  }

  /**
   After a removal that is not repeated, its item stays in the list exactly until it is removed
   with a hyphen more.
   */
  lemma {:induction false} HyphenRemovalUndoes(current: seq<string>, removals: seq<string>, k: nat, s: string)
    requires k < |removals| && Asked(removals[k]) == s && !AskedAfter(removals, k, s)
    ensures "-" + s in LockEach(current, removals) <==> !AskedAfter(removals, k, "-" + s)
    decreases |removals|
  {
    var (last, init) := (|removals| - 1, removals[..|removals| - 1]);
    if k < last {
      AskedAfterLast(removals, k, s);
      AskedAfterLast(removals, k, "-" + s);
      HyphenRemovalUndoes(current, init, k, s);
      OwnItem(LockEach(current, init), Asked(removals[last]), s);
    } else {
      LockOneHas(LockEach(current, init), s, "-" + s);
    }
  }

  /** Every removal leaves an item: its own, or one with more hyphens. */
  lemma {:induction false} ChainKept(current: seq<string>, removals: seq<string>, k: nat, s: string) returns (n: nat)
    requires k < |removals| && Asked(removals[k]) == s
    ensures Led(s, n + 1) in LockEach(current, removals)
    decreases |removals|
  {
    var (last, init) := (|removals| - 1, removals[..|removals| - 1]);
    if k == last {
      n := 0;
      LockOneHas(LockEach(current, init), s, Led(s, 1));
    } else {
      n := ChainKept(current, init, k, s);
      NegativeItem(LockEach(current, init), Asked(removals[last]), Led(s, n + 1));
      if Led(s, n + 1) == Asked(removals[last]) {
        n := n + 1;
      }
    }
  }

  /** A removal without a hyphen is in the list no more. */
  lemma {:induction false} RemovedIsGone(current: seq<string>, removals: seq<string>, k: nat, s: string)
    requires k < |removals| && Asked(removals[k]) == s && !Negative(s)
    ensures s !in LockEach(current, removals)
    decreases |removals|
  {
    var (last, init) := (|removals| - 1, removals[..|removals| - 1]);
    var (before, r) := (LockEach(current, init), Asked(removals[last]));
    assert LockEach(current, removals) == LockOne(before, r);
    PlainItem(before, r, s);
    if k < last {
      RemovedIsGone(current, init, k, s);
    }
  }

  // ----- the exact condition

  /** After an accepted lock that is not one of everything, a token of the `k`-th removal is left. */
  predicate Survives(c: Catalog, current: seq<string>, removals: seq<string>, k: nat, t: string) {
    && k < |removals| && (forall j :: 0 <= j < |removals| ==> !LocksAll(removals[j]))
    && Expand(c, Lock(current, removals)).Tokens? && t in Expand(c, Lock(current, removals)).tokens
    && ExpandOne(c, Asked(removals[k]), {}).Tokens? && t in ExpandOne(c, Asked(removals[k]), {}).tokens
  }

  /** Another selector grants a token of `s`, and a key made of hyphens and `s` does not name that token. */
  predicate Leaks(c: Catalog, s: string, n: nat, sel: string, t: string) {
    && n > 0 && Asked(s) == s && !LocksAll(s)
    && ExpandOne(c, s, {}).Tokens? && t in ExpandOne(c, s, {}).tokens
    && CleanSelector(Led(s, n + 1)) == Some(Led(s, n + 1))
    && ExpandOne(c, Led(s, n), {}).Tokens? && t !in ExpandOne(c, Led(s, n), {}).tokens
    && sel != s && Names(c, sel, t, false)
  }

  lemma SurvivorLeaks(c: Catalog, current: seq<string>, removals: seq<string>, k: nat, t: string)
    requires Survives(c, current, removals, k, t)
    ensures exists n, sel :: Leaks(c, Asked(removals[k]), n, sel, t)
  {
    var (list, s) := (Lock(current, removals), Asked(removals[k]));
    LockResult(current, removals);
    AskedTwice(removals[k]);
    var n := ChainKept(current, removals, k, s);
    LedIsTrimmed(s, n + 1);
    LedIsTrimmed(s, n);
    assert Led(s, n + 1) == "-" + Led(s, n) && Led(s, n + 1) in list;
    DeniedByNegative(c, list, Led(s, n));
    CleanItem(c, list, Led(s, n + 1));
    ExpansionIs(c, list);
    var i :| 0 <= i < |list| && Names(c, list[i], t, false);
    GrantsElsewhere(c, current, removals, k, i, t);
    assert Leaks(c, s, n, list[i], t);
  }

  lemma CleanItem(c: Catalog, list: seq<string>, item: string)
    requires Expand(c, list).Tokens? && item in list && Trimmed(item)
    ensures CleanSelector(item) == Some(item)
  {
    var i :| 0 <= i < |list| && list[i] == item;
    SelectedExpand(c, list, i);
    StripTrimmed(item);
  }

  lemma GrantsElsewhere(c: Catalog, current: seq<string>, removals: seq<string>, k: nat, i: nat, t: string)
    requires k < |removals| && i < |LockEach(current, removals)| && Names(c, LockEach(current, removals)[i], t, false)
    ensures LockEach(current, removals)[i] != Asked(removals[k])
  {
    var s := Asked(removals[k]);
    AskedTwice(removals[k]);
    if Negative(s) {
      StripTrimmed(s);
    } else {
      RemovedIsGone(current, removals, k, s);
    }
  }

  function Chain(s: string, n: nat): (r: seq<string>)
    ensures |r| == n + 1 && r[0] == s
  {
    if n == 0 then [s] else Chain(s, n - 1) + [Led(s, n)]
  }

  lemma PositiveItem(c: Catalog, sel: string, t: string)
    requires Names(c, sel, t, false)
    ensures !Negative(sel) && sel != "none"
  {
    NegativeStays(sel);
    StripTrimmed("none");
  }

  /** Stripping cannot take a leading hyphen away. */
  lemma NegativeStays(sel: string)
    ensures Negative(sel) && Strip(sel) != "" ==> Negative(Strip(sel))
  {
    if sel != "" {
      RightStripped(sel);
    }
  }

  lemma {:induction false} ChainLocks(sel: string, s: string, n: nat)
    requires Asked(s) == s && sel != s && !Negative(sel) && sel != "none"
    ensures LockEach([sel], Chain(s, n)) == [sel, Led(s, n + 1)]
  {
    LedIsAsked(s, n);
    if n == 0 {
      assert [s][..0] == [] && LockEach([sel], []) == [sel];
      OneItemLocks(sel, s);
    } else {
      ChainLocks(sel, s, n - 1);
      var chain := Chain(s, n);
      assert |chain| == n + 1 && chain[..n] == Chain(s, n - 1) && chain[n] == Led(s, n);
      assert LockEach([sel], chain) == LockOne(LockEach([sel], chain[..n]), Asked(chain[n]));
      NextItemLocks(sel, Led(s, n));
    }
  }

  lemma OneItemLocks(sel: string, r: string)
    requires sel != r && sel != "-" + r && sel != "none"
    ensures LockOne([sel], r) == [sel, "-" + r]
  {
    KeepsItem([], sel, r);
    assert Without([], [r, "-" + r, "none"]) == [];
    assert [] + [sel] == [sel];
  }

  lemma NextItemLocks(sel: string, r: string)
    requires sel != r && sel != "-" + r && sel != "none" && Negative(r)
    ensures LockOne([sel, r], r) == [sel, "-" + r]
  {
    KeepsItem([], sel, r);
    assert Without([], [r, "-" + r, "none"]) == [];
    assert [sel, r][..1] == [sel] && r in [r, "-" + r, "none"];
    assert Drop([sel, r], r, "-" + r, "none") == Drop([sel], r, "-" + r, "none");
  }

  lemma KeepsItem(before: seq<string>, sel: string, r: string)
    requires sel != r && sel != "-" + r && sel != "none"
    ensures Drop(before + [sel], r, "-" + r, "none") == Drop(before, r, "-" + r, "none") + [sel]
  {
    assert (before + [sel])[..|before|] == before;
  }

  lemma {:induction false} ChainIsPlain(s: string, n: nat)
    requires Asked(s) == s && !LocksAll(s)
    ensures forall j :: 0 <= j < |Chain(s, n)| ==> !LocksAll(Chain(s, n)[j])
  {
    if n > 0 {
      ChainIsPlain(s, n - 1);
      LedIsAsked(s, n);
      assert Led(s, n)[0] == '-';
    }
  }

  /** A leak shows: lock `s`, then the same with one hyphen more each time. */
  lemma LeakSurvives(c: Catalog, s: string, n: nat, sel: string, t: string)
    requires Leaks(c, s, n, sel, t)
    ensures Survives(c, [sel], Chain(s, n), 0, t)
  {
    var (removals, item) := (Chain(s, n), Led(s, n + 1));
    PositiveItem(c, sel, t);
    ChainLocks(sel, s, n);
    ChainIsPlain(s, n);
    LockResult([sel], removals);
    assert Lock([sel], removals) == [sel, item];
    GrantedBeside(c, sel, item, Led(s, n), t);
  }

  lemma GrantedBeside(c: Catalog, sel: string, item: string, h: string, t: string)
    requires Names(c, sel, t, false) && item == "-" + h && CleanSelector(item) == Some(item)
    requires ExpandOne(c, h, {}).Tokens? && t !in ExpandOne(c, h, {}).tokens
    ensures Expand(c, [sel, item]).Tokens? && t in Expand(c, [sel, item]).tokens
  {
    var included := ExpandOne(c, Target(CleanSelector(sel).value), {}).tokens;
    assert Target(item) == h;
    SelectOne(c, sel);
    SelectNext(c, [sel], item, included, [], ExpandOne(c, h, {}).tokens);
    assert [sel] + [item] == [sel, item];
  }

  /**
   For any catalog: every accepted lock removes all tokens of what it names if and only if the
   catalog has no leak.
   */
  lemma LocksHoldIff(c: Catalog)
    ensures (forall current, removals, k, t :: !Survives(c, current, removals, k, t))
       <==> (forall s, n, sel, t :: !Leaks(c, s, n, sel, t))
  {
    if current, removals, k, t :| Survives(c, current, removals, k, t) {
      SurvivorLeaks(c, current, removals, k, t);
    }
    if s, n, sel, t :| Leaks(c, s, n, sel, t) {
      LeakSurvives(c, s, n, sel, t);
    }
  }

  // ----- catalogs without hyphen keys

  ghost predicate NoHyphenKeys(c: Catalog) {
    && (forall p :: p in c.presets ==> !Negative(p))
    && forall i :: 0 <= i < |c.groups| ==> !Negative(c.groups[i].0)
  }

  lemma {:induction false} FoundGroupHasKey(groups: seq<(string, seq<string>)>, key: string)
    requires FindGroup(groups, key).Some?
    ensures exists i :: 0 <= i < |groups| && groups[i].0 == key
  {
    if groups[0].0 != key {
      FoundGroupHasKey(groups[1..], key);
      var i :| 0 <= i < |groups[1..]| && groups[1..][i].0 == key;
      assert groups[i + 1].0 == key;
    }
  }

  lemma HyphenTargetIsUnknown(c: Catalog, h: string)
    requires NoHyphenKeys(c) && Negative(h)
    ensures ExpandOne(c, h, {}) == Invalid
  {
    if FindGroup(c.groups, h).Some? {
      FoundGroupHasKey(c.groups, h);
    }
  }

  /**
   Without hyphen keys a lock that the catalog accepts does what it says, whatever was
   assigned before and however the removals are written: `all` or `none` leave nothing, and
   otherwise every removal is a selector of the catalog none of whose tokens is left.
   */
  lemma LockRemovesTokens(c: Catalog, current: seq<string>, removals: seq<string>, k: nat)
    requires NoHyphenKeys(c) && k < |removals| && Expand(c, Lock(current, removals)).Tokens?
    ensures var left := Expand(c, Lock(current, removals)).tokens;
      if exists j :: 0 <= j < |removals| && LocksAll(removals[j]) then left == []
      else ExpandOne(c, Asked(removals[k]), {}).Tokens?
           && forall t :: t in left ==> t !in ExpandOne(c, Asked(removals[k]), {}).tokens
  {
    LockResult(current, removals);
    if exists j :: 0 <= j < |removals| && LocksAll(removals[j]) {
      NoneExpandsToNothing(c);
    } else {
      var (list, s) := (Lock(current, removals), Asked(removals[k]));
      AskedTwice(removals[k]);
      var n := ChainKept(current, removals, k, s);
      LedIsTrimmed(s, n + 1);
      LedIsTrimmed(s, n);
      DeniedByNegative(c, list, Led(s, n));
      if n > 0 {
        HyphenTargetIsUnknown(c, Led(s, n));
      }
    }
  }

  /** Without hyphen keys a lock with a hyphen removal is refused, so that nothing is assigned. */
  lemma HyphenRemovalRefused(c: Catalog, current: seq<string>, removals: seq<string>, k: nat)
    requires NoHyphenKeys(c) && k < |removals| && Negative(Asked(removals[k]))
    requires forall j :: 0 <= j < |removals| ==> !LocksAll(removals[j])
    ensures !Expand(c, Lock(current, removals)).Tokens?
  {
    HyphenTargetIsUnknown(c, Asked(removals[k]));
    if Expand(c, Lock(current, removals)).Tokens? {
      LockRemovesTokens(c, current, removals, k);
    }
  }

  // ----- a catalog with a hyphen key

  function HyphenGroups(): Catalog {
    Catalog([("a", ["t"]), ("-a", ["u"])], map[])
  }

  /** With these two groups, locking `a` and then `-a` for an account that has everything leaves the token of `a`. */
  lemma HyphenKeyLeaks()
    ensures WellKeyed(HyphenGroups()) && Loads(HyphenGroups())
    ensures Survives(HyphenGroups(), ["all"], ["a", "-a"], 0, "t")
  {
    PlainLetter();
    StripTrimmed("all");
    StripTrimmed("a");
    assert Fold("a") == "a";
    GroupsLeak(HyphenGroups(), "a", "-a", "--a", "t", "u", "all");
  }

  lemma GroupsLeak(c: Catalog, x: string, y: string, z: string, t: string, u: string, all: string)
    requires c == Catalog([(x, [t]), (y, [u])], map[]) && GoodKey(x) && GoodKey(y) && x != y && t != u
    requires y == "-" + x && z == "-" + y && |y| < MAX_TEXT && Asked(x) == x
    requires all == "all" && Strip(all) == all
    ensures WellKeyed(c) && Loads(c) && Survives(c, [all], [x, y], 0, t)
  {
    TwoGroups(c, x, y, t, u);
    HyphenSelects(y, z);
    ChainOfTwo(x, y, z);
    AllNames(c, all, t);
    assert Leaks(c, x, 1, all, t);
    LeakSurvives(c, x, 1, all, t);
  }

  lemma ChainOfTwo(x: string, y: string, z: string)
    requires y == "-" + x && z == "-" + y
    ensures Led(x, 1) == y && Led(x, 2) == z && Chain(x, 1) == [x, y]
  {
    assert Led(x, 0) == x && Chain(x, 0) == [x];
  }

  lemma AllNames(c: Catalog, all: string, t: string)
    requires all == "all" && Strip(all) == all && t in c.AllTokens()
    ensures Names(c, all, t, false)
  {
    assert CleanSelector(all) == Some(all) && Target(all) == all;
  }

  lemma TwoGroups(c: Catalog, x: string, y: string, t: string, u: string)
    requires c == Catalog([(x, [t]), (y, [u])], map[]) && GoodKey(x) && GoodKey(y) && x != y && t != u
    ensures WellKeyed(c) && Loads(c)
    ensures ExpandOne(c, x, {}) == Tokens([t]) && ExpandOne(c, y, {}) == Tokens([u]) && t in c.AllTokens()
  {
    IdentifierIsSelector(x);
    IdentifierIsSelector(y);
    assert c.groups[1..] == [(y, [u])] && c.groups[1..][1..] == [];
    assert FindGroup([(y, [u])], y) == Some([u]) && FindGroup(c.groups, y) == FindGroup(c.groups[1..], y);
    assert GroupTokens(c.groups) == [t] + GroupTokens(c.groups[1..]);
  }
}
