/** Locking and unlocking selectors of an account (server/carbon/admin/dlc.py). */
module DlcAdmin {
  import opened Collections
  import opened Options
  import opened LatinText
  import opened DlcCatalog

  /** How the administration command reads what it is given. */
  function Asked(raw: string): string {
    Fold(Strip(raw))
  }

  function Drop(result: seq<string>, a: string, b: string, c: string): (r: seq<string>)
    ensures forall x :: x in r <==> x in result && x != a && x != b && x != c
  {
    Without(result, [a, b, c])
  }

  /** The removals that lock everything. */
  predicate LocksAll(raw: string) {
    Asked(raw) == "all" || Asked(raw) == "none"
  }

  /** `_lock` of the removals up to the last, given what the earlier ones left. */
  function Lock(current: seq<string>, removals: seq<string>): seq<string> {
    if exists k :: 0 <= k < |removals| && LocksAll(removals[k]) then ["none"]
    else
      var result := LockEach(current, removals);
      if result == [] then ["none"] else result
  }

  function LockEach(current: seq<string>, removals: seq<string>): seq<string> {
    if removals == [] then current
    else
      LockOne(LockEach(current, removals[..|removals| - 1]), Asked(removals[|removals| - 1]))
  }

  lemma LockEachMore(current: seq<string>, removals: seq<string>, i: nat)
    requires i < |removals|
    ensures LockEach(current, removals[..i + 1]) == LockOne(LockEach(current, removals[..i]), Asked(removals[i]))
  {
    assert removals[..i + 1][..i] == removals[..i];
  }

  function Unlock(current: seq<string>, additions: seq<string>): seq<string> {
    if exists k :: 0 <= k < |additions| && Asked(additions[k]) == "all" then ["all"]
    else
      var result := UnlockEach(if current == ["none"] then [] else current, additions);
      if result == [] then ["none"] else result
  }

  function UnlockEach(current: seq<string>, additions: seq<string>): seq<string> {
    if additions == [] then current
    else
      var before := UnlockEach(current, additions[..|additions| - 1]);
      var selector := Asked(additions[|additions| - 1]);
      if selector == "none" then before
      else
        var result := Drop(before, "-" + selector, "none", "none");
        if selector in result then result else result + [selector]
  }

  function LockOne(current: seq<string>, selector: string): seq<string> {
    Drop(current, selector, "-" + selector, "none") + ["-" + selector]
  }

  ghost predicate NoneLocksAll(removals: seq<string>, n: nat) {
    forall k :: 0 <= k < n <= |removals| ==> !LocksAll(removals[k])
  }

  lemma LockResult(current: seq<string>, removals: seq<string>)
    ensures NoneLocksAll(removals, |removals|) ==>
      Lock(current, removals) == if LockEach(current, removals) == [] then ["none"] else LockEach(current, removals)
    ensures forall k :: 0 <= k < |removals| && LocksAll(removals[k]) ==> Lock(current, removals) == ["none"]
  {
  }

  lemma NoneMore(removals: seq<string>, i: nat)
    requires i < |removals| && NoneLocksAll(removals, i) && !LocksAll(removals[i])
    ensures NoneLocksAll(removals, i + 1)
  {
  }

  method LockSelectors(current: seq<string>, removals: seq<string>) returns (result: seq<string>)
    ensures result == Lock(current, removals)
  {
    result := current;
    LockResult(current, removals);
    for i := 0 to |removals|
      invariant NoneLocksAll(removals, i) && result == LockEach(current, removals[..i])
    {
      LockEachMore(current, removals, i);
      if LocksAll(removals[i]) {
        return ["none"];
      }
      NoneMore(removals, i);
      result := LockOne(result, Asked(removals[i]));
    }
    assert removals[..|removals|] == removals;
    if result == [] {
      result := ["none"];
    }
  }

  method UnlockSelectors(current: seq<string>, additions: seq<string>) returns (result: seq<string>)
    ensures result == Unlock(current, additions)
  {
    result := if current == ["none"] then [] else current;
    ghost var start := result;
    for i := 0 to |additions|
      invariant forall k :: 0 <= k < i ==> Asked(additions[k]) != "all"
      invariant result == UnlockEach(start, additions[..i])
    {
      assert additions[..i + 1][..i] == additions[..i];
      var selector := Asked(additions[i]);
      if selector == "all" {
        return ["all"];
      }
      if selector != "none" {
        result := Drop(result, "-" + selector, "none", "none");
        if selector !in result {
          result := result + [selector];
        }
      }
    }
    assert additions[..|additions|] == additions;
    if result == [] {
      result := ["none"];
    }
  }

  // ----- what a lock achieves

  /** A negative selector that survives cleaning denies the whole expansion of its target. */
  lemma DeniedByNegative(c: Catalog, selectors: seq<string>, selector: string)
    requires Expand(c, selectors).Tokens? && "-" + selector in selectors && Trimmed("-" + selector)
    ensures ExpandOne(c, selector, {}).Tokens?
    ensures forall t :: t in Expand(c, selectors).tokens ==> t !in ExpandOne(c, selector, {}).tokens
  {
    var negative := "-" + selector;
    var k :| 0 <= k < |selectors| && selectors[k] == negative;
    SelectedExpand(c, selectors, k);
    StripTrimmed(negative);
    assert CleanSelector(negative) == Some(negative) && Target(negative) == selector;
    NamedIsDenied(c, selectors, k);
  }

  /** No token that a negative selector names is left. */
  lemma NamedIsDenied(c: Catalog, selectors: seq<string>, k: nat)
    requires Expand(c, selectors).Tokens? && k < |selectors|
    ensures forall t :: t in Expand(c, selectors).tokens ==> !Names(c, selectors[k], t, true)
  {
    ExpansionIs(c, selectors);
  }

  lemma AskedIsTrimmed(raw: string)
    ensures Trimmed(Asked(raw)) && Trimmed("-" + Asked(raw))
  {
    StripIsTrimmed(raw);
    var s := Asked(raw);
    assert s != [] ==> ("-" + s)[|s|] == s[|s| - 1];
  }

  lemma {:induction false} StripIsTrimmed(s: string)
    ensures Trimmed(Strip(s))
  {
    LeftStripped(s);
    RightStripped(LeftStrip(s));
  }

  lemma {:induction false} LeftStripped(s: string)
    ensures LeftStrip(s) != [] ==> !IsSpace(LeftStrip(s)[0])
  {
    if s != [] {
      LeftStripped(s[1..]);
    }
  }

  lemma {:induction false} RightStripped(s: string)
    ensures RightStrip(s) <= s
    ensures RightStrip(s) != [] ==> !IsSpace(RightStrip(s)[|RightStrip(s)| - 1])
  {
    if s != [] {
      RightStripped(s[..|s| - 1]);
    }
  }

  lemma NoneExpandsToNothing(c: Catalog)
    ensures Expand(c, ["none"]) == Tokens([])
  {
    StripTrimmed("none");
    SelectOne(c, "none");
    assert Deduplicated<string>([]) == [] && Without([], []) == [];
  }

  /** A selector for one raw token: its characters, and what the command makes of it. */
  lemma RawTokenSelector(t: string)
    requires CleanToken(t) == Some(t) && |t| <= MAX_TEXT - 7
    ensures var s := TOKEN_PREFIX + t;
      && Strip(s) == s && Asked(s) == TOKEN_PREFIX + Fold(t) && Target(s) == s
      && CleanSelector(s) == Some(s)
      && Strip("-" + s) == "-" + s && Target("-" + s) == s && CleanSelector("-" + s) == Some("-" + s)
  {
    var s := TOKEN_PREFIX + t;
    CleanTokenIsTrimmed(t);
    assert s[6..] == t && s[|s| - 1] == t[|t| - 1];
    StripTrimmed(s);
    assert ("-" + s)[|s|] == s[|s| - 1] && ("-" + s)[1..] == s;
    StripTrimmed("-" + s);
    FoldOfJoin(TOKEN_PREFIX, t);
    assert Fold(TOKEN_PREFIX) == TOKEN_PREFIX;
  }

  lemma CleanTokenIsTrimmed(t: string)
    requires CleanToken(t) == Some(t)
    ensures Trimmed(t) && t != "" && Strip(t) == t
  {
    StripIsTrimmed(t);
  }

  lemma FoldOfJoin(a: string, b: string)
    ensures Fold(a + b) == Fold(a) + Fold(b)
  {
  }

  lemma FoldedTokenIsClean(t: string)
    requires CleanToken(t) == Some(t)
    ensures CleanToken(Fold(t)) == Some(Fold(t))
  {
    CleanTokenIsTrimmed(t);
    StripTrimmed(Fold(t));
  }

  /**
   The command folds what it is asked to lock, but a raw token keeps its capitals: locking
   the only selector of an account removes its token if and only if the token has none.
   */
  lemma RawTokenLock(c: Catalog, t: string)
    requires CleanToken(t) == Some(t) && |t| <= MAX_TEXT - 7
    ensures Expand(c, Lock([TOKEN_PREFIX + t], [TOKEN_PREFIX + t])) == Tokens(if Fold(t) == t then [] else [t])
  {
    RawTokenSelector(t);
    FoldedTokenIsClean(t);
    RawTokenSelector(Fold(t));
    NeitherAllNorNone(Fold(t));
    OnlyRemoval([TOKEN_PREFIX + t], TOKEN_PREFIX + t);
    if Fold(t) == t {
      LockedPlainToken(c, TOKEN_PREFIX + t);
    } else {
      RawTokenExpands(c, t);
      RawTokenExpands(c, Fold(t));
      assert (TOKEN_PREFIX + t)[6..] == t && (TOKEN_PREFIX + Fold(t))[6..] == Fold(t);
      LockedRawToken(c, TOKEN_PREFIX + t, TOKEN_PREFIX + Fold(t), "-" + (TOKEN_PREFIX + Fold(t)), t, Fold(t));
    }
  }

  lemma NeitherAllNorNone(t: string)
    ensures TOKEN_PREFIX + t !in ["all", "none"]
  {
    assert (TOKEN_PREFIX + t)[0] == 't';
  }

  lemma LockedPlainToken(c: Catalog, s: string)
    requires CleanSelector("-" + s) == Some("-" + s)
    requires CleanSelector(s) == Some(s) && TOKEN_PREFIX <= s && Target("-" + s) == s
    ensures Expand(c, Drop([s], s, "-" + s, "none") + ["-" + s]) == Tokens([])
  {
    assert [s][..0] == [] && s in [s, "-" + s, "none"];
    assert Without([], [s, "-" + s, "none"]) == [];
    assert Drop([s], s, "-" + s, "none") == [];
    assert [] + ["-" + s] == ["-" + s];
    assert s[0] == 't';
    SelectOne(c, "-" + s);
  }

  lemma OnlyRemoval(current: seq<string>, raw: string)
    requires !LocksAll(raw)
    ensures Lock(current, [raw]) == Drop(current, Asked(raw), "-" + Asked(raw), "none") + ["-" + Asked(raw)]
  {
    assert [raw][..0] == [];
    assert LockEach(current, []) == current;
  }

  lemma RawTokenExpands(c: Catalog, t: string)
    requires CleanToken(t) == Some(t)
    ensures ExpandOne(c, TOKEN_PREFIX + t, {}) == Tokens([t])
  {
    assert (TOKEN_PREFIX + t)[6..] == t && (TOKEN_PREFIX + t)[0] == 't';
  }

  lemma OneEach(c: Catalog, s: string, n: string, t: string, u: string)
    requires CleanSelector(s) == Some(s) && !Negative(s) && ExpandOne(c, s, {}) == Tokens([t])
    requires CleanSelector(n) == Some(n) && Negative(n) && ExpandOne(c, Target(n), {}) == Tokens([u])
    requires t != u
    ensures Expand(c, [s, n]) == Tokens([t])
  {
    SelectOne(c, s);
    SelectNext(c, [s], n, [t], [], [u]);
    assert [s] + [n] == [s, n] && [] + [u] == [u];
    OneLeft(t, u);
  }

  lemma SelectNext(c: Catalog, before: seq<string>, n: string, included: seq<string>, excluded: seq<string>,
      tokens: seq<string>)
    requires Select(c, before) == Selected(included, excluded)
    requires CleanSelector(n) == Some(n) && Negative(n) && ExpandOne(c, Target(n), {}) == Tokens(tokens)
    ensures Select(c, before + [n]) == Selected(included, excluded + tokens)
  {
    assert (before + [n])[..|before|] == before;
  }

  lemma OneLeft(t: string, u: string)
    requires t != u
    ensures Without(Deduplicated([t]), [u]) == [t]
  {
    assert [t][..0] == [];
    assert Deduplicated([t]) == [t];
    assert Without([], [u]) == [];
  }

  lemma LockedRawToken(c: Catalog, s: string, f: string, n: string, t: string, u: string)
    requires n == "-" + f && s != f && TOKEN_PREFIX <= s && t != u
    requires CleanSelector(s) == Some(s) && CleanSelector(n) == Some(n) && Target(n) == f
    requires ExpandOne(c, s, {}) == Tokens([t]) && ExpandOne(c, f, {}) == Tokens([u])
    ensures Expand(c, Drop([s], f, n, "none") + [n]) == Tokens([t])
  {
    KeepsOther(s, f);
    assert [s] + [n] == [s, n];
    assert s[0] == 't' && n[0] == '-';
    OneEach(c, s, n, t, u);
  }

  lemma KeepsOther(s: string, f: string)
    requires s != f && TOKEN_PREFIX <= s
    ensures Drop([s], f, "-" + f, "none") == [s]
  {
    assert s[0] == 't' && ("-" + f)[0] == '-' && "none"[0] == 'n';
    assert [s][..0] == [];
    assert Without([], [f, "-" + f, "none"]) == [];
  }
}
