/**
 Which selectors a lock or an unlock leaves, and what selectors and presets stand for
 (server/carbon/dlc.py, admin/dlc.py).
 */
module DlcEffects {
  import opened Collections
  import opened Options
  import opened LatinText
  import opened DlcCatalog
  import opened DlcAdmin

  // ----- locks

  /** Removal `k` puts the item there, and no later one takes it away. */
  ghost predicate Locked(removals: seq<string>, item: string) {
    exists k :: 0 <= k < |removals| && item == "-" + Asked(removals[k]) && !AskedFrom(removals, k + 1, item)
  }

  /** A removal from the `k`-th on asks for the item itself. */
  ghost predicate AskedFrom(removals: seq<string>, k: nat, item: string) {
    exists j :: k <= j < |removals| && Asked(removals[j]) == item
  }

  lemma AskedFromLast(init: seq<string>, last: string, k: nat, item: string)
    requires k <= |init|
    ensures AskedFrom(init + [last], k, item) <==> AskedFrom(init, k, item) || Asked(last) == item
  {
    var all := init + [last];
    if AskedFrom(init, k, item) {
      var j :| k <= j < |init| && Asked(init[j]) == item;
      assert all[j] == init[j];
    }
    assert all[|init|] == last;
  }

  lemma LockedLast(init: seq<string>, last: string, item: string)
    ensures Locked(init + [last], item) <==> item == "-" + Asked(last) || (Locked(init, item) && Asked(last) != item)
  {
    var all := init + [last];
    assert all[|init|] == last && !AskedFrom(all, |all|, item);
    if Locked(init, item) && Asked(last) != item {
      var k :| 0 <= k < |init| && item == "-" + Asked(init[k]) && !AskedFrom(init, k + 1, item);
      AskedFromLast(init, last, k + 1, item);
      assert all[k] == init[k];
    }
    if Locked(all, item) && item != "-" + Asked(last) {
      var k :| 0 <= k < |all| && item == "-" + Asked(all[k]) && !AskedFrom(all, k + 1, item);
      assert all[k] == init[k];
      AskedFromLast(init, last, k + 1, item);
    }
  }

  /**
   What a list of removals leaves: the negations that no later removal names, and of the
   earlier selectors all that no removal names and that are not "none".
   */
  lemma {:induction false} LockLeaves(current: seq<string>, removals: seq<string>, item: string)
    requires removals != []
    ensures item in LockEach(current, removals) <==>
      Locked(removals, item) || (item in current && item != "none" && !AskedFrom(removals, 0, item))
  {
    var (init, last) := (removals[..|removals| - 1], removals[|removals| - 1]);
    assert removals == init + [last];
    HyphenFirst(Asked(last));
    LockOneLeaves(LockEach(current, init), Asked(last), item);
    LockedLast(init, last, item);
    AskedFromLast(init, last, 0, item);
    if init != [] {
      LockLeaves(current, init, item);
    }
    if item == "none" && Locked(removals, item) {
      var k :| 0 <= k < |removals| && item == "-" + Asked(removals[k]);
      HyphenFirst(Asked(removals[k]));
    }
  }

  lemma HyphenFirst(s: string)
    ensures "-" + s != "none" && "-" + s != s
  {
    assert ("-" + s)[0] == '-' && "none"[0] == 'n';
    assert |"-" + s| == |s| + 1;
  }

  lemma LockOneLeaves(before: seq<string>, selector: string, item: string)
    ensures item in LockOne(before, selector) <==>
      item == "-" + selector || (item in before && item != selector && item != "none")
  {
  }

  // ----- unlocks

  predicate Adds(raw: string, item: string) {
    Asked(raw) == item && item != "none"
  }

  /** The addition takes away the negation of itself. */
  predicate Frees(raw: string, item: string) {
    Asked(raw) != "none" && item == "-" + Asked(raw)
  }

  ghost predicate FreedFrom(additions: seq<string>, k: nat, item: string) {
    exists j :: k <= j < |additions| && Frees(additions[j], item)
  }

  ghost predicate Unlocked(additions: seq<string>, item: string) {
    exists k :: 0 <= k < |additions| && Adds(additions[k], item) && !FreedFrom(additions, k + 1, item)
  }

  lemma FreedFromLast(init: seq<string>, last: string, k: nat, item: string)
    requires k <= |init|
    ensures FreedFrom(init + [last], k, item) <==> FreedFrom(init, k, item) || Frees(last, item)
  {
    var all := init + [last];
    if FreedFrom(init, k, item) {
      var j :| k <= j < |init| && Frees(init[j], item);
      assert all[j] == init[j];
    }
    assert all[|init|] == last;
  }

  lemma UnlockedLast(init: seq<string>, last: string, item: string)
    ensures Unlocked(init + [last], item) <==> Adds(last, item) || (Unlocked(init, item) && !Frees(last, item))
  {
    var all := init + [last];
    assert all[|init|] == last && !FreedFrom(all, |all|, item);
    if Unlocked(init, item) && !Frees(last, item) {
      var k :| 0 <= k < |init| && Adds(init[k], item) && !FreedFrom(init, k + 1, item);
      FreedFromLast(init, last, k + 1, item);
      assert all[k] == init[k];
    }
    if Unlocked(all, item) && !Adds(last, item) {
      var k :| 0 <= k < |all| && Adds(all[k], item) && !FreedFrom(all, k + 1, item);
      assert all[k] == init[k];
      FreedFromLast(init, last, k + 1, item);
    }
  }

  /**
   What a list of additions leaves: the selectors that no later addition is the plain form
   of, and all earlier ones but "none" that no addition is the plain form of.
   */
  lemma {:induction false} UnlockLeaves(current: seq<string>, additions: seq<string>, item: string)
    requires item != "none"
    ensures item in UnlockEach(current, additions) <==>
      Unlocked(additions, item) || (item in current && !FreedFrom(additions, 0, item))
  {
    if additions != [] {
      var (init, last) := (additions[..|additions| - 1], additions[|additions| - 1]);
      assert additions == init + [last];
      HyphenFirst(Asked(last));
      UnlockLeaves(current, init, item);
      UnlockedLast(init, last, item);
      FreedFromLast(init, last, 0, item);
    }
  }

  /** "all" among the additions unlocks everything; otherwise "none" is left only when nothing else is. */
  lemma UnlockAnswer(current: seq<string>, additions: seq<string>)
    ensures (exists k :: 0 <= k < |additions| && Asked(additions[k]) == "all") ==> Unlock(current, additions) == ["all"]
    ensures (forall k :: 0 <= k < |additions| ==> Asked(additions[k]) != "all") ==>
      var each := UnlockEach(if current == ["none"] then [] else current, additions);
      Unlock(current, additions) == if each == [] then ["none"] else each
    ensures Unlock(current, additions) != []
  {
  }

  /** An unlocked selector's tokens are there, unless another selector that is left denies them. */
  lemma UnlockAddsTokens(c: Catalog, current: seq<string>, additions: seq<string>, k: nat, token: string)
    requires k < |additions| && Asked(additions[k]) != "none" && !FreedFrom(additions, k + 1, Asked(additions[k]))
    requires forall j :: 0 <= j < |additions| ==> Asked(additions[j]) != "all"
    requires Expand(c, Unlock(current, additions)).Tokens? && Names(c, Asked(additions[k]), token, false)
    ensures token in Expand(c, Unlock(current, additions)).tokens <==>
      !SomeNames(c, Unlock(current, additions), token, true)
  {
    var (item, left) := (Asked(additions[k]), Unlock(current, additions));
    assert Adds(additions[k], item) && Unlocked(additions, item);
    UnlockLeaves(if current == ["none"] then [] else current, additions, item);
    UnlockAnswer(current, additions);
    assert item in left;
    var i :| 0 <= i < |left| && left[i] == item;
    assert SomeNames(c, left, token, false);
    ExpansionIs(c, left);
  }

  // ----- what selectors stand for

  /** A group of the catalog. */
  ghost predicate IsGroup(c: Catalog, key: string, tokens: seq<string>) {
    exists i :: 0 <= i < |c.groups| && c.groups[i].0 == key && c.groups[i].1 == tokens
  }

  lemma {:induction false} FoundGroup(groups: seq<(string, seq<string>)>, i: nat)
    requires i < |groups| && forall j :: 0 <= j < i ==> groups[j].0 != groups[i].0
    ensures FindGroup(groups, groups[i].0) == Some(groups[i].1)
  {
    if i > 0 {
      FoundGroup(groups[1..], i - 1);
    }
  }

  lemma {:induction false} TokensOfGroups(groups: seq<(string, seq<string>)>, token: string)
    ensures token in GroupTokens(groups) <==> exists i :: 0 <= i < |groups| && token in groups[i].1
  {
    if groups != [] {
      TokensOfGroups(groups[1..], token);
      if token in GroupTokens(groups[1..]) {
        var i :| 0 <= i < |groups[1..]| && token in groups[1..][i].1;
        assert groups[i + 1] == groups[1..][i];
      }
      if i :| 0 <= i < |groups| && token in groups[i].1 {
        assert i > 0 ==> groups[1..][i - 1] == groups[i];
      }
    }
  }

  /** "none" names nothing, "all" every token of every group, a group its tokens, and "token:" the one behind it. */
  lemma PlainSelectors(c: Catalog, i: nat, token: string, path: set<string>)
    requires WellKeyed(c) && i < |c.groups|
    ensures ExpandOne(c, "none", path) == Tokens([])
    ensures ExpandOne(c, "all", path).Tokens?
    ensures token in ExpandOne(c, "all", path).tokens <==> exists k :: 0 <= k < |c.groups| && token in c.groups[k].1
    ensures ExpandOne(c, c.groups[i].0, path) == Tokens(c.groups[i].1)
    ensures CleanToken(token) == Some(token) ==> ExpandOne(c, TOKEN_PREFIX + token, path) == Tokens([token])
  {
    TokensOfGroups(c.groups, token);
    FoundGroup(c.groups, i);
    assert (TOKEN_PREFIX + token)[6..] == token && (TOKEN_PREFIX + token)[0] == 't';
    PrefixIsReserved(c.groups[i].0);
  }

  lemma PrefixIsReserved(key: string)
    ensures TOKEN_PREFIX <= key ==> Reserved(key)
  {
    if TOKEN_PREFIX <= key {
      assert key[..5] == TOKEN_PREFIX[..5] == "token";
    }
  }

  // ----- presets

  /** The child names the token, as the children before it would have it expanded. */
  predicate ChildNames(c: Catalog, child: string, token: string) {
    var e := ExpandOne(c, Target(child), {}); e.Tokens? && token in e.tokens
  }

  /** A positive child names the token and no negative one behind it does. */
  ghost predicate LastSaysYes(c: Catalog, children: seq<string>, token: string) {
    exists k :: 0 <= k < |children| && !Negative(children[k]) && ChildNames(c, children[k], token)
      && !DeniedFrom(c, children, k + 1, token)
  }

  ghost predicate DeniedFrom(c: Catalog, children: seq<string>, k: nat, token: string) {
    exists j :: k <= j < |children| && Negative(children[j]) && ChildNames(c, children[j], token)
  }

  lemma DeniedLast(c: Catalog, init: seq<string>, last: string, k: nat, token: string)
    requires k <= |init|
    ensures DeniedFrom(c, init + [last], k, token) <==>
      DeniedFrom(c, init, k, token) || (Negative(last) && ChildNames(c, last, token))
  {
    var all := init + [last];
    if DeniedFrom(c, init, k, token) {
      var j :| k <= j < |init| && Negative(init[j]) && ChildNames(c, init[j], token);
      assert all[j] == init[j];
    }
    assert all[|init|] == last;
  }

  lemma LastSays(c: Catalog, init: seq<string>, last: string, token: string)
    ensures LastSaysYes(c, init + [last], token) <==>
      if ChildNames(c, last, token) then !Negative(last) else LastSaysYes(c, init, token)
  {
    var all := init + [last];
    assert all[|init|] == last && !DeniedFrom(c, all, |all|, token);
    if LastSaysYes(c, init, token) && !ChildNames(c, last, token) {
      var k :| 0 <= k < |init| && !Negative(init[k]) && ChildNames(c, init[k], token)
        && !DeniedFrom(c, init, k + 1, token);
      DeniedLast(c, init, last, k + 1, token);
      assert all[k] == init[k];
    }
    if LastSaysYes(c, all, token) && (Negative(last) || !ChildNames(c, last, token)) {
      var k :| 0 <= k < |all| && !Negative(all[k]) && ChildNames(c, all[k], token) && !DeniedFrom(c, all, k + 1, token);
      assert all[k] == init[k];
      DeniedLast(c, init, last, k + 1, token);
    }
  }

  /** Of the children that name a token the last one decides. */
  lemma {:induction false} LastChildDecides(c: Catalog, children: seq<string>, token: string)
    requires ExpandApart(c, children).Tokens?
    ensures token in ExpandApart(c, children).tokens <==> LastSaysYes(c, children, token)
  {
    if children != [] {
      var (init, last) := (children[..|children| - 1], children[|children| - 1]);
      assert children == init + [last];
      LastChildDecides(c, init, token);
      LastSays(c, init, last, token);
    }
  }

  // ----- when a selection expands

  lemma {:induction false} SelectsIff(c: Catalog, selectors: seq<string>)
    ensures Select(c, selectors).Selected? <==> forall k :: 0 <= k < |selectors| ==> Usable(c, selectors[k])
  {
    if selectors != [] {
      SelectsIff(c, selectors[..|selectors| - 1]);
      assert forall k :: 0 <= k < |selectors| - 1 ==> selectors[..|selectors| - 1][k] == selectors[k];
    }
  }

  predicate Usable(c: Catalog, selector: string) {
    var clean := CleanSelector(selector);
    clean.Some? && ExpandOne(c, Target(clean.value), {}).Tokens?
  }

  /** A selection expands exactly when it is not too long and each of its selectors is clean and expands. */
  lemma ExpandsIff(c: Catalog, selectors: seq<string>)
    ensures Expand(c, selectors).Tokens? <==>
      |selectors| <= 2_000 && forall k :: 0 <= k < |selectors| ==> Usable(c, selectors[k])
  {
    SelectsIff(c, selectors);
  }

  // ----- which texts are selectors

  predicate Letter(c: char) {
    'a' <= c <= 'z' || 'A' <= c <= 'Z' || '0' <= c <= '9' || c == '_' || c == '-'
  }

  predicate IdentifierText(text: string) {
    1 <= |text| <= 256 && forall k :: 0 <= k < |text| ==> Letter(text[k])
  }

  /** A token is any text of the allowed length without a character that the wire format uses itself. */
  predicate TokenText(text: string) {
    1 <= |text| <= 256 && forall c :: c in text ==> c != '=' && c != '\r' && c != '\n' && c != '\0'
  }

  lemma IdentifierIff(value: string)
    ensures CleanIdentifier(value).Some? <==> IdentifierText(Strip(value))
    ensures CleanIdentifier(value).Some? ==> CleanIdentifier(value).value == Fold(Strip(value))
  {
    var text := Strip(value);
    forall k | 0 <= k < |text| ensures IsIdentifierChar(FoldChar(text[k])) <==> Letter(text[k]) {
      LetterFolds(text[k]);
    }
  }

  lemma LetterFolds(c: char)
    ensures IsIdentifierChar(FoldChar(c)) <==> Letter(c)
  {
  }

  lemma TokenIff(value: string)
    ensures CleanToken(value) == if TokenText(Strip(value)) then Some(Strip(value)) else None
  {
    var text := Strip(value);
    assert (exists k :: 0 <= k < |text| && IsWireDelimiter(text[k])) <==> exists c :: c in text && IsWireDelimiter(c);
  }

  /** What may stand behind the hyphen of a selector, or be one. */
  predicate TargetText(body: string) {
    if TOKEN_PREFIX <= body then TokenText(Strip(body[6..]))
    else body == "all" || body == "none" || IdentifierText(Strip(body))
  }

  /** A selector is a stripped text of the allowed length with a target; it keeps its capitals. */
  lemma SelectorIff(value: string)
    ensures CleanSelector(value) ==
      if 1 <= |Strip(value)| <= 256 && TargetText(Target(Strip(value))) then Some(Strip(value)) else None
  {
    var body := Target(Strip(value));
    if TOKEN_PREFIX <= body {
      TokenIff(body[6..]);
    }
    IdentifierIff(body);
    assert Strip("") == "";
  }
}
