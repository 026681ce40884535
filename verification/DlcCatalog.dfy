/** Selector expansion of the downloadable-content catalog (server/carbon/dlc.py). */
module DlcCatalog {
  import opened Collections
  import opened Options
  import opened LatinText

  const MAX_TEXT := 256
  const MAX_SELECTORS := 2_000
  const TOKEN_PREFIX := "token:"

  // ----- cleaning

  function FoldChar(c: char): char {
    if 'A' <= c <= 'Z' then (c as int + 32) as char else c
  }

  /** `str.casefold` on ASCII text. */
  function Fold(s: string): (r: string)
    ensures |r| == |s|
  {
    seq(|s|, i requires 0 <= i < |s| => FoldChar(s[i]))
  }

  function CleanText(value: string): Option<string> {
    var text := Strip(value);
    if text == "" || |text| > MAX_TEXT then None else Some(text)
  }

  predicate IsIdentifierChar(c: char) {
    'a' <= c <= 'z' || '0' <= c <= '9' || c == '_' || c == '-'
  }

  function CleanIdentifier(value: string): Option<string> {
    match CleanText(value)
    case None => None
    case Some(text) =>
      if forall k :: 0 <= k < |text| ==> IsIdentifierChar(FoldChar(text[k])) then Some(Fold(text)) else None
  }

  predicate IsWireDelimiter(c: char) {
    c == 0 as char || c == '\r' || c == '\n' || c == '='
  }

  function CleanToken(value: string): Option<string> {
    match CleanText(value)
    case None => None
    case Some(text) => if exists k :: 0 <= k < |text| && IsWireDelimiter(text[k]) then None else Some(text)
  }

  predicate Negative(selector: string) {
    selector != "" && selector[0] == '-'
  }

  function Target(selector: string): string {
    if Negative(selector) then selector[1..] else selector
  }

  /** A selector is validated and stripped, but keeps its own capitals. */
  function CleanSelector(value: string): Option<string> {
    match CleanText(value)
    case None => None
    case Some(text) =>
      var body := Target(text);
      if body == "" then None
      else if TOKEN_PREFIX <= body then
        (if CleanToken(body[6..]).None? then None else Some(text))
      else if body == "all" || body == "none" then Some(text)
      else if CleanIdentifier(body).None? then None
      else Some(text)
  }

  predicate Reserved(name: string) {
    name == "all" || name == "none" || "token" <= name
  }

  // ----- the catalog

  function Without(s: seq<string>, blocked: seq<string>): (r: seq<string>)
    ensures forall x :: x in r <==> x in s && x !in blocked
    ensures (forall i, j :: 0 <= i < j < |s| ==> s[i] != s[j]) ==> forall i, j :: 0 <= i < j < |r| ==> r[i] != r[j]
  {
    if s == [] then []
    else
      var init := Without(s[..|s| - 1], blocked);
      if s[|s| - 1] in blocked then init else init + [s[|s| - 1]]
  }

  /** `groups` keeps the order of the source's dictionary. */
  datatype Catalog = Catalog(groups: seq<(string, seq<string>)>, presets: map<string, seq<string>>) {
    function AllTokens(): seq<string> {
      Deduplicated(GroupTokens(groups))
    }
  }

  function GroupTokens(groups: seq<(string, seq<string>)>): seq<string> {
    if groups == [] then [] else groups[0].1 + GroupTokens(groups[1..])
  }

  function FindGroup(groups: seq<(string, seq<string>)>, key: string): Option<seq<string>> {
    if groups == [] then None
    else if groups[0].0 == key then Some(groups[0].1)
    else FindGroup(groups[1..], key)
  }

  datatype Expansion =
    | Tokens(tokens: seq<string>)
    | Cycle
    | Invalid

  function Combine(so_far: seq<string>, negative: bool, tokens: seq<string>): seq<string> {
    if negative then Without(so_far, tokens) else so_far + tokens
  }

  /** `entered` holds the presets on the recursion stack: each preset can be entered once at most. */
  function ExpandOne(c: Catalog, selector: string, entered: set<string>): Expansion
    decreases c.presets.Keys - entered, 0
  {
    if selector == "none" then Tokens([])
    else if selector == "all" then Tokens(c.AllTokens())
    else if TOKEN_PREFIX <= selector then
      match CleanToken(selector[6..])
      case None => Invalid
      case Some(token) => Tokens([token])
    else
      match FindGroup(c.groups, selector)
      case Some(tokens) => Tokens(tokens)
      case None =>
        if selector !in c.presets then Invalid
        else if selector in entered then Cycle
        else
          match ExpandChildren(c, c.presets[selector], entered + {selector})
          case Tokens(tokens) => Tokens(Deduplicated(tokens))
          case other => other
  }

  function ExpandChildren(c: Catalog, children: seq<string>, entered: set<string>): Expansion
    decreases c.presets.Keys - entered, 1 + |children|
  {
    if children == [] then Tokens([])
    else
      var child := children[|children| - 1];
      match ExpandChildren(c, children[..|children| - 1], entered)
      case Tokens(so_far) =>
        (match ExpandOne(c, Target(child), entered)
         case Tokens(tokens) => Tokens(Combine(so_far, Negative(child), tokens))
         case other => other)
      case other => other
  }

  /** What the selectors include and exclude, before the two are combined. */
  datatype Selection =
    | Selected(included: seq<string>, excluded: seq<string>)
    | Failed(reason: Expansion)

  function Select(c: Catalog, selectors: seq<string>): (r: Selection)
    ensures r.Failed? ==> !r.reason.Tokens?
  {
    if selectors == [] then Selected([], [])
    else
      match Select(c, selectors[..|selectors| - 1])
      case Failed(reason) => Failed(reason)
      case Selected(included, excluded) =>
        match CleanSelector(selectors[|selectors| - 1])
        case None => Failed(Invalid)
        case Some(selector) =>
          match ExpandOne(c, Target(selector), {})
          case Tokens(tokens) =>
            if Negative(selector) then Selected(included, excluded + tokens) else Selected(included + tokens, excluded)
          case other => Failed(other)
  }

  function Expand(c: Catalog, selectors: seq<string>): Expansion {
    if |selectors| > MAX_SELECTORS then Invalid
    else
      match Select(c, selectors)
      case Failed(reason) => reason
      case Selected(included, excluded) => Tokens(Without(Deduplicated(included), excluded))
  }

  /** Loading a catalog expands every preset once. */
  ghost predicate Loads(c: Catalog) {
    forall p :: p in c.presets ==> Expand(c, [p]).Tokens?
  }

  /** A key that the loader lets through: a clean identifier that is no other form of selector. */
  predicate GoodKey(key: string) {
    CleanIdentifier(key) == Some(key) && !Reserved(key)
  }

  /** The keys that the loader lets through: at least one group, none without tokens, and presets beside them. */
  ghost predicate WellKeyed(c: Catalog) {
    && c.groups != []
    && (forall i :: 0 <= i < |c.groups| ==> GoodKey(c.groups[i].0) && c.groups[i].1 != [])
    && (forall i, j :: 0 <= i < j < |c.groups| ==> c.groups[i].0 != c.groups[j].0)
    && forall p :: p in c.presets ==> GoodKey(p) && FindGroup(c.groups, p).None?
  }

  // ----- the stack does not matter

  /** A success with more presets entered is the same success with fewer. */
  lemma {:induction false} FewerEntered(c: Catalog, selector: string, more: set<string>, fewer: set<string>)
    requires fewer <= more && ExpandOne(c, selector, more).Tokens?
    ensures ExpandOne(c, selector, fewer) == ExpandOne(c, selector, more)
    decreases c.presets.Keys - more, 0
  {
    if selector != "none" && selector != "all" && !(TOKEN_PREFIX <= selector) && FindGroup(c.groups, selector).None? {
      FewerEnteredChildren(c, c.presets[selector], more + {selector}, fewer + {selector});
    }
  }

  lemma {:induction false} FewerEnteredChildren(c: Catalog, children: seq<string>, more: set<string>,
      fewer: set<string>)
    requires fewer <= more && ExpandChildren(c, children, more).Tokens?
    ensures ExpandChildren(c, children, fewer) == ExpandChildren(c, children, more)
    decreases c.presets.Keys - more, 1 + |children|
  {
    if children != [] {
      var child := children[|children| - 1];
      FewerEnteredChildren(c, children[..|children| - 1], more, fewer);
      FewerEntered(c, Target(child), more, fewer);
    }
  }

  /** The children of a preset, each expanded as if it had been asked for by itself. */
  function ExpandApart(c: Catalog, children: seq<string>): Expansion {
    if children == [] then Tokens([])
    else
      var child := children[|children| - 1];
      match ExpandApart(c, children[..|children| - 1])
      case Tokens(so_far) =>
        (match ExpandOne(c, Target(child), {})
         case Tokens(tokens) => Tokens(Combine(so_far, Negative(child), tokens))
         case other => other)
      case other => other
  }

  lemma {:induction false} ChildrenApart(c: Catalog, children: seq<string>, entered: set<string>)
    requires ExpandChildren(c, children, entered).Tokens?
    ensures ExpandApart(c, children) == ExpandChildren(c, children, entered)
    decreases |children|
  {
    if children != [] {
      ChildrenApart(c, children[..|children| - 1], entered);
      FewerEntered(c, Target(children[|children| - 1]), entered, {});
    }
  }

  /**
   When a preset expands at all, its tokens are those of its children expanded apart:
   neither success nor result of a child depends on the path that led to it.
   */
  lemma PresetMeansItsChildren(c: Catalog, preset: string, entered: set<string>)
    requires WellKeyed(c) && preset in c.presets && ExpandOne(c, preset, entered).Tokens?
    ensures ExpandOne(c, preset, {}) == ExpandOne(c, preset, entered)
    ensures ExpandApart(c, c.presets[preset]).Tokens?
    ensures ExpandOne(c, preset, {}) == Tokens(Deduplicated(ExpandApart(c, c.presets[preset]).tokens))
  {
    FewerEntered(c, preset, entered, {});
    ChildrenApart(c, c.presets[preset], entered + {preset});
  }

  // ----- cycles

  lemma IdentifierIsSelector(p: string)
    requires CleanIdentifier(p) == Some(p) && !Reserved(p)
    ensures Strip(p) == p && 0 < |p| <= MAX_TEXT && !(TOKEN_PREFIX <= p)
    ensures !Negative(p) ==> CleanSelector(p) == Some(p)
  {
    IdentifierIsTrimmed(p);
  }

  lemma {:induction false} IdentifierIsTrimmed(p: string)
    requires CleanIdentifier(p) == Some(p)
    ensures Trimmed(p) && Strip(p) == p && p != ""
  {
    var text := Strip(p);
    forall k | 0 <= k < |p| ensures !IsSpace(p[k]) {
      assert p[k] == FoldChar(text[k]);
    }
    StripTrimmed(p);
  }

  lemma SelectOne(c: Catalog, selector: string)
    ensures Select(c, [selector]) ==
      match CleanSelector(selector)
      case None => Failed(Invalid)
      case Some(clean) =>
        match ExpandOne(c, Target(clean), {})
        case Tokens(tokens) => if Negative(clean) then Selected([], tokens) else Selected(tokens, [])
        case other => Failed(other)
  {
    assert [selector][..0] == [];
    assert Select(c, []) == Selected([], []);
  }

  /** The selector that names a preset: the key itself, or the key behind a hyphen when it has one of its own. */
  function Naming(preset: string): string {
    if Negative(preset) then "-" + preset else preset
  }

  lemma NamingSelects(preset: string)
    requires CleanIdentifier(preset) == Some(preset) && !Reserved(preset) && |preset| < MAX_TEXT
    ensures CleanSelector(Naming(preset)) == Some(Naming(preset)) && Target(Naming(preset)) == preset
  {
    IdentifierIsSelector(preset);
    if Negative(preset) {
      HyphenSelects(preset, "-" + preset);
    }
  }

  /** A hyphen before a key takes nothing from it. */
  lemma HyphenSelects(preset: string, named: string)
    requires CleanIdentifier(preset) == Some(preset) && !Reserved(preset) && |preset| < MAX_TEXT
    requires named == "-" + preset
    ensures CleanSelector(named) == Some(named) && Target(named) == preset
  {
    IdentifierIsSelector(preset);
    IdentifierIsTrimmed(preset);
    assert named[|named| - 1] == preset[|preset| - 1];
    StripTrimmed(named);
    assert named[1..] == preset;
  }

  /** The first failure of a selection is the failure of one of its targets. */
  lemma {:induction false} SelectCycle(c: Catalog, selectors: seq<string>) returns (target: string)
    requires Select(c, selectors) == Failed(Cycle)
    ensures ExpandOne(c, target, {}) == Cycle
    ensures Negative(target) ==> |target| < MAX_TEXT
  {
    if Select(c, selectors[..|selectors| - 1]).Failed? {
      target := SelectCycle(c, selectors[..|selectors| - 1]);
    } else {
      target := Target(CleanSelector(selectors[|selectors| - 1]).value);
    }
  }

  lemma CycleIsAtAPreset(c: Catalog, target: string)
    requires ExpandOne(c, target, {}) == Cycle
    ensures target in c.presets
  {
  }

  /**
   A loaded catalog never raises a cycle error later, for any selection, if and only if
   none of its presets whose key starts with a hyphen is cyclic: loading asks for such a
   preset by its key and so tests the key without the hyphen instead.  A hyphen key of the
   full length cannot be selected at all.
   */
  lemma NoCyclesAfterLoading(c: Catalog)
    requires WellKeyed(c) && Loads(c)
    ensures (forall selectors :: Expand(c, selectors) != Cycle) <==>
      (forall p :: p in c.presets && Negative(p) && |p| < MAX_TEXT ==> ExpandOne(c, p, {}) != Cycle)
  {
    if forall p :: p in c.presets && Negative(p) && |p| < MAX_TEXT ==> ExpandOne(c, p, {}) != Cycle {
      forall selectors ensures Expand(c, selectors) != Cycle {
        if Expand(c, selectors) == Cycle {
          CyclicHyphenKey(c, selectors);
        }
      }
    }
    if p :| p in c.presets && Negative(p) && |p| < MAX_TEXT && ExpandOne(c, p, {}) == Cycle {
      CyclicSelection(c, p);
    }
  }

  lemma CyclicHyphenKey(c: Catalog, selectors: seq<string>)
    requires WellKeyed(c) && Loads(c) && Expand(c, selectors) == Cycle
    ensures exists p :: p in c.presets && Negative(p) && |p| < MAX_TEXT && ExpandOne(c, p, {}) == Cycle
  {
    var target := SelectCycle(c, selectors);
    CycleIsAtAPreset(c, target);
    if !Negative(target) {
      LoadedExpands(c, target);
    }
  }

  lemma CyclicSelection(c: Catalog, p: string)
    requires WellKeyed(c) && p in c.presets && |p| < MAX_TEXT && ExpandOne(c, p, {}) == Cycle
    ensures Expand(c, [Naming(p)]) == Cycle
  {
    NamingSelects(p);
    SelectOne(c, Naming(p));
  }

  lemma LoadedExpands(c: Catalog, preset: string)
    requires WellKeyed(c) && Loads(c) && preset in c.presets && !Negative(preset)
    ensures ExpandOne(c, preset, {}).Tokens?
  {
    IdentifierIsSelector(preset);
    SelectOne(c, preset);
    assert Expand(c, [preset]).Tokens?;
  }

  /** In a loaded catalog without hyphen keys every preset means its children, and no selection is cyclic. */
  lemma LoadedCatalogIsSound(c: Catalog, preset: string)
    requires WellKeyed(c) && Loads(c) && preset in c.presets
    requires forall p :: p in c.presets ==> !Negative(p)
    ensures ExpandApart(c, c.presets[preset]).Tokens?
    ensures ExpandOne(c, preset, {}) == Tokens(Deduplicated(ExpandApart(c, c.presets[preset]).tokens))
    ensures forall selectors :: Expand(c, selectors) != Cycle
  {
    LoadedExpands(c, preset);
    PresetMeansItsChildren(c, preset, {});
    NoCyclesAfterLoading(c);
  }

  // ----- a hyphen key that hides a cycle

  function HiddenCycle(): Catalog {
    Catalog([("g", ["t"])], map["a" := [], "-a" := ["--a"]])
  }

  /** The catalog above loads, and yet a selection of it is cyclic. */
  lemma HyphenKeyHidesCycle()
    ensures WellKeyed(HiddenCycle()) && Loads(HiddenCycle())
    ensures Expand(HiddenCycle(), ["--a"]) == Cycle
  {
    PlainLetter();
    CyclicBesideGroup(HiddenCycle(), "g", "t", "a", "-a", "--a");
  }

  lemma CyclicBesideGroup(c: Catalog, group: string, token: string, x: string, y: string, z: string)
    requires c == Catalog([(group, [token])], map[x := [], y := [z]])
    requires GoodKey(group) && GoodKey(x) && GoodKey(y) && group != x && group != y
    requires !Negative(x) && Negative(y) && |y| < MAX_TEXT && CleanSelector(y) == Some(y) && Target(y) == x
      && z == "-" + y
    ensures WellKeyed(c) && Loads(c) && Expand(c, [z]) == Cycle
  {
    OneGroup(group, [token], x);
    OneGroup(group, [token], y);
    CycleBehindHyphen(c, x, y, z);
    TwoPresets(c, x, y);
  }

  lemma TwoPresets(c: Catalog, x: string, y: string)
    requires |c.groups| == 1 && GoodKey(c.groups[0].0) && c.groups[0].1 != []
    requires c.presets.Keys == {x, y} && GoodKey(x) && GoodKey(y)
    requires FindGroup(c.groups, x).None? && FindGroup(c.groups, y).None?
    ensures WellKeyed(c) && (Expand(c, [x]).Tokens? && Expand(c, [y]).Tokens? ==> Loads(c))
  {
    assert forall p :: p in c.presets ==> p in {x, y};
  }

  lemma OneGroup(group: string, tokens: seq<string>, key: string)
    requires group != key
    ensures FindGroup([(group, tokens)], key).None?
  {
    assert [(group, tokens)][1..] == [];
  }

  /** A preset named by a hyphen and a preset's key, whose child names it in turn. */
  lemma CycleBehindHyphen(c: Catalog, x: string, y: string, z: string)
    requires GoodKey(x) && !Negative(x) && FindGroup(c.groups, x).None?
    requires GoodKey(y) && Negative(y) && |y| < MAX_TEXT && FindGroup(c.groups, y).None?
    requires CleanSelector(y) == Some(y) && Target(y) == x && z == "-" + y
    requires c.presets == map[x := [], y := [z]]
    ensures Expand(c, [x]).Tokens? && Expand(c, [y]).Tokens?
    ensures Expand(c, [z]) == Cycle
  {
    IdentifierIsSelector(x);
    IdentifierIsSelector(y);
    HyphenSelects(y, z);
    EmptyPreset(c, x);
    SelectOne(c, x);
    SelectOne(c, y);
    OwnChild(c, y, z);
    SelectOne(c, z);
  }

  lemma EmptyPreset(c: Catalog, x: string)
    requires FindGroup(c.groups, x).None? && x in c.presets && c.presets[x] == [] && !Reserved(x)
      && !(TOKEN_PREFIX <= x)
    ensures ExpandOne(c, x, {}) == Tokens([])
  {
    assert {} + {x} == {x} && ExpandChildren(c, [], {x}) == Tokens([]);
  }

  lemma OwnChild(c: Catalog, y: string, z: string)
    requires FindGroup(c.groups, y).None? && y in c.presets && c.presets[y] == [z] && Target(z) == y
    requires !Reserved(y) && !(TOKEN_PREFIX <= y)
    ensures ExpandOne(c, y, {}) == Cycle
  {
    assert [z][..0] == [];
    assert ExpandChildren(c, [], {y}) == Tokens([]);
    assert ExpandOne(c, y, {y}) == Cycle;
    assert ExpandChildren(c, [z], {y}) == Cycle;
    assert {} + {y} == {y};
  }

  lemma PlainLetter()
    ensures GoodKey("a") && GoodKey("-a") && GoodKey("g")
    ensures CleanSelector("-a") == Some("-a") && Target("-a") == "a"
  {
    StripTrimmed("a");
    StripTrimmed("-a");
    StripTrimmed("g");
    assert Fold("a") == "a" && Fold("-a") == "-a" && Fold("g") == "g";
    assert "-a"[1..] == "a";
  }

  // ----- what a selection yields

  /** Some selector, negative or positive as asked, whose expansion holds the token. */
  predicate SomeNames(c: Catalog, selectors: seq<string>, token: string, negative: bool) {
    exists k :: 0 <= k < |selectors| && Names(c, selectors[k], token, negative)
  }

  lemma LastOf(f: string -> bool, selectors: seq<string>)
    requires selectors != []
    ensures (exists k :: 0 <= k < |selectors| && f(selectors[k]))
       <==> (exists k :: 0 <= k < |selectors| - 1 && f(selectors[k])) || f(selectors[|selectors| - 1])
  {
  }

  lemma LastSelector(c: Catalog, selectors: seq<string>, token: string, negative: bool)
    requires selectors != []
    ensures SomeNames(c, selectors, token, negative) <==>
      SomeNames(c, selectors[..|selectors| - 1], token, negative)
        || Names(c, selectors[|selectors| - 1], token, negative)
  {
    var f := (s: string) => Names(c, s, token, negative);
    LastOf(f, selectors);
    SomeNamesIs(c, selectors, token, negative, f);
    var init := selectors[..|selectors| - 1];
    SomeNamesIs(c, init, token, negative, f);
    assert forall k :: 0 <= k < |init| ==> init[k] == selectors[k];
  }

  lemma SomeNamesIs(c: Catalog, selectors: seq<string>, token: string, negative: bool, f: string -> bool)
    requires forall s :: f(s) == Names(c, s, token, negative)
    ensures SomeNames(c, selectors, token, negative) <==> exists k :: 0 <= k < |selectors| && f(selectors[k])
  {
  }

  lemma {:induction false} SelectedTokens(c: Catalog, selectors: seq<string>, token: string)
    requires Select(c, selectors).Selected?
    ensures token in Select(c, selectors).included <==> SomeNames(c, selectors, token, false)
    ensures token in Select(c, selectors).excluded <==> SomeNames(c, selectors, token, true)
    decreases |selectors|
  {
    if selectors != [] {
      SelectedTokens(c, selectors[..|selectors| - 1], token);
      LastSelector(c, selectors, token, false);
      LastSelector(c, selectors, token, true);
    }
  }

  /** Every selector of a successful selection is clean and expands. */
  lemma {:induction false} SelectedExpand(c: Catalog, selectors: seq<string>, k: nat)
    requires Select(c, selectors).Selected? && k < |selectors|
    ensures CleanSelector(selectors[k]).Some?
    ensures ExpandOne(c, Target(CleanSelector(selectors[k]).value), {}).Tokens?
    decreases |selectors|
  {
    if k < |selectors| - 1 {
      SelectedExpand(c, selectors[..|selectors| - 1], k);
    }
  }

  predicate Names(c: Catalog, selector: string, token: string, negative: bool) {
    var clean := CleanSelector(selector);
    clean.Some? && Negative(clean.value) == negative
    && var e := ExpandOne(c, Target(clean.value), {}); e.Tokens? && token in e.tokens
  }

  /** An expansion repeats nothing, and is every token of a positive selector that no negative one names. */
  lemma ExpansionIs(c: Catalog, selectors: seq<string>)
    requires Expand(c, selectors).Tokens?
    ensures var tokens := Expand(c, selectors).tokens;
      && (forall i, j :: 0 <= i < j < |tokens| ==> tokens[i] != tokens[j])
      && forall t :: t in tokens <==> SomeNames(c, selectors, t, false) && !SomeNames(c, selectors, t, true)
  {
    forall t ensures t in Expand(c, selectors).tokens <==>
      SomeNames(c, selectors, t, false) && !SomeNames(c, selectors, t, true) {
      SelectedTokens(c, selectors, t);
    }
  }
}
