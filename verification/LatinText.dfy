/**
 Byte strings in their Latin-1 reading, and the few text operations of the Python
 string type that the FESL codec relies on.  Latin-1 maps byte b to code point b, so
 one sequence of characters below 256 stands for both the bytes and the text.
 */
module LatinText {
  import opened Options

  /** A sequence of bytes, as opposed to arbitrary text. */
  predicate IsBytes(s: string) {
    forall k :: 0 <= k < |s| ==> s[k] as int < 256
  }

  /** The code points below 256 for which Python's str.isspace holds. */
  predicate IsSpace(c: char) {
    var n := c as int;
    9 <= n <= 13 || 28 <= n <= 32 || n == 0x85 || n == 0xA0
  }

  function LeftStrip(s: string): string {
    if s != [] && IsSpace(s[0]) then LeftStrip(s[1..]) else s
  }

  function RightStrip(s: string): string {
    if s != [] && IsSpace(s[|s| - 1]) then RightStrip(s[..|s| - 1]) else s
  }

  function Strip(s: string): string {
    RightStrip(LeftStrip(s))
  }

  /** Text that `strip` leaves alone. */
  predicate Trimmed(s: string) {
    s == [] || (!IsSpace(s[0]) && !IsSpace(s[|s| - 1]))
  }

  lemma StripTrimmed(s: string)
    ensures Trimmed(s) ==> Strip(s) == s
  {
  }

  /** The least index of `c`, or the length when `c` does not occur. */
  function IndexOf(s: string, c: char): (i: nat)
    ensures i <= |s|
  {
    if s == [] || s[0] == c then 0 else 1 + IndexOf(s[1..], c)
  }

  lemma {:induction false} IndexOfAfter(prefix: string, c: char, rest: string)
    requires c !in prefix
    ensures IndexOf(prefix + [c] + rest, c) == |prefix|
  {
    if prefix != [] {
      assert (prefix + [c] + rest)[1..] == prefix[1..] + [c] + rest;
      IndexOfAfter(prefix[1..], c, rest);
    }
  }

  // ----- decimal numbers

  function Digit(d: nat): (c: char)
    requires d < 10
    ensures '0' <= c <= '9' && c as int == '0' as int + d
  {
    ('0' as int + d) as char
  }

  predicate IsDigit(c: char) {
    '0' <= c <= '9'
  }

  /** Python's `str(n)` for a natural number. */
  function Decimal(n: nat): (s: string)
    ensures s != []
    ensures forall c :: c in s ==> IsDigit(c)
  {
    if n < 10 then [Digit(n)] else Decimal(n / 10) + [Digit(n % 10)]
  }

  const MAX_INT_DIGITS := 4300

  /** Digits with single underscores between them, as Python's `int` accepts them. */
  predicate DigitGroups(s: string) {
    && s != [] && IsDigit(s[0]) && IsDigit(s[|s| - 1])
    && (forall k :: 0 <= k < |s| ==> IsDigit(s[k]) || s[k] == '_')
    && (forall k :: 0 <= k < |s| - 1 ==> s[k] == '_' ==> s[k + 1] != '_')
  }

  function DigitCount(s: string): (n: nat)
    ensures n <= |s|
  {
    if s == [] then 0 else DigitCount(s[..|s| - 1]) + if IsDigit(s[|s| - 1]) then 1 else 0
  }

  function DigitsValue(s: string): int {
    if s == [] then 0
    else
      var c := s[|s| - 1];
      var rest := DigitsValue(s[..|s| - 1]);
      if IsDigit(c) then 10 * rest + (c as int - '0' as int) else rest
  }

  /** Python's `int(text)`; None stands for ValueError. */
  function ParseInt(text: string): (r: Option<int>)
  {
    var t := Strip(text);
    var signed := t != [] && (t[0] == '+' || t[0] == '-');
    var body := if signed then t[1..] else t;
    if !DigitGroups(body) || DigitCount(body) > MAX_INT_DIGITS then None
    else if signed && t[0] == '-' then Some(-DigitsValue(body))
    else Some(DigitsValue(body))
  }

  lemma {:induction false} DecimalValue(n: nat)
    ensures DigitsValue(Decimal(n)) == n
  {
    if n < 10 {
      assert Decimal(n)[..0] == [];
    } else {
      DecimalValue(n / 10);
      assert Decimal(n)[..|Decimal(n)| - 1] == Decimal(n / 10);
    }
  }

  lemma {:induction false} DecimalLength(n: nat)
    requires n < 10_000_000
    ensures |Decimal(n)| <= 7
  {
    DecimalLengthBound(n, 1, 10_000_000);
  }

  lemma {:induction false} DecimalLengthBound(n: nat, used: nat, bound: nat)
    requires used <= 7
    requires bound == [1, 10_000_000, 1_000_000, 100_000, 10_000, 1_000, 100, 10][used]
    requires used >= 1 && n < bound
    ensures |Decimal(n)| + used <= 8
    decreases 7 - used
  {
    if n >= 10 {
      DecimalLengthBound(n / 10, used + 1, bound / 10);
    }
  }

  lemma DigitsAreGroups(s: string)
    requires s != [] && forall k :: 0 <= k < |s| ==> IsDigit(s[k])
    ensures DigitGroups(s) && Strip(s) == s && s[0] != '+' && s[0] != '-'
  {
    StripTrimmed(s);
  }

  /** `int(str(n)) == n`: a decimal number survives the trip through a field value. */
  lemma {:induction false} ParseDecimal(n: nat)
    requires |Decimal(n)| <= MAX_INT_DIGITS
    ensures ParseInt(Decimal(n)) == Some(n)
  {
    var s := Decimal(n);
    assert forall k :: 0 <= k < |s| ==> s[k] in s;
    DigitsAreGroups(s);
    DecimalValue(n);
  }
}
