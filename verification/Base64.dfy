/**
 The Base64 encoding of section 4 of RFC 4648, as Python's base64 module implements
 it: `b64encode`, and `b64decode` with validation.
 */
module Base64 {
  import opened Options
  import opened LatinText

  /** One character of the RFC's table, for a six-bit value. */
  function Symbol(d: nat): (c: char)
    requires d < 64
  {
    if d < 26 then ('A' as int + d) as char
    else if d < 52 then ('a' as int + (d - 26)) as char
    else if d < 62 then ('0' as int + (d - 52)) as char
    else if d == 62 then '+'
    else '/'
  }

  predicate IsSymbol(c: char) {
    'A' <= c <= 'Z' || 'a' <= c <= 'z' || '0' <= c <= '9' || c == '+' || c == '/'
  }

  function SymbolValue(c: char): (d: nat)
    requires IsSymbol(c)
    ensures d < 64
  {
    if 'A' <= c <= 'Z' then c as int - 'A' as int
    else if 'a' <= c <= 'z' then c as int - 'a' as int + 26
    else if '0' <= c <= '9' then c as int - '0' as int + 52
    else if c == '+' then 62
    else 63
  }

  lemma SymbolRoundTrip(d: nat)
    requires d < 64
    ensures IsSymbol(Symbol(d)) && SymbolValue(Symbol(d)) == d
  {
  }

  /** The four symbols for three bytes. */
  function Group(a: char, b: char, c: char): (s: string)
    requires a as int < 256 && b as int < 256 && c as int < 256
    ensures |s| == 4
  {
    var (x, y, z) := (a as int, b as int, c as int);
    [Symbol(x / 4), Symbol(x % 4 * 16 + y / 16), Symbol(y % 16 * 4 + z / 64), Symbol(z % 64)]
  }

  function Encode(s: string): (t: string)
    requires IsBytes(s)
  {
    if |s| == 0 then []
    else if |s| == 1 then Group(s[0], 0 as char, 0 as char)[..2] + "=="
    else if |s| == 2 then Group(s[0], s[1], 0 as char)[..3] + "="
    else Group(s[0], s[1], s[2]) + Encode(s[3..])
  }

  function FirstByte(p: nat, q: nat): char
    requires p < 64 && q < 64
  {
    (p * 4 + q / 16) as char
  }

  function SecondByte(q: nat, r: nat): char
    requires q < 64 && r < 64
  {
    (q % 16 * 16 + r / 4) as char
  }

  function ThirdByte(r: nat, s: nat): char
    requires r < 64 && s < 64
  {
    (r % 4 * 64 + s) as char
  }

  /** Validating decode: None stands for binascii.Error. */
  function Decode(t: string): (r: Option<string>)
  {
    if t == [] then Some([])
    else if |t| < 4 || !IsSymbol(t[0]) || !IsSymbol(t[1]) then None
    else
      var (p, q) := (SymbolValue(t[0]), SymbolValue(t[1]));
      if |t| == 4 && t[2] == '=' && t[3] == '=' then Some([FirstByte(p, q)])
      else if !IsSymbol(t[2]) then None
      else
        var r := SymbolValue(t[2]);
        if |t| == 4 && t[3] == '=' then Some([FirstByte(p, q), SecondByte(q, r)])
        else if !IsSymbol(t[3]) then None
        else
          match Decode(t[4..])
          case None => None
          case Some(rest) =>
            Some([FirstByte(p, q), SecondByte(q, r), ThirdByte(r, SymbolValue(t[3]))] + rest)
  }

  /** Three bytes cut into four six-bit digits and put together again. */
  lemma DigitsRoundTrip(a: char, b: char, c: char)
    requires a as int < 256 && b as int < 256 && c as int < 256
    ensures var (x, y, z) := (a as int, b as int, c as int);
      && FirstByte(x / 4, x % 4 * 16 + y / 16) == a
      && SecondByte(x % 4 * 16 + y / 16, y % 16 * 4 + z / 64) == b
      && ThirdByte(y % 16 * 4 + z / 64, z % 64) == c
  {
  }

  lemma GroupRoundTrip(a: char, b: char, c: char)
    requires a as int < 256 && b as int < 256 && c as int < 256
    ensures forall k :: 0 <= k < 4 ==> IsSymbol(Group(a, b, c)[k])
    ensures FirstByte(SymbolValue(Group(a, b, c)[0]), SymbolValue(Group(a, b, c)[1])) == a
    ensures SecondByte(SymbolValue(Group(a, b, c)[1]), SymbolValue(Group(a, b, c)[2])) == b
    ensures ThirdByte(SymbolValue(Group(a, b, c)[2]), SymbolValue(Group(a, b, c)[3])) == c
  {
    var (x, y, z) := (a as int, b as int, c as int);
    DigitsRoundTrip(a, b, c);
    SymbolRoundTrip(x / 4);
    SymbolRoundTrip(x % 4 * 16 + y / 16);
    SymbolRoundTrip(y % 16 * 4 + z / 64);
    SymbolRoundTrip(z % 64);
    var g := Group(a, b, c);
    assert g[0] == Symbol(x / 4) && g[1] == Symbol(x % 4 * 16 + y / 16);
    assert g[2] == Symbol(y % 16 * 4 + z / 64) && g[3] == Symbol(z % 64);
  }

  /** A text of more than one group decodes group by group. */
  lemma DecodeGroup(t: string, a: char, b: char, c: char, rest: string)
    requires a as int < 256 && b as int < 256 && c as int < 256
    requires t == Group(a, b, c) + rest && Decode(rest).Some?
    ensures Decode(t) == Some([a, b, c] + Decode(rest).value)
  {
    GroupRoundTrip(a, b, c);
    var g := Group(a, b, c);
    assert t[0] == g[0] && t[1] == g[1] && t[2] == g[2] && t[3] == g[3] && t[4..] == rest;
  }

  lemma DecodeOneByte(a: char)
    requires a as int < 256
    ensures Decode(Encode([a])) == Some([a])
  {
    var g := Group(a, 0 as char, 0 as char);
    GroupRoundTrip(a, 0 as char, 0 as char);
    DecodeOnePadded(g[..2] + "==", g);
  }

  lemma DecodeOnePadded(t: string, g: string)
    requires |g| == 4 && t == g[..2] + "==" && IsSymbol(g[0]) && IsSymbol(g[1])
    ensures Decode(t) == Some([FirstByte(SymbolValue(g[0]), SymbolValue(g[1]))])
  {
    assert t[0] == g[0] && t[1] == g[1] && t[2] == '=' && t[3] == '=';
  }

  lemma DecodeTwoBytes(a: char, b: char)
    requires a as int < 256 && b as int < 256
    ensures Decode(Encode([a, b])) == Some([a, b])
  {
    var g := Group(a, b, 0 as char);
    GroupRoundTrip(a, b, 0 as char);
    DecodeTwoPadded(g[..3] + "=", g);
  }

  lemma DecodeTwoPadded(t: string, g: string)
    requires |g| == 4 && t == g[..3] + "=" && IsSymbol(g[0]) && IsSymbol(g[1]) && IsSymbol(g[2])
    ensures Decode(t)
      == Some([FirstByte(SymbolValue(g[0]), SymbolValue(g[1])), SecondByte(SymbolValue(g[1]), SymbolValue(g[2]))])
  {
    assert t[0] == g[0] && t[1] == g[1] && t[2] == g[2] && t[3] == '=';
  }

  lemma EncodeMore(s: string)
    requires IsBytes(s) && |s| >= 3
    ensures |Encode(s)| == 4 + |Encode(s[3..])|
    ensures Encode(s)[..4] == Group(s[0], s[1], s[2]) && Encode(s)[4..] == Encode(s[3..])
  {
  }

  /** Decoding an encoding gives the bytes back, for every byte string. */
  lemma {:induction false} DecodeEncode(s: string)
    requires IsBytes(s)
    ensures Decode(Encode(s)) == Some(s)
  {
    if |s| == 1 {
      assert s == [s[0]];
      DecodeOneByte(s[0]);
    } else if |s| == 2 {
      assert s == [s[0], s[1]];
      DecodeTwoBytes(s[0], s[1]);
    } else if |s| >= 3 {
      DecodeEncode(s[3..]);
      DecodeMore(s);
    }
  }

  lemma DecodeMore(s: string)
    requires IsBytes(s) && |s| >= 3 && Decode(Encode(s[3..])) == Some(s[3..])
    ensures Decode(Encode(s)) == Some(s)
  {
    var e := Encode(s[3..]);
    assert Encode(s) == Group(s[0], s[1], s[2]) + e;
    DecodeGroup(Group(s[0], s[1], s[2]) + e, s[0], s[1], s[2], e);
    assert s == [s[0], s[1], s[2]] + s[3..];
  }

  predicate Base64Text(s: string) {
    forall k :: 0 <= k < |s| ==> IsSymbol(s[k]) || s[k] == '='
  }

  lemma GroupText(a: char, b: char, c: char)
    requires a as int < 256 && b as int < 256 && c as int < 256
    ensures Base64Text(Group(a, b, c))
  {
    GroupRoundTrip(a, b, c);
  }

  lemma EncodeShort(s: string)
    requires IsBytes(s) && |s| < 3
    ensures |Encode(s)| == if s == [] then 0 else 4
  {
  }

  /** 4/3 of the bytes, rounded up to whole groups of four. */
  predicate EncodedLength(bytes: nat, symbols: nat) {
    4 * bytes <= 3 * symbols < 4 * bytes + 12 && symbols % 4 == 0
  }

  lemma OneGroupMore(bytes: nat, symbols: nat)
    requires EncodedLength(bytes, symbols)
    ensures EncodedLength(bytes + 3, symbols + 4)
  {
  }

  lemma {:induction false} EncodeLength(s: string)
    requires IsBytes(s)
    ensures EncodedLength(|s|, |Encode(s)|)
  {
    if |s| >= 3 {
      EncodeLength(s[3..]);
      EncodeMore(s);
      OneGroupMore(|s[3..]|, |Encode(s[3..])|);
    } else {
      EncodeShort(s);
    }
  }

  /** An encoding consists of symbols and padding only. */
  lemma {:induction false} EncodeText(s: string)
    requires IsBytes(s)
    ensures Base64Text(Encode(s))
  {
    if |s| == 1 {
      GroupText(s[0], 0 as char, 0 as char);
    } else if |s| == 2 {
      GroupText(s[0], s[1], 0 as char);
    } else if |s| >= 3 {
      GroupText(s[0], s[1], s[2]);
      EncodeText(s[3..]);
    }
  }
}
