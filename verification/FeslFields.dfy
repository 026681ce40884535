/** The `key=value` body of a FESL frame (server/carbon/fesl/frame.py). */
module FeslFields {
  import opened LatinText

  type Fields = map<string, string>
  type FieldList = seq<(string, string)>

  const NUL: char := 0 as char

  predicate IsBreak(c: char) {
    c == '\n' || c == '\r' || c == '\t'
  }

  function FirstBreak(s: string): (i: nat)
    ensures i <= |s|
    ensures forall k :: 0 <= k < i ==> !IsBreak(s[k])
    ensures i < |s| ==> IsBreak(s[i])
  {
    if s == [] || IsBreak(s[0]) then 0 else 1 + FirstBreak(s[1..])
  }

  /** The text cut at every line break, tab or carriage return. */
  function SplitLines(s: string): (lines: seq<string>)
    ensures lines != []
    decreases |s|
  {
    var i := FirstBreak(s);
    if i == |s| then [s] else [s[..i]] + SplitLines(s[i + 1..])
  }

  function StripTrailingNul(s: string): (r: string)
    ensures |r| <= |s| && r == s[..|r|]
  {
    if s != [] && s[|s| - 1] == NUL then StripTrailingNul(s[..|s| - 1]) else s
  }

  /** One line added to the dictionary; a later line for a key replaces an earlier one. */
  function AddLine(fields: Fields, raw: string): Fields {
    var line := Strip(raw);
    var cut := IndexOf(line, '=');
    if cut == |line| then fields
    else fields[Strip(line[..cut]) := Strip(line[cut + 1..])]
  }

  function AddLines(fields: Fields, lines: seq<string>): Fields
    decreases |lines|
  {
    if lines == [] then fields else AddLines(AddLine(fields, lines[0]), lines[1..])
  }

  function DecodeFields(payload: string): Fields {
    AddLines(map[], SplitLines(StripTrailingNul(payload)))
  }

  method ReadFields(payload: string) returns (fields: Fields)
    ensures fields == DecodeFields(payload)
  {
    var lines := SplitLines(StripTrailingNul(payload));
    fields := map[];
    for i := 0 to |lines|
      invariant AddLines(fields, lines[i..]) == DecodeFields(payload)
    {
      assert lines[i..][0] == lines[i] && lines[i..][1..] == lines[i + 1..];
      ghost var next := AddLine(fields, lines[i]);
      var line := Strip(lines[i]);
      var cut := IndexOf(line, '=');
      if cut < |line| {
        fields := fields[Strip(line[..cut]) := Strip(line[cut + 1..])];
      }
      assert fields == next;
    }
  }

  function FieldLines(fields: FieldList): string {
    if fields == [] then [] else fields[0].0 + "=" + fields[0].1 + "\n" + FieldLines(fields[1..])
  }

  /** Every non-empty list ends in a line feed and a NUL; an empty one is a lone NUL. */
  function EncodeFields(fields: FieldList): string {
    FieldLines(fields) + [NUL]
  }

  /** The dictionary that a list of assignments leaves behind. */
  function Assign(fields: Fields, list: FieldList): Fields
    decreases |list|
  {
    if list == [] then fields else Assign(fields[list[0].0 := list[0].1], list[1..])
  }

  predicate CleanField(key: string, value: string) {
    && Trimmed(key) && Trimmed(value) && '=' !in key
    && FirstBreak(key) == |key| && FirstBreak(value) == |value|
  }

  lemma {:induction false} SplitAfterLine(line: string, rest: string)
    requires FirstBreak(line) == |line|
    ensures SplitLines(line + "\n" + rest) == [line] + SplitLines(rest)
  {
    var s := line + "\n" + rest;
    FirstBreakAfter(line, rest);
    assert s[..|line|] == line;
    assert s[|line| + 1..] == rest;
  }

  lemma {:induction false} FirstBreakAfter(line: string, rest: string)
    requires FirstBreak(line) == |line|
    ensures FirstBreak(line + "\n" + rest) == |line|
  {
    if line != [] {
      assert (line + "\n" + rest)[1..] == line[1..] + "\n" + rest;
      FirstBreakAfter(line[1..], rest);
    }
  }

  lemma {:induction false} FirstBreakJoin(a: string, b: string)
    requires FirstBreak(a) == |a| && FirstBreak(b) == |b|
    ensures FirstBreak(a + b) == |a + b|
  {
    if a == [] {
      assert a + b == b;
    } else {
      assert (a + b)[1..] == a[1..] + b;
      FirstBreakJoin(a[1..], b);
    }
  }

  lemma {:induction false} AddCleanLine(fields: Fields, key: string, value: string)
    requires CleanField(key, value)
    ensures AddLine(fields, key + "=" + value) == fields[key := value]
    ensures FirstBreak(key + "=" + value) == |key + "=" + value|
  {
    CutCleanLine(key, value);
    FirstBreakJoin("=", value);
    FirstBreakJoin(key, "=" + value);
    assert key + "=" + value == key + ("=" + value);
  }

  lemma CutCleanLine(key: string, value: string)
    requires CleanField(key, value)
    ensures var line := key + "=" + value;
      Strip(line) == line && IndexOf(line, '=') == |key| && |key| < |line|
      && Strip(line[..|key|]) == key && Strip(line[|key| + 1..]) == value
  {
    var line := key + "=" + value;
    StripTrimmed(line);
    IndexOfAfter(key, '=', value);
    assert line[..|key|] == key && line[|key| + 1..] == value;
    StripTrimmed(key);
    StripTrimmed(value);
  }

  lemma {:induction false} AddFieldLines(fields: Fields, list: FieldList)
    requires forall f :: f in list ==> CleanField(f.0, f.1)
    ensures AddLines(fields, SplitLines(FieldLines(list))) == Assign(fields, list)
    decreases |list|
  {
    if list == [] {
      assert SplitLines([]) == [[]];
      assert AddLines(fields, [[]]) == AddLines(AddLine(fields, []), []);
    } else {
      var (key, value) := list[0];
      assert list[0] in list;
      var line := key + "=" + value;
      var rest := FieldLines(list[1..]);
      AddCleanLine(fields, key, value);
      assert FieldLines(list) == line + "\n" + rest;
      SplitAfterLine(line, rest);
      assert ([line] + SplitLines(rest))[1..] == SplitLines(rest);
      AddFieldLines(fields[key := value], list[1..]);
    }
  }

  /** Reading an encoded list of clean fields gives exactly the assigned dictionary. */
  lemma {:induction false} DecodeEncodeFields(list: FieldList)
    requires forall f :: f in list ==> CleanField(f.0, f.1)
    ensures DecodeFields(EncodeFields(list)) == Assign(map[], list)
  {
    var lines := FieldLines(list);
    assert EncodeFields(list)[..|lines|] == lines;
    assert StripTrailingNul(lines) == lines by { FieldLinesEnd(list); }
    assert StripTrailingNul(EncodeFields(list)) == lines;
    AddFieldLines(map[], list);
  }

  lemma {:induction false} FieldLinesEnd(list: FieldList)
    ensures FieldLines(list) == [] || FieldLines(list)[|FieldLines(list)| - 1] == '\n'
    decreases |list|
  {
    if list != [] {
      FieldLinesEnd(list[1..]);
    }
  }

  /** A terminating NUL more or less does not change what a body says. */
  lemma DecodeIgnoresFinalNul(body: string)
    ensures DecodeFields(body + [NUL]) == DecodeFields(body)
  {
    assert (body + [NUL])[..|body|] == body;
  }
}
