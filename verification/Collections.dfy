/** Facts about sets and sequences that several components share. */
module Collections {
  lemma {:induction false} SubsetSize<T>(a: set<T>, b: set<T>)
    requires a <= b
    ensures |a| <= |b|
    decreases |a|
  {
    if a != {} {
      var x :| x in a;
      SubsetSize(a - {x}, b - {x});
    }
  }

  function Flatten(chunks: seq<string>): string {
    if chunks == [] then "" else chunks[0] + Flatten(chunks[1..])
  }

  lemma {:induction false} FlattenPlus(a: seq<string>, b: seq<string>)
    ensures Flatten(a + b) == Flatten(a) + Flatten(b)
  {
    if a == [] {
      assert a + b == b;
    } else {
      assert (a + b)[1..] == a[1..] + b;
      FlattenPlus(a[1..], b);
    }
  }

  /** A text cut into single characters. */
  function Bytes(text: string): seq<string> {
    if text == "" then [] else [[text[0]]] + Bytes(text[1..])
  }

  lemma {:induction false} FlattenBytes(text: string)
    ensures Flatten(Bytes(text)) == text
  {
    if text != "" {
      FlattenBytes(text[1..]);
      assert Bytes(text)[1..] == Bytes(text[1..]);
      assert text == [text[0]] + text[1..];
    }
  }

  /** The first occurrences, in order. */
  function Deduplicated<T(==, !new)>(s: seq<T>): (r: seq<T>)
    ensures forall x :: x in r <==> x in s
    ensures forall i, j :: 0 <= i < j < |r| ==> r[i] != r[j]
  {
    if s == [] then []
    else
      var init := Deduplicated(s[..|s| - 1]);
      if s[|s| - 1] in init then init else init + [s[|s| - 1]]
  }

  /** More elements behind only add to the end: what is kept stands in the order of first occurrence. */
  lemma {:induction false} DeduplicatedAppends<T(!new)>(s: seq<T>, k: nat)
    requires k <= |s|
    ensures Deduplicated(s[..k]) <= Deduplicated(s)
    decreases |s|
  {
    if k == |s| {
      assert s[..k] == s;
    } else {
      var init := s[..|s| - 1];
      assert init[..k] == s[..k];
      DeduplicatedAppends(init, k);
    }
  }
}
