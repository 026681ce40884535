/** Big-endian numbers in byte strings. */
module Words {
  import opened LatinText

  const WORD := 0x1_0000_0000

  function PackWord(n: nat): (s: string)
    requires n < WORD
    ensures |s| == 4 && IsBytes(s)
  {
    var (high, low) := (n / 0x1_0000, n % 0x1_0000);
    [(high / 256) as char, (high % 256) as char, (low / 256) as char, (low % 256) as char]
  }

  function UnpackWord(s: string): nat
    requires |s| == 4
  {
    (s[0] as int * 256 + s[1] as int) * 0x1_0000 + (s[2] as int * 256 + s[3] as int)
  }

  lemma UnpackPackWord(n: nat)
    requires n < WORD
    ensures UnpackWord(PackWord(n)) == n
  {
  }

  function UnpackShort(s: string): nat
    requires |s| == 2
  {
    s[0] as int * 256 + s[1] as int
  }
}
