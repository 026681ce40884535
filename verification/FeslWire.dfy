/** The bytes of FESL frames and fragments (server/carbon/fesl/frame.py, packetization.py). */
module FeslWire {
  import opened Options
  import opened LatinText
  import opened Words
  import opened FeslStream
  import opened FeslReassembly

  /** The value of four bytes, the first of them the highest. */
  function BigEndian(bytes: string): nat
    requires |bytes| == 4
  {
    bytes[0] as int * 0x100_0000 + bytes[1] as int * 0x1_0000 + bytes[2] as int * 0x100 + bytes[3] as int
  }

  predicate Printable(command: string) {
    |command| == 4 && forall k :: 0 <= k < 4 ==> ' ' <= command[k] <= '~'
  }

  lemma UnpackIs(bytes: string)
    requires |bytes| == 4
    ensures UnpackWord(bytes) == BigEndian(bytes)
  {
  }

  /**
   A frame has bytes exactly when its command is printable and its length fits a word: command,
   transaction, length, payload.
   */
  lemma FrameLayout(f: Frame)
    ensures EncodeFrame(f).Some? <==> Printable(f.command) && 12 + |f.payload| < 0x1_0000_0000
    ensures EncodeFrame(f).Some? ==>
      var bytes := EncodeFrame(f).value;
      && |bytes| == 12 + |f.payload| && bytes[..4] == f.command && bytes[12..] == f.payload
      && BigEndian(bytes[4..8]) == f.transaction % 0x1_0000_0000 && BigEndian(bytes[8..12]) == |bytes|
  {
    if EncodeFrame(f).Some? {
      var bytes := EncodeFrame(f).value;
      var (word, total) := (f.transaction % WORD, 12 + |f.payload|);
      assert bytes[4..8] == PackWord(word) && bytes[8..12] == PackWord(total);
      UnpackPackWord(word);
      UnpackPackWord(total);
      UnpackIs(bytes[4..8]);
      UnpackIs(bytes[8..12]);
    }
  }

  /** What the first bytes of a buffer say: a frame, an error, or not enough yet. */
  lemma HeaderSays(view: string, maxFrameSize: int)
    ensures |view| < 12 ==> DecodeOne(view, maxFrameSize) == Incomplete
    ensures |view| >= 12 ==>
      var total := BigEndian(view[8..12]);
      var sound := Printable(view[..4]) && 12 <= total <= maxFrameSize;
      && (DecodeOne(view, maxFrameSize) == Invalid <==> !sound)
      && (DecodeOne(view, maxFrameSize) == Incomplete <==> sound && |view| < total)
      && (sound && |view| >= total ==>
            DecodeOne(view, maxFrameSize) == Complete(Frame(view[..4], BigEndian(view[4..8]), view[12..total]), total))
  {
    if |view| >= 12 {
      UnpackIs(view[4..8]);
      UnpackIs(view[8..12]);
      assert ValidCommand(view[..4]) <==> Printable(view[..4]);
    }
  }

  // ----- fragments

  /** All slices are full but the last, which is not empty. */
  lemma {:induction false} SlicesAreFull(encoded: string, limit: nat, k: nat)
    requires limit > 0 && k < |Slices(encoded, limit)|
    ensures var slices := Slices(encoded, limit);
      if k < |slices| - 1 then |slices[k]| == limit else 0 < |slices[k]| <= limit
    decreases |encoded|
  {
    if |encoded| > limit && k > 0 {
      SlicesAreFull(encoded[limit..], limit, k - 1);
    } else if |encoded| > limit {
      assert Slices(encoded[limit..], limit) != [];
    }
  }

  /**
   A frame is sent as it is up to the limit and otherwise in fragments of its encoded text, all
   of the same command and marked transaction, each full but the last; a limit that is not
   positive is refused.
   */
  lemma PacketsIff(f: Frame, limit: int)
    requires IsBytes(f.payload)
    ensures PacketizeFrame(f, limit).None? <==> limit <= 0
    ensures limit > 0 && |f.payload| <= limit ==> PacketizeFrame(f, limit) == Some([f])
    ensures limit > 0 && |f.payload| > limit ==>
      var packets := PacketizeFrame(f, limit).value;
      var slices := Slices(Encoded(f), limit);
      && |packets| == |slices|
      && forall k :: 0 <= k < |packets| ==>
           && packets[k].command == f.command && packets[k].transaction == f.transaction % 0x1000_0000 + 0xB000_0000
           && packets[k].payload == FragmentBody(
                Decimal(|Logical(f.payload)|), Decimal(|Encoded(f)|), EscapePadding(slices[k]))
           && (if k < |packets| - 1 then |slices[k]| == limit else 0 < |slices[k]| <= limit)
  {
    if limit > 0 && |f.payload| > limit {
      forall k | 0 <= k < |Slices(Encoded(f), limit)|
        ensures if k < |Slices(Encoded(f), limit)| - 1 then |Slices(Encoded(f), limit)[k]| == limit
                else 0 < |Slices(Encoded(f), limit)[k]| <= limit
      {
        SlicesAreFull(Encoded(f), limit, k);
      }
    }
  }
}
