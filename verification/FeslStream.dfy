/**
 FESL frames and the incremental stream decoder (server/carbon/fesl/frame.py): a
 four-byte command, a big-endian transaction word, a big-endian total length, a payload.
 */
module FeslStream {
  import opened Collections
  import opened Options
  import opened LatinText
  import opened Words

  datatype Frame = Frame(command: string, transaction: int, payload: string)

  const HEADER_SIZE := 12
  predicate ValidCommand(command: string) {
    |command| == 4 && forall k :: 0 <= k < 4 ==> 0x20 <= command[k] as int <= 0x7E
  }

  /** None stands for the errors of an invalid command or an unpackable length. */
  function EncodeFrame(f: Frame): (r: Option<string>)
  {
    if !ValidCommand(f.command) || HEADER_SIZE + |f.payload| >= WORD then None
    else Some(f.command + PackWord(f.transaction % WORD) + PackWord(HEADER_SIZE + |f.payload|) + f.payload)
  }

  datatype Decoded =
    | Incomplete
    | Invalid
    | Complete(frame: Frame, consumed: nat)

  function DecodeOne(view: string, maxFrameSize: int): (r: Decoded)
    ensures r.Complete? ==> HEADER_SIZE <= r.consumed <= |view|
  {
    if |view| < HEADER_SIZE then Incomplete
    else if !ValidCommand(view[..4]) then Invalid
    else
      var total := UnpackWord(view[8..12]);
      if total < HEADER_SIZE then Invalid
      else if total > maxFrameSize then Invalid
      else if |view| < total then Incomplete
      else Complete(Frame(view[..4], UnpackWord(view[4..8]), view[HEADER_SIZE..total]), total)
  }

  /** What a run of the decoding loop leaves: frames, unread bytes, and whether no frame was invalid. */
  datatype Progress = Progress(frames: seq<Frame>, rest: string, ok: bool)

  function Drain(buffer: string, maxFrameSize: int): Progress
    decreases |buffer|
  {
    if buffer == [] then Progress([], [], true)
    else
      match DecodeOne(buffer, maxFrameSize)
      case Incomplete => Progress([], buffer, true)
      case Invalid => Progress([], buffer, false)
      case Complete(frame, consumed) =>
        Prepend([frame], Drain(buffer[consumed..], maxFrameSize))
  }

  function Prepend(frames: seq<Frame>, p: Progress): Progress {
    Progress(frames + p.frames, p.rest, p.ok)
  }

  lemma PrependTwice(a: seq<Frame>, b: seq<Frame>, p: Progress)
    ensures Prepend(a, Prepend(b, p)) == Prepend(a + b, p)
  {
    assert a + (b + p.frames) == (a + b) + p.frames;
  }

  class FESLStreamDecoder {
    const maxFrameSize: int
    var buffer: string

    constructor (maxFrameSize: int)
      ensures buffer == [] && this.maxFrameSize == maxFrameSize
    {
      this.maxFrameSize := maxFrameSize;
      buffer := [];
    }

    /** `ok` is false when the source raises FESLFrameError and loses the frames of this call. */
    method Feed(data: string) returns (frames: seq<Frame>, ok: bool)
      modifies this
      ensures Progress(frames, buffer, ok) == Drain(old(buffer) + data, maxFrameSize)
    {
      buffer := buffer + data;
      ghost var all := buffer;
      frames, ok := [], true;
      while buffer != []
        invariant ok
        invariant Prepend(frames, Drain(buffer, maxFrameSize)) == Drain(all, maxFrameSize)
        decreases |buffer|
      {
        match DecodeOne(buffer, maxFrameSize)
        case Incomplete =>
          break;
        case Invalid =>
          ok := false;
          return;
        case Complete(frame, consumed) =>
          PrependTwice(frames, [frame], Drain(buffer[consumed..], maxFrameSize));
          buffer := buffer[consumed..];
          frames := frames + [frame];
      }
    }
  }

  // ----- independence of the way a stream is cut

  /** A run of `Feed` calls, one a chunk, that stops at the first error. */
  function FeedAll(buffer: string, chunks: seq<string>, maxFrameSize: int): Progress
    decreases |chunks|
  {
    if chunks == [] then Progress([], buffer, true)
    else
      var p := Drain(buffer + chunks[0], maxFrameSize);
      if !p.ok then p
      else
        Prepend(p.frames, FeedAll(p.rest, chunks[1..], maxFrameSize))
  }

  /** More bytes never change a decision already made on a prefix. */
  lemma DecodeOneExtends(view: string, more: string, maxFrameSize: int)
    requires !DecodeOne(view, maxFrameSize).Incomplete?
    ensures DecodeOne(view + more, maxFrameSize) == DecodeOne(view, maxFrameSize)
  {
    var longer := view + more;
    assert longer[..4] == view[..4] && longer[4..8] == view[4..8] && longer[8..12] == view[8..12];
    match DecodeOne(view, maxFrameSize)
    case Complete(_, total) => assert longer[HEADER_SIZE..total] == view[HEADER_SIZE..total];
    case Invalid =>
  }

  lemma {:induction false} DrainExtends(buffer: string, more: string, maxFrameSize: int)
    ensures var p := Drain(buffer, maxFrameSize);
      var q := Drain(buffer + more, maxFrameSize);
      if p.ok then q == Prepend(p.frames, Drain(p.rest + more, maxFrameSize))
      else !q.ok && q.frames == p.frames
    decreases |buffer|
  {
    if buffer == [] {
      assert buffer + more == more;
    } else if !DecodeOne(buffer, maxFrameSize).Incomplete? {
      DecodeOneExtends(buffer, more, maxFrameSize);
      match DecodeOne(buffer, maxFrameSize)
      case Invalid =>
      case Complete(frame, consumed) =>
        var tail := buffer[consumed..];
        assert (buffer + more)[consumed..] == tail + more;
        DrainExtends(tail, more, maxFrameSize);
        var p := Drain(tail, maxFrameSize);
        if p.ok {
          PrependTwice([frame], p.frames, Drain(p.rest + more, maxFrameSize));
        }
    }
  }

  /** What a drained buffer leaves holds no complete frame. */
  lemma {:induction false} DrainIsDone(buffer: string, maxFrameSize: int)
    ensures var p := Drain(buffer, maxFrameSize);
      p.ok ==> Drain(p.rest, maxFrameSize) == Progress([], p.rest, true)
    decreases |buffer|
  {
    if buffer != [] && DecodeOne(buffer, maxFrameSize).Complete? {
      DrainIsDone(buffer[DecodeOne(buffer, maxFrameSize).consumed..], maxFrameSize);
    }
  }

  /**
   However TCP cuts a byte stream, feeding the pieces succeeds exactly when decoding the
   whole stream at once does, decodes the same frames, and leaves the same bytes over.
   */
  lemma {:induction false} ChunkingIsIrrelevant(buffer: string, chunks: seq<string>, maxFrameSize: int)
    requires Drain(buffer, maxFrameSize) == Progress([], buffer, true)
    ensures var pieces := FeedAll(buffer, chunks, maxFrameSize);
      var whole := Drain(buffer + Flatten(chunks), maxFrameSize);
      pieces.ok == whole.ok && pieces.frames == whole.frames && (whole.ok ==> pieces.rest == whole.rest)
    decreases |chunks|
  {
    if chunks == [] {
      assert buffer + [] == buffer;
    } else {
      var first := buffer + chunks[0];
      var later := Flatten(chunks[1..]);
      assert buffer + Flatten(chunks) == first + later;
      DrainExtends(first, later, maxFrameSize);
      DrainIsDone(first, maxFrameSize);
      var p := Drain(first, maxFrameSize);
      if p.ok {
        ChunkingIsIrrelevant(p.rest, chunks[1..], maxFrameSize);
      }
    }
  }

  // ----- what a caller receives

  /** The frames that the calls return; the call that meets the error raises and returns none. */
  function Returned(buffer: string, chunks: seq<string>, maxFrameSize: int): seq<Frame>
    decreases |chunks|
  {
    if chunks == [] then []
    else
      var p := Drain(buffer + chunks[0], maxFrameSize);
      if p.ok then p.frames + Returned(p.rest, chunks[1..], maxFrameSize) else []
  }

  /** A caller receives a beginning of the decoded frames, and all of them when the stream is valid. */
  lemma {:induction false} ReturnedIsBeginning(buffer: string, chunks: seq<string>, maxFrameSize: int)
    ensures Returned(buffer, chunks, maxFrameSize) <= FeedAll(buffer, chunks, maxFrameSize).frames
    ensures FeedAll(buffer, chunks, maxFrameSize).ok ==>
      Returned(buffer, chunks, maxFrameSize) == FeedAll(buffer, chunks, maxFrameSize).frames
    decreases |chunks|
  {
    if chunks != [] {
      var p := Drain(buffer + chunks[0], maxFrameSize);
      if p.ok {
        ReturnedIsBeginning(p.rest, chunks[1..], maxFrameSize);
      }
    }
  }

  lemma LastByteCompletes(buffer: string, c: char, maxFrameSize: int)
    requires buffer == [] || DecodeOne(buffer, maxFrameSize).Incomplete?
    requires DecodeOne(buffer + [c], maxFrameSize).Complete?
    ensures DecodeOne(buffer + [c], maxFrameSize).consumed == |buffer| + 1
  {
    var longer := buffer + [c];
    assert |buffer| >= HEADER_SIZE ==> longer[..4] == buffer[..4] && longer[8..12] == buffer[8..12];
  }

  /** One byte more cannot both finish a frame and meet an error. */
  lemma OneByteMore(buffer: string, c: char, maxFrameSize: int)
    requires Drain(buffer, maxFrameSize) == Progress([], buffer, true)
    ensures var p := Drain(buffer + [c], maxFrameSize); p.ok || p.frames == []
  {
    var longer := buffer + [c];
    if DecodeOne(longer, maxFrameSize).Complete? {
      LastByteCompletes(buffer, c, maxFrameSize);
      assert longer[|longer|..] == [];
    }
  }

  /** Byte by byte a caller receives every decoded frame. */
  lemma {:induction false} BytesReturnAll(buffer: string, text: string, maxFrameSize: int)
    requires Drain(buffer, maxFrameSize) == Progress([], buffer, true)
    ensures Returned(buffer, Bytes(text), maxFrameSize) == Drain(buffer + text, maxFrameSize).frames
    decreases |text|
  {
    if text == "" {
      assert buffer + text == buffer;
    } else {
      var (c, rest) := (text[0], text[1..]);
      assert buffer + text == (buffer + [c]) + rest;
      assert Bytes(text)[1..] == Bytes(rest);
      DrainExtends(buffer + [c], rest, maxFrameSize);
      DrainIsDone(buffer + [c], maxFrameSize);
      var p := Drain(buffer + [c], maxFrameSize);
      if p.ok {
        BytesReturnAll(p.rest, rest, maxFrameSize);
      } else {
        OneByteMore(buffer, c, maxFrameSize);
      }
    }
  }

  ghost predicate CuttingsReturnAlike(stream: string, maxFrameSize: int) {
    forall a, b :: Flatten(a) == stream && Flatten(b) == stream ==>
      Returned([], a, maxFrameSize) == Returned([], b, maxFrameSize)
  }

  /**
   What a caller receives does not depend on the cutting if and only if the stream is valid or
   invalid from its first frame.
   */
  lemma ReturnedAlikeIff(stream: string, maxFrameSize: int)
    ensures CuttingsReturnAlike(stream, maxFrameSize) <==>
      Drain(stream, maxFrameSize).ok || Drain(stream, maxFrameSize).frames == []
  {
    var whole := Drain(stream, maxFrameSize);
    assert [] + stream == stream && [stream][1..] == [] && Flatten([stream]) == stream + Flatten([]);
    BytesReturnAll([], stream, maxFrameSize);
    FlattenBytes(stream);
    assert Returned([], [stream], maxFrameSize) == if whole.ok then whole.frames + [] else [];
    forall a | Flatten(a) == stream ensures Returned([], a, maxFrameSize) <= whole.frames
      && (whole.ok ==> Returned([], a, maxFrameSize) == whole.frames)
    {
      ChunkingIsIrrelevant([], a, maxFrameSize);
      ReturnedIsBeginning([], a, maxFrameSize);
    }
    if !whole.ok && whole.frames != [] {
      assert Returned([], Bytes(stream), maxFrameSize) != Returned([], [stream], maxFrameSize);
    }
  }

  // ----- encoding and decoding

  predicate Encodable(f: Frame, maxFrameSize: int) {
    ValidCommand(f.command) && HEADER_SIZE + |f.payload| < WORD && HEADER_SIZE + |f.payload| <= maxFrameSize
  }

  /** The transaction travels as a 32-bit word. */
  function OnTheWire(f: Frame): Frame {
    f.(transaction := f.transaction % WORD)
  }

  function EncodeFrames(frames: seq<Frame>): string {
    if frames == [] then []
    else
      match EncodeFrame(frames[0])
      case None => EncodeFrames(frames[1..])
      case Some(bytes) => bytes + EncodeFrames(frames[1..])
  }

  lemma DecodeOneEncoded(f: Frame, more: string, maxFrameSize: int)
    requires Encodable(f, maxFrameSize)
    ensures EncodeFrame(f).Some?
    ensures DecodeOne(EncodeFrame(f).value + more, maxFrameSize) == Complete(OnTheWire(f), HEADER_SIZE + |f.payload|)
  {
    var total := HEADER_SIZE + |f.payload|;
    var view := EncodeFrame(f).value + more;
    assert view == f.command + PackWord(f.transaction % WORD) + PackWord(total) + f.payload + more;
    assert view[..4] == f.command;
    assert view[4..8] == PackWord(f.transaction % WORD);
    assert view[8..12] == PackWord(total);
    assert view[12..total] == f.payload;
    UnpackPackWord(f.transaction % WORD);
    UnpackPackWord(total);
  }

  lemma {:induction false} DrainEncoded(frames: seq<Frame>, maxFrameSize: int)
    requires forall f :: f in frames ==> Encodable(f, maxFrameSize)
    ensures Drain(EncodeFrames(frames), maxFrameSize)
      == Progress(seq(|frames|, i requires 0 <= i < |frames| => OnTheWire(frames[i])), [], true)
    decreases |frames|
  {
    if frames != [] {
      assert frames[0] in frames;
      var rest := EncodeFrames(frames[1..]);
      DecodeOneEncoded(frames[0], rest, maxFrameSize);
      DrainEncoded(frames[1..], maxFrameSize);
      assert EncodeFrames(frames)[HEADER_SIZE + |frames[0].payload|..] == rest;
    }
  }

  /** Encoded frames come back, all of them and in order, however the stream was cut. */
  lemma StreamRoundTrip(frames: seq<Frame>, chunks: seq<string>, maxFrameSize: int)
    requires forall f :: f in frames ==> Encodable(f, maxFrameSize)
    requires Flatten(chunks) == EncodeFrames(frames)
    ensures FeedAll([], chunks, maxFrameSize)
      == Progress(seq(|frames|, i requires 0 <= i < |frames| => OnTheWire(frames[i])), [], true)
  {
    DrainEncoded(frames, maxFrameSize);
    assert [] + Flatten(chunks) == EncodeFrames(frames);
    ChunkingIsIrrelevant([], chunks, maxFrameSize);
  }
}
