/** Scanning for chunks of the 0x1e session object (server/carbon/gamemanager/session_object.py). */
module SessionObject {
  import opened Options
  import opened LatinText
  import opened Words

  const PREFIX: string := ['\0', '\0', '\0', '\0', 0x1E as char]
  const HEADER: nat := 23
  const SECOND: nat := 0x1E4
  const THIRD: nat := 0x3C8

  datatype Block = Block(objectId: nat, totalSize: nat, offset: nat, raw: string)

  /** A block together with where it was found. */
  datatype Found = Found(start: nat, end: nat, block: Block)

  predicate ChunkOffset(offset: nat) {
    offset == 0 || offset == SECOND || offset == THIRD
  }

  /** The complete chunk that begins at `start`, if there is one. */
  function ParseAt(body: string, start: nat): (r: Option<Found>)
    ensures r.Some? ==> r.value.start == start && start + HEADER < r.value.end <= |body|
  {
    if start + HEADER > |body| || body[start..start + 5] != PREFIX then None
    else
      var objectId := UnpackWord(body[start + 5..start + 9]);
      var totalSize := UnpackWord(body[start + 9..start + 13]);
      var offset := UnpackWord(body[start + 13..start + 17]);
      var maximum := UnpackWord(body[start + 17..start + 21]);
      var size := UnpackShort(body[start + 21..start + 23]);
      var end := start + HEADER + size;
      if objectId == 0 || totalSize == 0 || !ChunkOffset(offset) || maximum == 0 || size == 0 || size > maximum
         || offset >= totalSize || offset + size > totalSize || end > |body|
      then None
      else Some(Found(start, end, Block(objectId, totalSize, offset, body[start..end])))
  }

  predicate MarkerAt(body: string, p: nat) {
    p + 5 <= |body| && body[p..p + 5] == PREFIX
  }

  function FindMarker(body: string, start: nat): Option<nat>
    decreases |body| - start
  {
    if start + 5 > |body| then None
    else if body[start..start + 5] == PREFIX then Some(start)
    else FindMarker(body, start + 1)
  }

  /** The chunks from `cursor` on, each looked for after the end of the one before. */
  function Scan(body: string, cursor: nat): seq<Found>
    decreases |body| - cursor
  {
    match FindMarker(body, cursor)
    case None => []
    case Some(start) =>
      MarkerFound(body, cursor);
      match ParseAt(body, start)
      case None => Scan(body, start + 1)
      case Some(found) => [found] + Scan(body, found.end)
  }

  function Blocks(founds: seq<Found>): seq<Block> {
    if founds == [] then [] else [founds[0].block] + Blocks(founds[1..])
  }

  lemma {:induction false} MarkerFound(body: string, start: nat)
    ensures match FindMarker(body, start)
            case None => forall p: nat :: p >= start ==> !MarkerAt(body, p)
            case Some(m) => m >= start && MarkerAt(body, m) && forall p: nat :: start <= p < m ==> !MarkerAt(body, p)
    decreases |body| - start
  {
    if start + 5 <= |body| && body[start..start + 5] != PREFIX {
      MarkerFound(body, start + 1);
    }
  }

  // ----- any bytes at all

  /** Chunks in order, none overlapping, none before `cursor`. */
  ghost predicate Separate(founds: seq<Found>, cursor: nat) {
    && (forall i :: 0 <= i < |founds| ==> cursor <= founds[i].start < founds[i].end)
    && forall i, j :: 0 <= i < j < |founds| ==> founds[i].end <= founds[j].start
  }

  ghost predicate Covers(founds: seq<Found>, p: nat) {
    exists i :: 0 <= i < |founds| && founds[i].start <= p < founds[i].end
  }

  ghost predicate Greedy(body: string, cursor: nat, founds: seq<Found>) {
    && Separate(founds, cursor)
    && (forall i :: 0 <= i < |founds| ==> ParseAt(body, founds[i].start) == Some(founds[i]))
    && forall p: nat :: p >= cursor && ParseAt(body, p).Some? ==> Covers(founds, p)
  }

  lemma ParsedHasMarker(body: string, p: nat)
    requires ParseAt(body, p).Some?
    ensures MarkerAt(body, p)
  {
  }

  lemma GreedyNone(body: string, cursor: nat)
    requires FindMarker(body, cursor) == None
    ensures Greedy(body, cursor, [])
  {
    MarkerFound(body, cursor);
    forall p: nat | p >= cursor ensures ParseAt(body, p).None? {
      if ParseAt(body, p).Some? {
        ParsedHasMarker(body, p);
      }
    }
  }

  lemma GreedySkip(body: string, cursor: nat, start: nat, founds: seq<Found>)
    requires FindMarker(body, cursor) == Some(start) && ParseAt(body, start) == None && Greedy(body, start + 1, founds)
    ensures Greedy(body, cursor, founds)
  {
    MarkerFound(body, cursor);
    forall p: nat | p >= cursor && ParseAt(body, p).Some? ensures Covers(founds, p) {
      ParsedHasMarker(body, p);
    }
  }

  lemma CoversMore(found: Found, rest: seq<Found>, p: nat)
    requires found.start <= p < found.end || Covers(rest, p)
    ensures Covers([found] + rest, p)
  {
    var founds := [found] + rest;
    if found.start <= p < found.end {
      assert founds[0] == found;
    } else {
      var i :| 0 <= i < |rest| && rest[i].start <= p < rest[i].end;
      assert founds[i + 1] == rest[i];
    }
  }

  lemma SeparateMore(found: Found, rest: seq<Found>, cursor: nat)
    requires cursor <= found.start < found.end && Separate(rest, found.end)
    ensures Separate([found] + rest, cursor)
  {
  }

  lemma {:induction false} GreedyAfter(body: string, cursor: nat, found: Found, rest: seq<Found>)
    requires FindMarker(body, cursor) == Some(found.start) && ParseAt(body, found.start) == Some(found)
    requires Greedy(body, found.end, rest)
    ensures Greedy(body, cursor, [found] + rest)
  {
    MarkerFound(body, cursor);
    SeparateMore(found, rest, cursor);
    ParsedMore(body, found, rest);
    forall p: nat | p >= cursor && ParseAt(body, p).Some? ensures Covers([found] + rest, p) {
      ParsedHasMarker(body, p);
      CoversMore(found, rest, p);
    }
  }

  lemma ParsedMore(body: string, found: Found, rest: seq<Found>)
    requires ParseAt(body, found.start) == Some(found)
    requires forall i :: 0 <= i < |rest| ==> ParseAt(body, rest[i].start) == Some(rest[i])
    ensures forall i :: 0 <= i < |[found] + rest| ==>
      ParseAt(body, ([found] + rest)[i].start) == Some(([found] + rest)[i])
  {
    forall i | 0 <= i < |[found] + rest| ensures ParseAt(body, ([found] + rest)[i].start) == Some(([found] + rest)[i]) {
      assert ([found] + rest)[i] == if i == 0 then found else rest[i - 1];
    }
  }

  /**
   On any bytes, the scan yields complete chunks one after the other, and every complete chunk it
   does not yield begins inside one it does.
   */
  lemma {:induction false} ScanIsGreedy(body: string, cursor: nat)
    ensures Greedy(body, cursor, Scan(body, cursor))
    decreases |body| - cursor
  {
    MarkerFound(body, cursor);
    match FindMarker(body, cursor)
    case None => GreedyNone(body, cursor);
    case Some(start) =>
      match ParseAt(body, start)
      case None =>
        ScanIsGreedy(body, start + 1);
        GreedySkip(body, cursor, start, Scan(body, start + 1));
      case Some(found) =>
        ScanIsGreedy(body, found.end);
        GreedyAfter(body, cursor, found, Scan(body, found.end));
  }

  lemma ScanFound(body: string, cursor: nat, found: Found)
    requires FindMarker(body, cursor) == Some(found.start) && ParseAt(body, found.start) == Some(found)
    ensures Blocks(Scan(body, cursor)) == [found.block] + Blocks(Scan(body, found.end))
  {
    assert ([found] + Scan(body, found.end))[1..] == Scan(body, found.end);
  }

  // ----- chunks with other bytes between them

  predicate NoMarker(gap: string) {
    forall p: nat :: p + 5 <= |gap| ==> !MarkerAt(gap, p)
  }

  /** Exactly one complete chunk. */
  predicate IsChunk(raw: string) {
    ParseAt(raw, 0).Some? && ParseAt(raw, 0).value.end == |raw|
  }

  function Chunk(raw: string): Block
    requires IsChunk(raw)
  {
    ParseAt(raw, 0).value.block
  }

  function Chunks(raws: seq<string>): seq<Block>
    requires forall i :: 0 <= i < |raws| ==> IsChunk(raws[i])
  {
    if raws == [] then [] else [Chunk(raws[0])] + Chunks(raws[1..])
  }

  function Join(gaps: seq<string>, raws: seq<string>): string
    requires |gaps| == |raws| + 1
    decreases |raws|
  {
    if raws == [] then gaps[0] else gaps[0] + raws[0] + Join(gaps[1..], raws[1..])
  }

  /** A chunk parses the same wherever it stands. */
  lemma ParseInside(before: string, raw: string, after: string)
    requires IsChunk(raw)
    ensures ParseAt(before + raw + after, |before|) == Some(Found(|before|, |before| + |raw|, Chunk(raw)))
  {
    var (body, n) := (before + raw + after, |before|);
    assert body[n..n + 5] == raw[0..5];
    assert body[n + 5..n + 9] == raw[5..9];
    assert body[n + 9..n + 13] == raw[9..13];
    assert body[n + 13..n + 17] == raw[13..17];
    assert body[n + 17..n + 21] == raw[17..21];
    assert body[n + 21..n + 23] == raw[21..23];
    assert body[n..n + |raw|] == raw[0..|raw|];
  }

  lemma NoMarkerInGap(before: string, gap: string, rest: string, p: nat)
    requires NoMarker(gap) && (rest == "" || MarkerAt(rest, 0)) && |before| <= p < |before| + |gap|
    ensures !MarkerAt(before + gap + rest, p)
  {
    var (body, q) := (before + gap + rest, p - |before|);
    if q + 5 <= |gap| {
      assert !MarkerAt(gap, q);
      assert body[p..p + 5] == gap[q..q + 5];
    } else if p + 5 <= |body| {
      assert body[p..p + 5][4] == rest[q + 4 - |gap|] == rest[0..5][q + 4 - |gap|];
    }
  }

  /** The first marker behind a gap without one is the beginning of the chunk. */
  lemma GapIsSkipped(before: string, gap: string, rest: string)
    requires NoMarker(gap) && (rest == "" || MarkerAt(rest, 0))
    ensures FindMarker(before + gap + rest, |before|) == if rest == "" then None else Some(|before| + |gap|)
  {
    var (body, n) := (before + gap + rest, |before| + |gap|);
    forall p: nat | |before| <= p < n ensures !MarkerAt(body, p) {
      NoMarkerInGap(before, gap, rest, p);
    }
    if rest != "" {
      assert body[n..n + 5] == rest[0..5];
      assert MarkerAt(body, n);
    }
    MarkerFound(body, |before|);
  }

  /** One gap and one chunk of a scan. */
  lemma ScanStep(body: string, before: string, gap: string, raw: string, rest: string)
    requires NoMarker(gap) && IsChunk(raw) && body == before + gap + raw + rest
    ensures Blocks(Scan(body, |before|)) == [Chunk(raw)] + Blocks(Scan(body, |before + gap + raw|))
  {
    GapThenChunk(before, gap, raw, rest);
    ParseInside(before + gap, raw, rest);
    var found := Found(|before + gap|, |before + gap + raw|, Chunk(raw));
    assert FindMarker(body, |before|) == Some(found.start);
    assert ParseAt(body, found.start) == Some(found);
    ScanFound(body, |before|, found);
  }

  lemma GapThenChunk(before: string, gap: string, raw: string, rest: string)
    requires NoMarker(gap) && IsChunk(raw)
    ensures FindMarker(before + gap + raw + rest, |before|) == Some(|before + gap|)
  {
    ChunkHasMarker(raw, rest);
    GapIsSkipped(before, gap, raw + rest);
    assert before + gap + raw + rest == before + gap + (raw + rest);
  }

  lemma ChunkHasMarker(raw: string, rest: string)
    requires IsChunk(raw)
    ensures MarkerAt(raw + rest, 0)
  {
    assert (raw + rest)[0..5] == raw[0..5];
  }

  /** Complete chunks between bytes without the marker are exactly what the scan yields, in order. */
  lemma {:induction false} ScanYieldsChunks(before: string, gaps: seq<string>, raws: seq<string>)
    requires |gaps| == |raws| + 1
    requires forall i :: 0 <= i < |gaps| ==> NoMarker(gaps[i])
    requires forall i :: 0 <= i < |raws| ==> IsChunk(raws[i])
    ensures Blocks(Scan(before + Join(gaps, raws), |before|)) == Chunks(raws)
    decreases |raws|
  {
    var body := before + Join(gaps, raws);
    if raws == [] {
      assert body == before + gaps[0] + "";
      GapIsSkipped(before, gaps[0], "");
    } else {
      var rest := Join(gaps[1..], raws[1..]);
      assert body == before + gaps[0] + raws[0] + rest;
      ScanStep(body, before, gaps[0], raws[0], rest);
      ScanYieldsChunks(before + gaps[0] + raws[0], gaps[1..], raws[1..]);
    }
  }

  /** The scan as the cursor loop runs it. */
  method ScanBlocks(body: string) returns (blocks: seq<Block>)
    ensures blocks == Blocks(Scan(body, 0))
  {
    blocks := [];
    var cursor := 0;
    ghost var founds := [];
    assert [] + Scan(body, 0) == Scan(body, 0);
    while cursor < |body|
      invariant cursor <= |body| && blocks == Blocks(founds) && founds + Scan(body, cursor) == Scan(body, 0)
      decreases |body| - cursor
    {
      MarkerFound(body, cursor);
      var start := FindMarker(body, cursor);
      if start.None? {
        assert founds + [] == founds;
        return;
      }
      var parsed := ParseAt(body, start.value);
      if parsed.None? {
        cursor := start.value + 1;
      } else {
        assert founds + ([parsed.value] + Scan(body, parsed.value.end))
          == founds + [parsed.value] + Scan(body, parsed.value.end);
        BlocksPlus(founds, parsed.value);
        founds := founds + [parsed.value];
        blocks := blocks + [parsed.value.block];
        cursor := parsed.value.end;
      }
    }
    assert Scan(body, cursor) == [] && founds + [] == founds;
  }

  lemma {:induction false} BlocksPlus(founds: seq<Found>, last: Found)
    ensures Blocks(founds + [last]) == Blocks(founds) + [last.block]
  {
    if founds != [] {
      assert (founds + [last])[1..] == founds[1..] + [last];
      BlocksPlus(founds[1..], last);
    } else {
      assert founds + [last] == [last];
    }
  }
}
