/** Rewriting a session object for another receiver (server/carbon/gamemanager/session_object.py). */
module SessionRewrite {
  import opened Options
  import opened LatinText
  import opened Words
  import opened SessionObject

  /** Where the second slot field of an offset-zero block ends. */
  const SLOTS_END: nat := 43

  function ParseBlock(raw: string): Option<Block> {
    match ParseAt(raw, 0)
    case None => None
    case Some(found) => Some(found.block)
  }

  /** The first block with an offset; later ones are ignored. */
  function FirstAt(blocks: seq<string>, offset: nat): Option<Block> {
    if blocks == [] then None
    else
      match FirstAt(blocks[..|blocks| - 1], offset)
      case Some(b) => Some(b)
      case None =>
        match ParseBlock(blocks[|blocks| - 1])
        case Some(b) => if b.offset == offset then Some(b) else None
        case None => None
  }

  function Listed(b: Option<Block>): seq<Block> {
    if b.Some? then [b.value] else []
  }

  /** One block for each offset that has one, by offset. */
  function Unique(blocks: seq<string>): seq<Block> {
    Listed(FirstAt(blocks, 0)) + Listed(FirstAt(blocks, SECOND)) + Listed(FirstAt(blocks, THIRD))
  }

  predicate Complete(blocks: seq<string>) {
    FirstAt(blocks, 0).Some? && FirstAt(blocks, SECOND).Some? && FirstAt(blocks, THIRD).Some?
  }

  datatype Rewritten = Ok(blocks: seq<string>) | BadObjectId | BadSlot | Incomplete | Truncated

  /** A part of a byte string overwritten. */
  function Patched(s: string, at: nat, patch: string): string
    requires at + |patch| <= |s|
  {
    s[..at] + patch + s[at + |patch|..]
  }

  function RewriteOne(raw: string, offset: nat, objectId: nat, slot: nat): string
    requires |raw| > HEADER && objectId < WORD && slot < WORD && (offset == 0 ==> |raw| >= SLOTS_END)
  {
    var body := Patched(raw, 5, PackWord(objectId));
    if offset == 0 then Patched(Patched(body, 35, PackWord(slot)), 39, PackWord(slot)) else body
  }

  lemma FirstAtIsChunk(blocks: seq<string>, offset: nat)
    requires FirstAt(blocks, offset).Some?
    ensures var b := FirstAt(blocks, offset).value;
      b.offset == offset && IsChunk(b.raw) && Chunk(b.raw) == b && |b.raw| > HEADER
  {
    if FirstAt(blocks[..|blocks| - 1], offset).Some? {
      FirstAtIsChunk(blocks[..|blocks| - 1], offset);
    } else {
      CutParses(blocks[|blocks| - 1]);
    }
  }

  /** A block cut out of the bytes behind it is a chunk of its own. */
  lemma CutParses(raw: string)
    requires ParseBlock(raw).Some?
    ensures var b := ParseBlock(raw).value; IsChunk(b.raw) && Chunk(b.raw) == b && |b.raw| > HEADER
  {
    var b := ParseBlock(raw).value;
    var cut := b.raw;
    assert cut[0..5] == raw[0..5] && cut[5..9] == raw[5..9] && cut[9..13] == raw[9..13];
    assert cut[13..17] == raw[13..17] && cut[17..21] == raw[17..21] && cut[21..23] == raw[21..23];
    assert cut[0..|cut|] == cut;
  }

  function Rewrite(blocks: seq<string>, objectId: int, slot: int): Rewritten {
    if !(1 <= objectId < WORD) then BadObjectId
    else if !(0 <= slot < WORD) then BadSlot
    else if !Complete(blocks) then Incomplete
    else
      FirstAtIsChunk(blocks, 0);
      FirstAtIsChunk(blocks, SECOND);
      FirstAtIsChunk(blocks, THIRD);
      var first := FirstAt(blocks, 0).value.raw;
      if |first| < SLOTS_END then Truncated
      else Ok([
        RewriteOne(first, 0, objectId, slot),
        RewriteOne(FirstAt(blocks, SECOND).value.raw, SECOND, objectId, slot),
        RewriteOne(FirstAt(blocks, THIRD).value.raw, THIRD, objectId, slot)])
  }

  // ----- one block

  /** The places a rewrite may change. */
  predicate Rewritable(offset: nat, k: nat) {
    5 <= k < 9 || (offset == 0 && 35 <= k < SLOTS_END)
  }

  lemma RewriteOneChanges(raw: string, offset: nat, objectId: nat, slot: nat)
    requires |raw| > HEADER && objectId < WORD && slot < WORD && (offset == 0 ==> |raw| >= SLOTS_END)
    ensures var out := RewriteOne(raw, offset, objectId, slot);
            && |out| == |raw|
            && (forall k :: 0 <= k < |raw| && !Rewritable(offset, k) ==> out[k] == raw[k])
            && UnpackWord(out[5..9]) == objectId
            && (offset == 0 ==> UnpackWord(out[35..39]) == slot && UnpackWord(out[39..43]) == slot)
  {
    var out := RewriteOne(raw, offset, objectId, slot);
    var body := Patched(raw, 5, PackWord(objectId));
    UnpackPackWord(objectId);
    UnpackPackWord(slot);
    assert body[5..9] == PackWord(objectId);
    if offset == 0 {
      var middle := Patched(body, 35, PackWord(slot));
      assert out[5..9] == middle[5..9] == body[5..9];
      assert out[35..39] == middle[35..39] == PackWord(slot);
      assert out[39..43] == PackWord(slot);
    }
  }

  /** A rewritten chunk is a chunk with the new id and the same size and offset. */
  lemma RewriteOneParses(raw: string, objectId: nat, slot: nat)
    requires IsChunk(raw) && 1 <= objectId < WORD && slot < WORD
    requires Chunk(raw).offset == 0 ==> |raw| >= SLOTS_END
    ensures |raw| > HEADER
    ensures var out := RewriteOne(raw, Chunk(raw).offset, objectId, slot);
            IsChunk(out) && Chunk(out) == Block(objectId, Chunk(raw).totalSize, Chunk(raw).offset, out)
  {
    var offset := Chunk(raw).offset;
    RewriteOneChanges(raw, offset, objectId, slot);
    SameHeader(raw, RewriteOne(raw, offset, objectId, slot), objectId);
  }

  lemma SameHeader(raw: string, out: string, objectId: nat)
    requires IsChunk(raw) && |out| == |raw| && objectId >= 1
    requires forall k :: 0 <= k < HEADER && !(5 <= k < 9) ==> out[k] == raw[k]
    requires UnpackWord(out[5..9]) == objectId
    ensures IsChunk(out) && Chunk(out) == Block(objectId, Chunk(raw).totalSize, Chunk(raw).offset, out)
  {
    assert out[0..5] == raw[0..5] && out[9..13] == raw[9..13] && out[13..17] == raw[13..17];
    assert out[17..21] == raw[17..21] && out[21..23] == raw[21..23];
    assert out[0..|out|] == out;
  }

  /** The last rewrite wins: it leaves nothing of an earlier one. */
  lemma RewriteOneTwice(raw: string, offset: nat, id1: nat, slot1: nat, id2: nat, slot2: nat)
    requires |raw| > HEADER && id1 < WORD && slot1 < WORD && id2 < WORD && slot2 < WORD
      && (offset == 0 ==> |raw| >= SLOTS_END)
    ensures |RewriteOne(raw, offset, id1, slot1)| == |raw|
    ensures RewriteOne(RewriteOne(raw, offset, id1, slot1), offset, id2, slot2) == RewriteOne(raw, offset, id2, slot2)
  {
    var once := RewriteOne(raw, offset, id1, slot1);
    RewriteOneChanges(raw, offset, id1, slot1);
    OutAt(raw, offset, id2, slot2);
    OutAt(once, offset, id2, slot2);
  }

  /** What a rewrite puts at one place. */
  function CharAt(raw: string, offset: nat, objectId: nat, slot: nat, k: nat): char
    requires k < |raw| && objectId < WORD && slot < WORD
  {
    if 5 <= k < 9 then PackWord(objectId)[k - 5]
    else if offset == 0 && 35 <= k < 39 then PackWord(slot)[k - 35]
    else if offset == 0 && 39 <= k < 43 then PackWord(slot)[k - 39]
    else raw[k]
  }

  lemma OutAt(raw: string, offset: nat, objectId: nat, slot: nat)
    requires |raw| > HEADER && objectId < WORD && slot < WORD && (offset == 0 ==> |raw| >= SLOTS_END)
    ensures var out := RewriteOne(raw, offset, objectId, slot);
            && |out| == |raw|
            && forall k :: 0 <= k < |raw| ==> out[k] == CharAt(raw, offset, objectId, slot, k)
  {
    var (id, place) := (PackWord(objectId), PackWord(slot));
    PatchedAt(raw, 5, id);
    var body := Patched(raw, 5, id);
    if offset == 0 {
      PatchedAt(body, 35, place);
      PatchedAt(Patched(body, 35, place), 39, place);
    }
  }

  lemma PatchedAt(s: string, at: nat, patch: string)
    requires at + |patch| <= |s|
    ensures |Patched(s, at, patch)| == |s|
    ensures forall k :: 0 <= k < |s| ==>
      Patched(s, at, patch)[k] == if at <= k < at + |patch| then patch[k - at] else s[k]
  {
  }

  // ----- whole objects

  /** A rewrite fails for exactly these reasons, in this order. */
  lemma RewriteSucceedsIff(blocks: seq<string>, objectId: int, slot: int)
    ensures Rewrite(blocks, objectId, slot).Ok? <==>
      && 1 <= objectId < WORD && 0 <= slot < WORD && Complete(blocks)
      && |FirstAt(blocks, 0).value.raw| >= SLOTS_END
  {
  }

  /** What one output block has in common with its original, and what is new in it. */
  ghost predicate Readdressed(original: Block, out: string, objectId: nat, slot: nat) {
    && IsChunk(out) && Chunk(out) == Block(objectId, original.totalSize, original.offset, out)
    && |out| == |original.raw|
    && (forall k :: 0 <= k < |out| && !Rewritable(original.offset, k) ==> out[k] == original.raw[k])
    && (original.offset == 0 ==>
      |out| >= SLOTS_END && UnpackWord(out[35..39]) == slot && UnpackWord(out[39..43]) == slot)
  }

  lemma RewriteReaddresses(blocks: seq<string>, objectId: nat, slot: nat, offset: nat)
    requires FirstAt(blocks, offset).Some? && 1 <= objectId < WORD && slot < WORD
    requires offset == 0 ==> |FirstAt(blocks, 0).value.raw| >= SLOTS_END
    ensures |FirstAt(blocks, offset).value.raw| > HEADER
    ensures Readdressed(FirstAt(blocks, offset).value,
      RewriteOne(FirstAt(blocks, offset).value.raw, offset, objectId, slot), objectId, slot)
  {
    FirstAtIsChunk(blocks, offset);
    var raw := FirstAt(blocks, offset).value.raw;
    RewriteOneParses(raw, objectId, slot);
    RewriteOneChanges(raw, offset, objectId, slot);
  }

  /**
   The three blocks come back with the new id, their sizes and offsets, and nothing changed but
   the id and slot fields.
   */
  lemma RewriteKeepsTheRest(blocks: seq<string>, objectId: int, slot: int)
    requires Rewrite(blocks, objectId, slot).Ok?
    ensures var out := Rewrite(blocks, objectId, slot).blocks;
            && |out| == 3
            && Readdressed(FirstAt(blocks, 0).value, out[0], objectId, slot)
            && Readdressed(FirstAt(blocks, SECOND).value, out[1], objectId, slot)
            && Readdressed(FirstAt(blocks, THIRD).value, out[2], objectId, slot)
  {
    RewriteReaddresses(blocks, objectId, slot, 0);
    RewriteReaddresses(blocks, objectId, slot, SECOND);
    RewriteReaddresses(blocks, objectId, slot, THIRD);
  }

  /** Of three chunks at the three offsets, each is the first at its own. */
  lemma FirstOfThree(a: string, b: string, c: string)
    requires IsChunk(a) && IsChunk(b) && IsChunk(c)
    requires Chunk(a).offset == 0 && Chunk(b).offset == SECOND && Chunk(c).offset == THIRD
    ensures FirstAt([a, b, c], 0) == Some(Chunk(a))
    ensures FirstAt([a, b, c], SECOND) == Some(Chunk(b))
    ensures FirstAt([a, b, c], THIRD) == Some(Chunk(c))
  {
    var all := [a, b, c];
    assert all[..2] == [a, b] && [a, b][..1] == [a] && [a][..0] == [];
    assert ParseBlock(a) == Some(Chunk(a)) && ParseBlock(b) == Some(Chunk(b)) && ParseBlock(c) == Some(Chunk(c));
    FirstAppend([], a, 0);
    FirstAppend([], a, SECOND);
    FirstAppend([], a, THIRD);
    FirstAppend([a], b, 0);
    FirstAppend([a], b, SECOND);
    FirstAppend([a], b, THIRD);
    FirstAppend([a, b], c, 0);
    FirstAppend([a, b], c, SECOND);
    FirstAppend([a, b], c, THIRD);
  }

  lemma FirstAppend(blocks: seq<string>, raw: string, offset: nat)
    ensures FirstAt(blocks + [raw], offset) ==
      if FirstAt(blocks, offset).Some? then FirstAt(blocks, offset)
      else if ParseBlock(raw).Some? && ParseBlock(raw).value.offset == offset then ParseBlock(raw) else None
  {
    assert (blocks + [raw])[..|blocks|] == blocks;
  }

  /** Rewriting what was rewritten is rewriting the original. */
  lemma RewriteTwice(blocks: seq<string>, id1: int, slot1: int, id2: int, slot2: int)
    requires Rewrite(blocks, id1, slot1).Ok?
    ensures Rewrite(Rewrite(blocks, id1, slot1).blocks, id2, slot2) == Rewrite(blocks, id2, slot2)
  {
    var out := Rewrite(blocks, id1, slot1).blocks;
    RewriteKeepsTheRest(blocks, id1, slot1);
    FirstAtIsChunk(blocks, 0);
    FirstAtIsChunk(blocks, SECOND);
    FirstAtIsChunk(blocks, THIRD);
    FirstOfThree(out[0], out[1], out[2]);
    assert out == [out[0], out[1], out[2]];
    if 1 <= id2 < WORD && 0 <= slot2 < WORD {
      RewriteOneTwice(FirstAt(blocks, 0).value.raw, 0, id1, slot1, id2, slot2);
      RewriteOneTwice(FirstAt(blocks, SECOND).value.raw, SECOND, id1, slot1, id2, slot2);
      RewriteOneTwice(FirstAt(blocks, THIRD).value.raw, THIRD, id1, slot1, id2, slot2);
    }
  }

  /** Blocks that arrive later, repeated or not, change nothing about a complete object. */
  lemma {:induction false} LateBlocksIgnored(blocks: seq<string>, late: seq<string>, objectId: int, slot: int)
    requires Complete(blocks)
    ensures Rewrite(blocks + late, objectId, slot) == Rewrite(blocks, objectId, slot)
    ensures Complete(blocks + late)
    decreases |late|
  {
    if late == [] {
      assert blocks + late == blocks;
    } else {
      var (init, last) := (late[..|late| - 1], late[|late| - 1]);
      LateBlocksIgnored(blocks, init, objectId, slot);
      FirstAppend(blocks + init, last, 0);
      FirstAppend(blocks + init, last, SECOND);
      FirstAppend(blocks + init, last, THIRD);
      assert blocks + late == blocks + init + [last];
    }
  }

  /** A stream made of a rewritten object scans to its three blocks. */
  lemma RewrittenScans(blocks: seq<string>, objectId: int, slot: int)
    requires Rewrite(blocks, objectId, slot).Ok?
    ensures var out := Rewrite(blocks, objectId, slot).blocks;
            |out| == 3 && IsChunk(out[0]) && IsChunk(out[1]) && IsChunk(out[2])
            && Blocks(Scan(out[0] + out[1] + out[2], 0)) == [Chunk(out[0]), Chunk(out[1]), Chunk(out[2])]
  {
    var out := Rewrite(blocks, objectId, slot).blocks;
    RewriteKeepsTheRest(blocks, objectId, slot);
    ThreeScan(out[0], out[1], out[2]);
  }

  lemma ThreeScan(a: string, b: string, c: string)
    requires IsChunk(a) && IsChunk(b) && IsChunk(c)
    ensures Blocks(Scan(a + b + c, 0)) == [Chunk(a), Chunk(b), Chunk(c)]
  {
    var (gaps, raws) := (["", "", "", ""], [a, b, c]);
    JoinThree(a, b, c);
    ScanYieldsChunks("", gaps, raws);
    assert "" + Join(gaps, raws) == a + b + c;
    ChunksThree(a, b, c);
  }

  lemma ChunksThree(a: string, b: string, c: string)
    requires IsChunk(a) && IsChunk(b) && IsChunk(c)
    ensures Chunks([a, b, c]) == [Chunk(a), Chunk(b), Chunk(c)]
  {
    assert [a, b, c][1..] == [b, c] && [b, c][1..] == [c] && [c][1..] == [];
    assert Chunks([c]) == [Chunk(c)];
    assert Chunks([b, c]) == [Chunk(b), Chunk(c)];
  }

  lemma JoinThree(a: string, b: string, c: string)
    ensures Join(["", "", "", ""], [a, b, c]) == a + b + c
  {
    assert ["", "", "", ""][1..] == ["", "", ""] && ["", "", ""][1..] == ["", ""] && ["", ""][1..] == [""];
    assert [a, b, c][1..] == [b, c] && [b, c][1..] == [c] && [c][1..] == [];
    assert Join([""], []) == "";
    assert Join(["", ""], [c]) == c;
    assert Join(["", "", ""], [b, c]) == b + c;
  }

  // ----- the loops of the source

  method UniqueBlocks(blocks: seq<string>) returns (parsed: seq<Block>)
    ensures parsed == Unique(blocks)
  {
    var byOffset: map<nat, Block> := map[];
    for i := 0 to |blocks|
      invariant forall offset: nat :: ChunkOffset(offset) ==> Lookup(byOffset, offset) == FirstAt(blocks[..i], offset)
    {
      assert blocks[..i + 1][..i] == blocks[..i];
      var block := ParseBlock(blocks[i]);
      if block.Some? && block.value.offset !in byOffset {
        byOffset := byOffset[block.value.offset := block.value];
      }
    }
    assert blocks[..|blocks|] == blocks;
    parsed := Listed(Lookup(byOffset, 0)) + Listed(Lookup(byOffset, SECOND)) + Listed(Lookup(byOffset, THIRD));
  }

  function Lookup(byOffset: map<nat, Block>, offset: nat): Option<Block> {
    if offset in byOffset then Some(byOffset[offset]) else None
  }

  lemma UniqueComplete(blocks: seq<string>)
    ensures |Unique(blocks)| <= 3 && (|Unique(blocks)| == 3 <==> Complete(blocks))
    ensures Complete(blocks) ==>
      Unique(blocks) == [FirstAt(blocks, 0).value, FirstAt(blocks, SECOND).value, FirstAt(blocks, THIRD).value]
  {
  }

  lemma RewriteByItem(blocks: seq<string>, objectId: nat, slot: nat)
    requires 1 <= objectId < WORD && slot < WORD && Complete(blocks)
    ensures |Unique(blocks)| == 3 && Unique(blocks)[0].offset == 0
    ensures forall i :: 0 <= i < 3 ==> |Unique(blocks)[i].raw| > HEADER && (i > 0 ==> Unique(blocks)[i].offset != 0)
    ensures |Unique(blocks)[0].raw| < SLOTS_END ==> Rewrite(blocks, objectId, slot) == Truncated
    ensures |Unique(blocks)[0].raw| >= SLOTS_END ==>
      && Rewrite(blocks, objectId, slot).Ok? && |Rewrite(blocks, objectId, slot).blocks| == 3
      && forall i :: 0 <= i < 3 ==>
           Rewrite(blocks, objectId, slot).blocks[i]
             == RewriteOne(Unique(blocks)[i].raw, Unique(blocks)[i].offset, objectId, slot)
  {
    UniqueComplete(blocks);
    FirstAtIsChunk(blocks, 0);
    FirstAtIsChunk(blocks, SECOND);
    FirstAtIsChunk(blocks, THIRD);
  }

  /** One turn of the rewriting loop; None when an offset-zero block is too short. */
  method RewriteItem(item: Block, objectId: nat, slot: nat) returns (r: Option<string>)
    requires |item.raw| > HEADER && objectId < WORD && slot < WORD
    ensures r == if item.offset == 0 && |item.raw| < SLOTS_END then None
      else Some(RewriteOne(item.raw, item.offset, objectId, slot))
  {
    var body := Patched(item.raw, 5, PackWord(objectId));
    if item.offset == 0 {
      if |body| < SLOTS_END {
        return None;
      }
      body := Patched(body, 35, PackWord(slot));
      body := Patched(body, 39, PackWord(slot));
    }
    return Some(body);
  }

  method RewriteForReceiver(blocks: seq<string>, objectId: int, slot: int) returns (r: Rewritten)
    ensures r == Rewrite(blocks, objectId, slot)
  {
    if !(1 <= objectId < WORD) {
      return BadObjectId;
    }
    if !(0 <= slot < WORD) {
      return BadSlot;
    }
    var parsed := UniqueBlocks(blocks);
    UniqueComplete(blocks);
    if |parsed| < 3 {
      return Incomplete;
    }
    RewriteByItem(blocks, objectId, slot);
    var rewritten: seq<string> := [];
    for i := 0 to 3
      invariant |rewritten| == i && (i > 0 ==> |parsed[0].raw| >= SLOTS_END)
      invariant forall k :: 0 <= k < i ==> rewritten[k] == RewriteOne(parsed[k].raw, parsed[k].offset, objectId, slot)
    {
      var item := RewriteItem(parsed[i], objectId, slot);
      if item.None? {
        return Truncated;
      }
      rewritten := rewritten + [item.value];
    }
    r := Ok(rewritten);
  }
}
