/**
 The bytes of a session object's chunks, and which of several is used
 (server/carbon/gamemanager/session_object.py).
 */
module SessionWire {
  import opened Options
  import opened LatinText
  import opened Words
  import opened SessionObject
  import opened SessionRewrite

  /** The value of four bytes, the first of them the highest. */
  function Number(bytes: string, at: nat): nat
    requires at + 4 <= |bytes|
  {
    bytes[at] as int * 0x100_0000 + bytes[at + 1] as int * 0x1_0000 + bytes[at + 2] as int * 0x100
      + bytes[at + 3] as int
  }

  /**
   One chunk: four zero bytes and 0x1E, the object, the total size, the offset of this part, its
   greatest size, its size in two bytes, and that many bytes, all within the object.
   */
  predicate WellFormed(raw: string) {
    |raw| > 23 && raw[..5] == ['\0', '\0', '\0', '\0', 0x1E as char]
    && var (size, total, offset) := (|raw| - 23, Number(raw, 9), Number(raw, 13));
       && Number(raw, 5) > 0 && (offset == 0 || offset == 0x1E4 || offset == 0x3C8)
       && raw[21] as int * 0x100 + raw[22] as int == size <= Number(raw, 17) && offset + size <= total
  }

  lemma NumberIs(bytes: string, at: nat)
    requires at + 4 <= |bytes|
    ensures Number(bytes, at) == UnpackWord(bytes[at..at + 4])
  {
  }

  lemma HeaderNumbers(raw: string)
    requires |raw| >= 23
    ensures Number(raw, 5) == UnpackWord(raw[5..9]) && Number(raw, 9) == UnpackWord(raw[9..13])
    ensures Number(raw, 13) == UnpackWord(raw[13..17]) && Number(raw, 17) == UnpackWord(raw[17..21])
    ensures raw[21] as int * 0x100 + raw[22] as int == UnpackShort(raw[21..23])
  {
    NumberIs(raw, 5);
    NumberIs(raw, 9);
    NumberIs(raw, 13);
    NumberIs(raw, 17);
  }

  /** The bytes `raw` are what a chunk is parsed from exactly when they stand there and are well formed. */
  lemma ParsesIff(body: string, start: nat, raw: string)
    requires start + |raw| <= |body|
    ensures ParseAt(body, start).Some? && ParseAt(body, start).value.block.raw == raw
       <==> WellFormed(raw) && body[start..start + |raw|] == raw
    ensures WellFormed(raw) && body[start..start + |raw|] == raw ==>
      ParseAt(body, start) == Some(
        Found(start, start + |raw|, Block(Number(raw, 5), Number(raw, 9), Number(raw, 13), raw)))
  {
    if ParseAt(body, start).Some? {
      ParsedIsWellFormed(body, start);
    }
    if WellFormed(raw) && body[start..start + |raw|] == raw {
      SameHeader(body, start, raw);
      HeaderNumbers(raw);
    }
  }

  lemma SameHeader(body: string, start: nat, raw: string)
    requires |raw| > 23 && start + |raw| <= |body| && body[start..start + |raw|] == raw
    ensures body[start..start + 5] == raw[..5] && body[start + 5..start + 9] == raw[5..9]
    ensures body[start + 9..start + 13] == raw[9..13] && body[start + 13..start + 17] == raw[13..17]
    ensures body[start + 17..start + 21] == raw[17..21] && body[start + 21..start + 23] == raw[21..23]
  {
    var cut := body[start..start + |raw|];
    assert forall i :: 0 <= i < |raw| ==> body[start + i] == cut[i];
  }

  lemma ParsedIsWellFormed(body: string, start: nat)
    requires ParseAt(body, start).Some?
    ensures var found := ParseAt(body, start).value;
      found.block.raw == body[start..found.end] && WellFormed(found.block.raw)
  {
    var raw := ParseAt(body, start).value.block.raw;
    SameHeader(body, start, raw);
    HeaderNumbers(raw);
  }

  /** The bytes begin with a chunk of this offset. */
  ghost predicate HasOffset(raw: string, offset: nat) {
    ParseBlock(raw).Some? && ParseBlock(raw).value.offset == offset
  }

  /** Of the received blocks the first with an offset is used. */
  lemma {:induction false} FirstAtIff(blocks: seq<string>, offset: nat, k: nat)
    requires k < |blocks| && HasOffset(blocks[k], offset)
    requires forall j :: 0 <= j < k ==> !HasOffset(blocks[j], offset)
    ensures FirstAt(blocks, offset) == ParseBlock(blocks[k])
    decreases |blocks|
  {
    var init := blocks[..|blocks| - 1];
    if k < |init| {
      FirstAtIff(init, offset, k);
    } else {
      NoneAt(init, offset);
    }
  }

  lemma {:induction false} NoneAt(blocks: seq<string>, offset: nat)
    ensures FirstAt(blocks, offset).None? <==> forall j :: 0 <= j < |blocks| ==> !HasOffset(blocks[j], offset)
  {
    if blocks != [] {
      NoneAt(blocks[..|blocks| - 1], offset);
    }
  }

  /** Whatever the blocks, those used are in the order of their offsets, one of each that occurs. */
  lemma UniqueInOrder(blocks: seq<string>)
    ensures var unique := Unique(blocks);
      && (forall i, j :: 0 <= i < j < |unique| ==> unique[i].offset < unique[j].offset)
      && forall b :: b in unique <==> FirstAt(blocks, b.offset) == Some(b)
  {
    forall offset: nat | FirstAt(blocks, offset).Some?
      ensures FirstAt(blocks, offset).value.offset == offset && ChunkOffset(offset)
    {
      FirstAtIsChunk(blocks, offset);
    }
  }
}
