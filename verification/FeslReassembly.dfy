/**
 Splitting an oversized FESL message into Base64 fragments (server/carbon/fesl/frame.py)
 and putting interleaved fragments together again (server/carbon/fesl/service.py).
 */
module FeslReassembly {
  import opened Options
  import opened LatinText
  import opened Words
  import opened FeslFields
  import opened FeslStream
  import Base64

  const MAX_ACTIVE_CHUNK_BUFFERS := 8
  const MAX_CHUNKED_PAYLOAD_ENCODED_SIZE := 2 * 1024 * 1024
  const TOKEN := 0x1000_0000
  const FRAGMENT_MARK := 0xB000_0000

  // ----- the sender

  function EscapePadding(s: string): string {
    if s == [] then []
    else (if s[0] == '=' then "%3d" else [s[0]]) + EscapePadding(s[1..])
  }

  /** `str.replace(pattern, "=")` for a pattern of three characters: left to right, no overlap. */
  function Unescape(s: string, pattern: string): string
    requires |pattern| == 3
  {
    if s == [] then []
    else if |s| >= 3 && s[..3] == pattern then ['='] + Unescape(s[3..], pattern)
    else [s[0]] + Unescape(s[1..], pattern)
  }

  /** The slices `encoded[offset : offset + limit]` for every offset of the range. */
  function Slices(encoded: string, limit: nat): (slices: seq<string>)
    requires limit > 0
    decreases |encoded|
  {
    if |encoded| <= limit then (if encoded == [] then [] else [encoded])
    else [encoded[..limit]] + Slices(encoded[limit..], limit)
  }

  /** The payload without the terminating NUL, which the fragments do not carry. */
  function Logical(payload: string): string {
    if payload != [] && payload[|payload| - 1] == NUL then payload[..|payload| - 1] else payload
  }

  function Encoded(f: Frame): string
    requires IsBytes(f.payload)
  {
    Base64.Encode(Logical(f.payload))
  }

  function Fragment(f: Frame, slice: string): Frame
    requires IsBytes(f.payload)
  {
    Frame(f.command, f.transaction % TOKEN + FRAGMENT_MARK,
          FragmentBody(Decimal(|Logical(f.payload)|), Decimal(|Encoded(f)|), EscapePadding(slice)))
  }

  function FragmentBody(decodedSize: string, size: string, data: string): string {
    EncodeFields([("decodedSize", decodedSize), ("size", size), ("data", data)])
  }

  /** None stands for the ValueError of a fragment size that is not positive. */
  function PacketizeFrame(f: Frame, limit: int): (r: Option<seq<Frame>>)
    requires IsBytes(f.payload)
  {
    if limit <= 0 then None
    else if |f.payload| <= limit then Some([f])
    else
      var slices := Slices(Encoded(f), limit);
      Some(seq(|slices|, k requires 0 <= k < |slices| => Fragment(f, slices[k])))
  }

  // ----- the receiver

  type Key = (string, int)
  type Buffers = map<Key, (string, int)>

  function FragmentKey(f: Frame): Key {
    (f.command, f.transaction % WORD)
  }

  function FinishPayload(encoded: string, fields: Fields): Option<Fields> {
    match Base64.Decode(encoded)
    case None => None
    case Some(payload) =>
      if "decodedSize" in fields && ParseInt(fields["decodedSize"]) != Some(|payload|) then None
      else Some(DecodeFields(payload + [NUL]))
  }

  predicate IsAscii(s: string) {
    forall k :: 0 <= k < |s| ==> s[k] as int < 128
  }

  /** One decoded chunk of a transfer of `size` characters joins the buffer of its key. */
  function StoreChunk(buffers: Buffers, key: Key, size: int, chunk: string, fields: Fields): (Buffers, Option<Fields>) {
    var (oldData, oldSize) := if key in buffers then buffers[key] else ("", 0);
    if size <= 0 || size > MAX_CHUNKED_PAYLOAD_ENCODED_SIZE || (oldSize != 0 && oldSize != size) then
      (buffers - {key}, None)
    else if key !in buffers && |buffers| >= MAX_ACTIVE_CHUNK_BUFFERS then
      (buffers, None)
    else if !IsAscii(chunk) then
      (buffers - {key}, None)
    else
      var encoded := oldData + chunk;
      if |encoded| > size then (buffers - {key}, None)
      else if |encoded| < size then (buffers[key := (encoded, size)], None)
      else (buffers - {key}, FinishPayload(encoded, fields))
  }

  function ChunkOf(data: string): string {
    Unescape(Unescape(data, "%3d"), "%3D")
  }

  function SizeOf(text: string): Option<int> {
    ParseInt(if text == "" then "0" else text)
  }

  /** `_complete_fields`: the new buffers, and the fields when a message is complete. */
  function CompleteFields(buffers: Buffers, f: Frame): (Buffers, Option<Fields>) {
    var fields := DecodeFields(f.payload);
    if "data" !in fields || "size" !in fields then (buffers, Some(fields))
    else
      match SizeOf(fields["size"])
      case None => (buffers - {FragmentKey(f)}, None)
      case Some(size) => StoreChunk(buffers, FragmentKey(f), size, ChunkOf(fields["data"]), fields)
  }

  // ----- frames that are no fragments

  /** The test that tells a fragment from an ordinary frame. */
  predicate LooksLikeFragment(f: Frame) {
    "data" in DecodeFields(f.payload) && "size" in DecodeFields(f.payload)
  }

  /** An ordinary frame is answered at once, with its own fields, and touches no transfer. */
  lemma PlainFrameAnswered(buffers: Buffers, f: Frame)
    requires !LooksLikeFragment(f)
    ensures CompleteFields(buffers, f) == (buffers, Some(DecodeFields(f.payload)))
  {
  }

  lemma {:induction false} AssignedKeys(fields: Fields, list: FieldList, key: string)
    ensures key in Assign(fields, list) <==> key in fields || exists k :: 0 <= k < |list| && list[k].0 == key
    decreases |list|
  {
    if list != [] {
      var rest := list[1..];
      AssignedKeys(fields[list[0].0 := list[0].1], rest, key);
      if k :| 0 <= k < |rest| && rest[k].0 == key {
        assert list[k + 1].0 == key;
      }
      if k :| 0 <= k < |list| && list[k].0 == key {
        assert k > 0 ==> rest[k - 1].0 == key;
      }
    }
  }

  predicate Lists(list: FieldList, key: string) {
    exists k :: 0 <= k < |list| && list[k].0 == key
  }

  /** A request of clean fields without "data" or without "size" arrives as exactly those fields, whatever is open. */
  lemma RequestArrives(buffers: Buffers, command: string, transaction: int, list: FieldList)
    requires forall f :: f in list ==> CleanField(f.0, f.1)
    requires !Lists(list, "data") || !Lists(list, "size")
    ensures CompleteFields(buffers, Frame(command, transaction, EncodeFields(list)))
      == (buffers, Some(Assign(map[], list)))
  {
    DecodeEncodeFields(list);
    AssignedKeys(map[], list, "data");
    AssignedKeys(map[], list, "size");
    PlainFrameAnswered(buffers, Frame(command, transaction, EncodeFields(list)));
  }

  // ----- fragments that do not fit

  /** A frame touches no transfer but that of its own command and transaction. */
  lemma OtherTransfersUntouched(buffers: Buffers, f: Frame, key: Key)
    requires key != FragmentKey(f)
    ensures key in CompleteFields(buffers, f).0 <==> key in buffers
    ensures key in buffers ==> CompleteFields(buffers, f).0[key] == buffers[key]
  {
  }

  /** What a fragment announces and brings; a size that is no number is None. */
  datatype Chunk = Chunk(size: Option<int>, text: string)

  function ChunkIn(f: Frame): Chunk
    requires LooksLikeFragment(f)
  {
    var fields := DecodeFields(f.payload);
    Chunk(SizeOf(fields["size"]), ChunkOf(fields["data"]))
  }

  /** The text and the size of the transfer that a fragment belongs to. */
  function Transfer(buffers: Buffers, key: Key): (string, int) {
    if key in buffers then buffers[key] else ("", 0)
  }

  /** A chunk that the receiver adds: its size is allowed and agrees, it is ASCII, and it does not exceed the rest. */
  ghost predicate Fits(buffers: Buffers, f: Frame)
    requires LooksLikeFragment(f)
  {
    var (chunk, transfer) := (ChunkIn(f), Transfer(buffers, FragmentKey(f)));
    && chunk.size.Some? && 0 < chunk.size.value <= MAX_CHUNKED_PAYLOAD_ENCODED_SIZE
    && (transfer.1 == 0 || transfer.1 == chunk.size.value)
    && IsAscii(chunk.text) && |transfer.0| + |chunk.text| <= chunk.size.value
  }

  /** A fragment of a new transfer finds all eight buffers taken, before anything is asked of its text. */
  ghost predicate NoRoom(buffers: Buffers, f: Frame)
    requires LooksLikeFragment(f)
  {
    FragmentKey(f) !in buffers && |buffers| >= MAX_ACTIVE_CHUNK_BUFFERS
  }

  /**
   A fragment that does not fit, or finds no room, is answered with nothing and ends its own
   transfer; one that fits and leaves something missing is kept behind what was there.
   */
  lemma FragmentKeptIff(buffers: Buffers, f: Frame)
    requires LooksLikeFragment(f)
    ensures var key := FragmentKey(f);
      var (chunk, transfer, out) := (ChunkIn(f), Transfer(buffers, key), CompleteFields(buffers, f));
      && (!Fits(buffers, f) || NoRoom(buffers, f) ==> out.1 == None && key !in out.0)
      && (Fits(buffers, f) && !NoRoom(buffers, f) && |transfer.0| + |chunk.text| < chunk.size.value ==>
            out.1 == None && key in out.0 && out.0[key] == (transfer.0 + chunk.text, chunk.size.value))
      && (Fits(buffers, f) && !NoRoom(buffers, f) && |transfer.0| + |chunk.text| == chunk.size.value ==>
            key !in out.0 && out.1 == FinishPayload(transfer.0 + chunk.text, DecodeFields(f.payload)))
  {
  }

  /**
   A complete transfer of Base64 text is answered with the fields of its bytes, unless another
   length was announced.
   */
  lemma FinishedIff(payload: string, fields: Fields)
    requires IsBytes(payload)
    ensures FinishPayload(Base64.Encode(payload), fields) ==
      if "decodedSize" in fields && ParseInt(fields["decodedSize"]) != Some(|payload|) then None
      else Some(DecodeFields(payload))
  {
    Base64.DecodeEncode(payload);
    DecodeIgnoresFinalNul(payload);
  }

  /** A small message that has both keys is taken for a fragment: on a fresh connection it is held back. */
  lemma LookalikeIsHeld(command: string, transaction: int)
    ensures var f := Frame(command, transaction, EncodeFields([("data", "x"), ("size", "2")]));
      var out := CompleteFields(map[], f);
      LooksLikeFragment(f) && out.1 == None && FragmentKey(f) in out.0 && out.0[FragmentKey(f)] == ("x", 2)
  {
    LookalikeFields("x", "2");
    ReadTwo("x", "2");
    HeldBack(Frame(command, transaction, EncodeFields([("data", "x"), ("size", "2")])), "x", "2");
  }

  lemma HeldBack(f: Frame, text: string, size: string)
    requires DecodeFields(f.payload) == map["data" := text, "size" := size]
    requires ChunkOf(text) == text && IsAscii(text) && SizeOf(size).Some? && |text| < SizeOf(size).value <= 100
    ensures LooksLikeFragment(f)
    ensures var out := CompleteFields(map[], f);
      out.1 == None && FragmentKey(f) in out.0 && out.0[FragmentKey(f)] == (text, SizeOf(size).value)
  {
    var (data, key) := ("data", "size");
    assert data[0] != key[0];
    FragmentKeptIff(map[], f);
    assert "" + text == text;
  }

  lemma LookalikeFields(x: string, two: string)
    requires Wire(x) && Wire(two)
    ensures DecodeFields(EncodeFields([("data", x), ("size", two)])) == map["data" := x, "size" := two]
  {
    KeysAreWire();
    CleanWire("data", x);
    CleanWire("size", two);
    var (a, b) := (("data", x), ("size", two));
    DecodeEncodeFields([a, b]);
    assert [a, b] == [a] + [b] && [b] == [b] + [];
    AssignOne(map[], "data", x, [b]);
    AssignOne(map[]["data" := x], "size", two, []);
  }

  lemma ReadTwo(x: string, two: string)
    requires x == "x" && two == "2"
    ensures SizeOf(two) == Some(2) && ChunkOf(x) == x && IsAscii(x)
  {
    SizeRoundTrip(2);
    assert Decimal(2) == two;
    UnescapeNothing(x, "%3d");
    UnescapeNothing(x, "%3D");
  }

  // ----- what any traffic leaves

  /** At most eight transfers are open, each short of its announced size and within the limit. */
  ghost predicate Bounded(buffers: Buffers) {
    && |buffers| <= MAX_ACTIVE_CHUNK_BUFFERS
    && forall k :: k in buffers ==>
         |buffers[k].0| < buffers[k].1 <= MAX_CHUNKED_PAYLOAD_ENCODED_SIZE && IsAscii(buffers[k].0)
  }

  lemma StoreKeepsBounds(buffers: Buffers, key: Key, size: int, chunk: string, fields: Fields)
    requires Bounded(buffers)
    ensures Bounded(StoreChunk(buffers, key, size, chunk, fields).0)
    ensures key !in buffers && |buffers| == MAX_ACTIVE_CHUNK_BUFFERS ==>
      StoreChunk(buffers, key, size, chunk, fields) == (buffers, None)
  {
    FewerBuffers(buffers, key);
    BoundedFewer(buffers, key);
    if key in buffers || |buffers| < MAX_ACTIVE_CHUNK_BUFFERS {
      var data := if key in buffers then buffers[key].0 else "";
      if |data + chunk| < size <= MAX_CHUNKED_PAYLOAD_ENCODED_SIZE && IsAscii(chunk) {
        BoundedMore(buffers, key, data + chunk, size);
      }
    }
  }

  lemma BoundedFewer(buffers: Buffers, key: Key)
    requires Bounded(buffers)
    ensures Bounded(buffers - {key})
  {
    FewerBuffers(buffers, key);
  }

  lemma BoundedMore(buffers: Buffers, key: Key, text: string, size: int)
    requires Bounded(buffers) && (key in buffers || |buffers| < MAX_ACTIVE_CHUNK_BUFFERS)
    requires |text| < size <= MAX_CHUNKED_PAYLOAD_ENCODED_SIZE && IsAscii(text)
    ensures Bounded(buffers[key := (text, size)])
  {
    MoreBuffers(buffers, key, (text, size));
  }

  lemma FewerBuffers(buffers: Buffers, key: Key)
    ensures |buffers - {key}| <= |buffers|
    ensures key !in buffers ==> buffers - {key} == buffers
  {
    var fewer := buffers - {key};
    assert fewer.Keys == buffers.Keys - {key};
  }

  lemma MoreBuffers(buffers: Buffers, key: Key, value: (string, int))
    ensures |buffers[key := value]| == |buffers| + if key in buffers then 0 else 1
  {
    assert buffers[key := value].Keys == buffers.Keys + {key};
  }

  function BuffersAfter(buffers: Buffers, frames: seq<Frame>): Buffers
    decreases |frames|
  {
    if frames == [] then buffers else BuffersAfter(CompleteFields(buffers, frames[0]).0, frames[1..])
  }

  /** Whatever frames arrive, what a connection holds stays bounded. */
  lemma {:induction false} AnyTrafficIsBounded(buffers: Buffers, frames: seq<Frame>)
    requires Bounded(buffers)
    ensures Bounded(BuffersAfter(buffers, frames))
    decreases |frames|
  {
    if frames != [] {
      FrameKeepsBounds(buffers, frames[0]);
      AnyTrafficIsBounded(CompleteFields(buffers, frames[0]).0, frames[1..]);
    }
  }

  lemma FrameKeepsBounds(buffers: Buffers, f: Frame)
    requires Bounded(buffers)
    ensures Bounded(CompleteFields(buffers, f).0)
  {
    var fields := DecodeFields(f.payload);
    if "data" in fields && "size" in fields {
      FewerBuffers(buffers, FragmentKey(f));
      if SizeOf(fields["size"]).Some? {
        StoreKeepsBounds(buffers, FragmentKey(f), SizeOf(fields["size"]).value, ChunkOf(fields["data"]), fields);
      }
    }
  }

  class FESLConnection {
    var chunkBuffers: Buffers

    constructor ()
      ensures chunkBuffers == map[]
    {
      chunkBuffers := map[];
    }

    method Complete(f: Frame) returns (result: Option<Fields>)
      modifies this
      ensures (chunkBuffers, result) == CompleteFields(old(chunkBuffers), f)
    {
      var fields := ReadFields(f.payload);
      if "data" !in fields || "size" !in fields {
        return Some(fields);
      }
      var key := FragmentKey(f);
      var oldData, oldSize := "", 0;
      if key in chunkBuffers {
        oldData, oldSize := chunkBuffers[key].0, chunkBuffers[key].1;
      }
      result := None;
      var parsed := SizeOf(fields["size"]);
      if parsed.None? {
        chunkBuffers := chunkBuffers - {key};
        return;
      }
      var size := parsed.value;
      if size <= 0 || size > MAX_CHUNKED_PAYLOAD_ENCODED_SIZE || (oldSize != 0 && oldSize != size) {
        chunkBuffers := chunkBuffers - {key};
        return;
      }
      if key !in chunkBuffers && |chunkBuffers| >= MAX_ACTIVE_CHUNK_BUFFERS {
        return;
      }
      var chunk := ChunkOf(fields["data"]);
      if !IsAscii(chunk) {
        chunkBuffers := chunkBuffers - {key};
        return;
      }
      var encoded := oldData + chunk;
      if |encoded| < size {
        chunkBuffers := chunkBuffers[key := (encoded, size)];
        return;
      }
      chunkBuffers := chunkBuffers - {key};
      if |encoded| == size {
        result := FinishPayload(encoded, fields);
      }
    }
  }

  // ----- one fragment

  lemma {:induction false} UnescapeNothing(s: string, pattern: string)
    requires |pattern| == 3 && pattern[0] !in s
    ensures Unescape(s, pattern) == s
  {
    if s != [] {
      UnescapeNothing(s[1..], pattern);
    }
  }

  lemma {:induction false} UnescapeEscaped(s: string)
    requires '%' !in s
    ensures Unescape(EscapePadding(s), "%3d") == s
  {
    if s != [] {
      var head := if s[0] == '=' then "%3d" else [s[0]];
      var e := EscapePadding(s);
      assert e == head + EscapePadding(s[1..]);
      assert e[|head|..] == EscapePadding(s[1..]);
      UnescapeEscaped(s[1..]);
      if s[0] == '=' {
        assert e[..3] == "%3d";
      } else {
        assert e[0] == s[0] && s[0] in s;
        assert |e| >= 3 ==> e[..3][0] == s[0] && e[..3] != "%3d";
      }
    }
  }

  /** Text that a field value and the padding escape both carry unchanged. */
  predicate Wire(s: string) {
    forall k :: 0 <= k < |s| ==> 0x21 <= s[k] as int < 0x7F
  }

  lemma {:induction false} WireIsClean(s: string)
    requires Wire(s)
    ensures Trimmed(s) && FirstBreak(s) == |s|
  {
    if s != [] {
      WireIsClean(s[1..]);
    }
  }

  lemma {:induction false} EscapeIsWire(s: string)
    requires Base64.Base64Text(s)
    ensures Wire(EscapePadding(s)) && '%' !in s
  {
    if s != [] {
      EscapeIsWire(s[1..]);
    }
  }

  lemma DigitsAreWire(n: nat)
    ensures Wire(Decimal(n))
  {
    var s := Decimal(n);
    assert forall k :: 0 <= k < |s| ==> s[k] in s;
  }

  lemma CleanWire(key: string, value: string)
    requires Wire(key) && Wire(value) && '=' !in key
    ensures CleanField(key, value)
  {
    WireIsClean(key);
    WireIsClean(value);
  }

  lemma AssignOne(fields: Fields, key: string, value: string, rest: FieldList)
    ensures Assign(fields, [(key, value)] + rest) == Assign(fields[key := value], rest)
  {
    assert ([(key, value)] + rest)[1..] == rest;
  }

  lemma DecodeThree(i: string, a: string, j: string, b: string, k: string, c: string)
    requires CleanField(i, a) && CleanField(j, b) && CleanField(k, c)
    ensures DecodeFields(EncodeFields([(i, a), (j, b), (k, c)])) == map[][i := a][j := b][k := c]
  {
    var (x, y, z) := ((i, a), (j, b), (k, c));
    DecodeEncodeFields([x, y, z]);
    assert [x, y, z] == [x] + [y, z] && [y, z] == [y] + [z] && [z] == [z] + [];
    AssignOne(map[], i, a, [y, z]);
    AssignOne(map[][i := a], j, b, [z]);
    AssignOne(map[][i := a][j := b], k, c, []);
  }

  lemma SizeRoundTrip(n: nat)
    requires n <= MAX_CHUNKED_PAYLOAD_ENCODED_SIZE
    ensures ParseInt(Decimal(n)) == Some(n)
  {
    DecimalLength(n);
    ParseDecimal(n);
  }

  function FragmentMap(m: string, n: string, data: string): Fields {
    map[]["decodedSize" := m]["size" := n]["data" := data]
  }

  lemma KeysAreWire()
    ensures Wire("decodedSize") && '=' !in "decodedSize"
    ensures Wire("size") && '=' !in "size"
    ensures Wire("data") && '=' !in "data"
  {
  }

  lemma CleanFragment(m: string, n: string, data: string)
    requires Wire(m) && Wire(n) && Wire(data)
    ensures CleanField("decodedSize", m) && CleanField("size", n) && CleanField("data", data)
  {
    KeysAreWire();
    CleanWire("decodedSize", m);
    CleanWire("size", n);
    CleanWire("data", data);
  }

  lemma ReadBody(m: string, n: string, data: string)
    requires Wire(m) && Wire(n) && Wire(data)
    ensures DecodeFields(FragmentBody(m, n, data)) == FragmentMap(m, n, data)
  {
    CleanFragment(m, n, data);
    DecodeThree("decodedSize", m, "size", n, "data", data);
  }

  lemma ReadFragment(f: Frame, slice: string)
    requires IsBytes(f.payload) && Base64.Base64Text(slice)
    ensures DecodeFields(Fragment(f, slice).payload)
      == FragmentMap(Decimal(|Logical(f.payload)|), Decimal(|Encoded(f)|), EscapePadding(slice))
  {
    DigitsAreWire(|Logical(f.payload)|);
    DigitsAreWire(|Encoded(f)|);
    EscapeIsWire(slice);
    ReadBody(Decimal(|Logical(f.payload)|), Decimal(|Encoded(f)|), EscapePadding(slice));
  }

  /** What the receiver reads from a fragment is exactly what the sender put into it. */
  lemma FragmentFields(f: Frame, slice: string)
    requires IsBytes(f.payload) && Base64.Base64Text(slice)
    requires |Encoded(f)| <= MAX_CHUNKED_PAYLOAD_ENCODED_SIZE
    ensures var fields := DecodeFields(Fragment(f, slice).payload);
      && fields.Keys == {"decodedSize", "size", "data"}
      && ParseInt(fields["decodedSize"]) == Some(|Logical(f.payload)|)
      && SizeOf(fields["size"]) == Some(|Encoded(f)|)
      && ChunkOf(fields["data"]) == slice
  {
    ReadFragment(f, slice);
    Base64.EncodeLength(Logical(f.payload));
    SizeRoundTrip(|Logical(f.payload)|);
    SizeRoundTrip(|Encoded(f)|);
    DataRoundTrip(slice);
    var fields := DecodeFields(Fragment(f, slice).payload);
    var (a, b, c) := ("decodedSize", "size", "data");
    assert |a| == 11 && |b| == 4 && |c| == 4 && b[0] != c[0];
    assert fields == map[][a := fields[a]][b := fields[b]][c := fields[c]];
  }

  lemma DataRoundTrip(slice: string)
    requires Base64.Base64Text(slice)
    ensures Unescape(Unescape(EscapePadding(slice), "%3d"), "%3D") == slice
  {
    EscapeIsWire(slice);
    UnescapeEscaped(slice);
    UnescapeNothing(slice, "%3D");
  }
}
