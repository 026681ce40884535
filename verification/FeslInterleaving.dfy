/**
 The round trip from `packetize_frame` to `_complete_fields` when the fragments of
 several messages arrive interleaved on one connection.
 */
module FeslInterleaving {
  import opened Collections
  import opened Options
  import opened LatinText
  import opened FeslFields
  import opened FeslStream
  import opened FeslReassembly
  import Base64

  /** A message that is split: over the fragment limit, within the receiver's size limit. */
  predicate Oversized(f: Frame, limit: int) {
    0 < limit < |f.payload| && IsBytes(f.payload) && |Encoded(f)| <= MAX_CHUNKED_PAYLOAD_ENCODED_SIZE
  }

  /** A message that is sent as it is, and that the receiver cannot take for a fragment. */
  predicate Plain(f: Frame, limit: int) {
    0 < limit && |f.payload| <= limit && IsBytes(f.payload) && !LooksLikeFragment(f)
  }

  predicate Sendable(f: Frame, limit: int) {
    Oversized(f, limit) || Plain(f, limit)
  }

  /** The frames that the sender makes of a message. */
  function Fragments(f: Frame, limit: int): seq<Frame>
    requires Sendable(f, limit)
  {
    PacketizeFrame(f, limit).value
  }

  /** The number of those frames. */
  function Parts(f: Frame, limit: int): (n: nat)
    requires Sendable(f, limit)
    ensures n == |Fragments(f, limit)|
  {
    if Oversized(f, limit) then |MessageSlices(f, limit)| else 1
  }

  function MessageSlices(f: Frame, limit: int): seq<string>
    requires Oversized(f, limit)
  {
    Slices(Encoded(f), limit)
  }

  function SenderKey(f: Frame): Key {
    (f.command, f.transaction % TOKEN)
  }

  function WireKey(f: Frame): Key {
    (f.command, f.transaction % TOKEN + FRAGMENT_MARK)
  }

  // ----- slices

  lemma FlattenOne(s: string)
    ensures Flatten([s]) == s
  {
    assert [s][1..] == [];
    assert s + [] == s;
  }

  lemma {:induction false} SlicesMakeWhole(e: string, limit: nat)
    requires limit > 0
    ensures Flatten(Slices(e, limit)) == e
    ensures forall k :: 0 <= k < |Slices(e, limit)| ==> Slices(e, limit)[k] != []
    ensures Base64.Base64Text(e) ==> forall k :: 0 <= k < |Slices(e, limit)| ==> Base64.Base64Text(Slices(e, limit)[k])
    ensures |e| > limit ==> |Slices(e, limit)| >= 2
    decreases |e|
  {
    if |e| > limit {
      SlicesMakeWhole(e[limit..], limit);
      var rest := Slices(e[limit..], limit);
      assert Slices(e, limit) == [e[..limit]] + rest;
      FlattenPlus([e[..limit]], rest);
      FlattenOne(e[..limit]);
    } else if e != [] {
      FlattenOne(e);
    }
  }

  lemma {:induction false} FlattenNonEmpty(a: seq<string>)
    requires a != [] && forall k :: 0 <= k < |a| ==> a[k] != []
    ensures Flatten(a) != []
  {
  }

  /** The text received after `c` fragments, and how the next one extends it. */
  lemma ReceivedSoFar(f: Frame, limit: int, c: nat)
    requires Oversized(f, limit) && c < |MessageSlices(f, limit)|
    ensures var s := MessageSlices(f, limit);
      && Flatten(s[..c + 1]) == Flatten(s[..c]) + s[c]
      && Base64.Base64Text(s[c])
      && |Flatten(s[..c])| < |Encoded(f)|
      && (c + 1 == |s| <==> Flatten(s[..c + 1]) == Encoded(f))
      && |Flatten(s[..c + 1])| <= |Encoded(f)|
      && (c + 1 < |s| ==> |Flatten(s[..c + 1])| < |Encoded(f)|)
  {
    var s := MessageSlices(f, limit);
    SlicesMakeWhole(Encoded(f), limit);
    Base64.EncodeText(Logical(f.payload));
    assert s[..c + 1] == s[..c] + [s[c]];
    FlattenPlus(s[..c], [s[c]]);
    FlattenOne(s[c]);
    assert s == s[..c + 1] + s[c + 1..];
    FlattenPlus(s[..c + 1], s[c + 1..]);
    if c + 1 < |s| {
      FlattenNonEmpty(s[c + 1..]);
    } else {
      assert s[..c + 1] == s;
    }
  }

  // ----- one step of the receiver

  lemma WireKeyOfFragment(f: Frame, slice: string)
    requires IsBytes(f.payload)
    ensures FragmentKey(Fragment(f, slice)) == WireKey(f)
  {
  }

  lemma FinishWholeMessage(f: Frame, slice: string)
    requires IsBytes(f.payload) && Base64.Base64Text(slice)
    requires |Encoded(f)| <= MAX_CHUNKED_PAYLOAD_ENCODED_SIZE
    ensures FinishPayload(Encoded(f), DecodeFields(Fragment(f, slice).payload)) == Some(DecodeFields(f.payload))
  {
    FragmentFields(f, slice);
    Base64.DecodeEncode(Logical(f.payload));
    if f.payload != [] && f.payload[|f.payload| - 1] == NUL {
      assert Logical(f.payload) + [NUL] == f.payload;
    } else {
      DecodeIgnoresFinalNul(f.payload);
    }
  }

  /** The state that `c` fragments of message `f` leave under its key. */
  predicate Holds(buffers: Buffers, f: Frame, limit: int, c: nat)
    requires Sendable(f, limit) && c <= Parts(f, limit)
  {
    Oversized(f, limit) ==>
      if 0 < c < Parts(f, limit)
      then WireKey(f) in buffers && buffers[WireKey(f)] == (Flatten(MessageSlices(f, limit)[..c]), |Encoded(f)|)
      else WireKey(f) !in buffers
  }

  lemma StoreNext(buffers: Buffers, f: Frame, limit: int, c: nat, fields: Fields)
    requires Oversized(f, limit) && c < |MessageSlices(f, limit)|
    requires Holds(buffers, f, limit, c)
    requires c == 0 ==> |buffers| < MAX_ACTIVE_CHUNK_BUFFERS
    ensures var s := MessageSlices(f, limit);
      StoreChunk(buffers, WireKey(f), |Encoded(f)|, s[c], fields) ==
        if c + 1 < |s| then (buffers[WireKey(f) := (Flatten(s[..c + 1]), |Encoded(f)|)], None)
        else (buffers - {WireKey(f)}, FinishPayload(Encoded(f), fields))
  {
    var s := MessageSlices(f, limit);
    ReceivedSoFar(f, limit, c);
    assert s[..0] == [] && Flatten(s[..0]) == [];
    assert [] + s[c] == s[c];
  }

  lemma NextFragment(buffers: Buffers, f: Frame, limit: int, c: nat)
    requires Oversized(f, limit) && c < |MessageSlices(f, limit)|
    requires Holds(buffers, f, limit, c)
    requires c == 0 ==> |buffers| < MAX_ACTIVE_CHUNK_BUFFERS
    ensures var s := MessageSlices(f, limit);
      CompleteFields(buffers, Fragments(f, limit)[c]) ==
        if c + 1 < |s| then (buffers[WireKey(f) := (Flatten(s[..c + 1]), |Encoded(f)|)], None)
        else (buffers - {WireKey(f)}, Some(DecodeFields(f.payload)))
  {
    var slice := MessageSlices(f, limit)[c];
    var fragment := Fragment(f, slice);
    assert Fragments(f, limit)[c] == fragment;
    ReceivedSoFar(f, limit, c);
    FragmentFields(f, slice);
    WireKeyOfFragment(f, slice);
    FinishWholeMessage(f, slice);
    StoreNext(buffers, f, limit, c, DecodeFields(fragment.payload));
  }

  /** The buffers after the frame with index `c` of a message. */
  function AfterFrame(buffers: Buffers, f: Frame, limit: int, c: nat): Buffers
    requires Sendable(f, limit) && c < Parts(f, limit)
  {
    if !Oversized(f, limit) then buffers
    else if c + 1 < Parts(f, limit) then
      buffers[WireKey(f) := (Flatten(MessageSlices(f, limit)[..c + 1]), |Encoded(f)|)]
    else buffers - {WireKey(f)}
  }

  /** The next frame of a message of any size. */
  lemma NextFrame(buffers: Buffers, f: Frame, limit: int, c: nat)
    requires Sendable(f, limit) && c < Parts(f, limit) && Holds(buffers, f, limit, c)
    requires Oversized(f, limit) && c == 0 ==> |buffers| < MAX_ACTIVE_CHUNK_BUFFERS
    ensures CompleteFields(buffers, Fragments(f, limit)[c]) ==
      (AfterFrame(buffers, f, limit, c), if c + 1 == Parts(f, limit) then Some(DecodeFields(f.payload)) else None)
  {
    if Oversized(f, limit) {
      NextFragment(buffers, f, limit, c);
    } else {
      PlainFrameAnswered(buffers, f);
    }
  }

  // ----- any interleaving

  /** How often a schedule of message indices names message `i`. */
  function Count(schedule: seq<nat>, i: nat): nat {
    if schedule == [] then 0
    else Count(schedule[..|schedule| - 1], i) + if schedule[|schedule| - 1] == i then 1 else 0
  }

  predicate BothSplit(f: Frame, g: Frame, limit: int) {
    Oversized(f, limit) && Oversized(g, limit)
  }

  /** Messages of any size; the command and the 28-bit token tell those apart that are split. */
  predicate Distinguishable(messages: seq<Frame>, limit: int) {
    && (forall i :: 0 <= i < |messages| ==> Sendable(messages[i], limit))
    && (forall i, j :: 0 <= i < j < |messages| && BothSplit(messages[i], messages[j], limit) ==>
          SenderKey(messages[i]) != SenderKey(messages[j]))
  }

  /** A schedule that names existing messages, none more often than it has fragments. */
  predicate Legal(messages: seq<Frame>, limit: int, schedule: seq<nat>)
    requires Distinguishable(messages, limit)
  {
    && (forall k :: 0 <= k < |schedule| ==> schedule[k] < |messages|)
    && (forall i :: 0 <= i < |messages| ==> Count(schedule, i) <= Parts(messages[i], limit))
  }

  /** The messages that have begun to arrive and are not complete. */
  function Open(messages: seq<Frame>, limit: int, schedule: seq<nat>): set<nat>
    requires Distinguishable(messages, limit)
  {
    set i: nat | i < |messages| && 0 < Count(schedule, i) < Parts(messages[i], limit)
  }

  predicate NeverTooManyOpen(messages: seq<Frame>, limit: int, schedule: seq<nat>)
    requires Distinguishable(messages, limit)
  {
    forall n :: 0 <= n <= |schedule| ==> |Open(messages, limit, schedule[..n])| <= MAX_ACTIVE_CHUNK_BUFFERS
  }

  lemma LegalPrefix(messages: seq<Frame>, limit: int, schedule: seq<nat>)
    requires Distinguishable(messages, limit) && Legal(messages, limit, schedule) && schedule != []
    ensures Legal(messages, limit, schedule[..|schedule| - 1])
    ensures Count(schedule[..|schedule| - 1], schedule[|schedule| - 1])
      < Parts(messages[schedule[|schedule| - 1]], limit)
  {
    var (before, j) := (schedule[..|schedule| - 1], schedule[|schedule| - 1]);
    assert Count(schedule, j) == Count(before, j) + 1;
    forall i | 0 <= i < |messages| ensures Count(before, i) <= Parts(messages[i], limit) {
      assert Count(before, i) <= Count(schedule, i);
    }
  }

  /** The receiver's buffers after the schedule, from empty ones, and its last answer. */
  function Receive(messages: seq<Frame>, limit: int, schedule: seq<nat>): (r: (Buffers, Option<Fields>))
    requires Distinguishable(messages, limit) && Legal(messages, limit, schedule)
    decreases |schedule|
  {
    if schedule == [] then (map[], None)
    else
      LegalPrefix(messages, limit, schedule);
      var (before, j) := (schedule[..|schedule| - 1], schedule[|schedule| - 1]);
      CompleteFields(Receive(messages, limit, before).0, Fragments(messages[j], limit)[Count(before, j)])
  }

  ghost predicate Tracks(buffers: Buffers, messages: seq<Frame>, limit: int, schedule: seq<nat>)
    requires Distinguishable(messages, limit) && Legal(messages, limit, schedule)
  {
    && (forall i :: 0 <= i < |messages| ==> Holds(buffers, messages[i], limit, Count(schedule, i)))
    && (forall key :: key in buffers ==>
      exists i :: i in Open(messages, limit, schedule) && WireKey(messages[i]) == key)
  }

  lemma {:induction false} ImageSize(messages: seq<Frame>, keys: set<Key>, indices: set<nat>)
    requires forall i :: i in indices ==> i < |messages|
    requires forall key :: key in keys ==> exists i :: i in indices && WireKey(messages[i]) == key
    ensures |keys| <= |indices|
    decreases |keys|
  {
    if keys != {} {
      var key :| key in keys;
      var i :| i in indices && WireKey(messages[i]) == key;
      forall other | other in keys - {key}
        ensures exists n :: n in indices - {i} && WireKey(messages[n]) == other
      {
        var n :| n in indices && WireKey(messages[n]) == other;
        assert n in indices - {i};
      }
      ImageSize(messages, keys - {key}, indices - {i});
    }
  }

  lemma KeysStayApart(messages: seq<Frame>, limit: int)
    requires Distinguishable(messages, limit)
    ensures forall i, j :: 0 <= i < |messages| && 0 <= j < |messages| && i != j ==>
      BothSplit(messages[i], messages[j], limit) ==> WireKey(messages[i]) != WireKey(messages[j])
  {
    forall i, j | 0 <= i < |messages| && 0 <= j < |messages| && i != j && BothSplit(messages[i], messages[j], limit)
      ensures WireKey(messages[i]) != WireKey(messages[j])
    {
      assert SenderKey(messages[if i < j then i else j]) != SenderKey(messages[if i < j then j else i]);
    }
  }

  /**
   Messages of any size, fed in any order that keeps each message's own fragment order, with
   never more than eight open at once: every frame but a message's last returns nothing,
   the last (or only) one returns exactly the fields of the original payload, and the
   buffers hold the received prefixes of the open messages and nothing else.
   */
  lemma {:induction false} InterleavedRoundTrip(messages: seq<Frame>, limit: int, schedule: seq<nat>)
    requires Distinguishable(messages, limit) && Legal(messages, limit, schedule)
    requires NeverTooManyOpen(messages, limit, schedule)
    ensures Tracks(Receive(messages, limit, schedule).0, messages, limit, schedule)
    ensures schedule != [] ==>
      var j := schedule[|schedule| - 1];
      Receive(messages, limit, schedule).1 ==
        if Count(schedule, j) == |Fragments(messages[j], limit)| then Some(DecodeFields(messages[j].payload)) else None
    decreases |schedule|
  {
    if schedule != [] {
      LegalPrefix(messages, limit, schedule);
      var (before, j) := (schedule[..|schedule| - 1], schedule[|schedule| - 1]);
      FewerOpen(messages, limit, schedule);
      InterleavedRoundTrip(messages, limit, before);
      var buffers := Receive(messages, limit, before).0;
      RoomToOpen(messages, limit, schedule, buffers);
      ReceiveLast(messages, limit, schedule);
      TracksNext(messages, limit, schedule, buffers);
    }
  }

  lemma FewerOpen(messages: seq<Frame>, limit: int, schedule: seq<nat>)
    requires Distinguishable(messages, limit) && NeverTooManyOpen(messages, limit, schedule) && schedule != []
    ensures NeverTooManyOpen(messages, limit, schedule[..|schedule| - 1])
    ensures |Open(messages, limit, schedule)| <= MAX_ACTIVE_CHUNK_BUFFERS
  {
    var before := schedule[..|schedule| - 1];
    forall n | 0 <= n <= |before|
      ensures |Open(messages, limit, before[..n])| <= MAX_ACTIVE_CHUNK_BUFFERS
    {
      assert before[..n] == schedule[..n];
    }
    assert schedule[..|schedule|] == schedule;
  }

  lemma ReceiveLast(messages: seq<Frame>, limit: int, schedule: seq<nat>)
    requires Distinguishable(messages, limit) && Legal(messages, limit, schedule) && schedule != []
    requires Legal(messages, limit, schedule[..|schedule| - 1])
    requires var (before, j) := (schedule[..|schedule| - 1], schedule[|schedule| - 1]);
      var buffers := Receive(messages, limit, before).0;
      && Holds(buffers, messages[j], limit, Count(before, j))
      && (Oversized(messages[j], limit) && Count(before, j) == 0 ==> |buffers| < MAX_ACTIVE_CHUNK_BUFFERS)
    ensures var (before, j) := (schedule[..|schedule| - 1], schedule[|schedule| - 1]);
      Receive(messages, limit, schedule) ==
        (Stored(Receive(messages, limit, before).0, messages, limit, schedule),
         if Count(schedule, j) == |Fragments(messages[j], limit)| then Some(DecodeFields(messages[j].payload))
           else None)
  {
    LegalPrefix(messages, limit, schedule);
    var (before, j) := (schedule[..|schedule| - 1], schedule[|schedule| - 1]);
    NextFrame(Receive(messages, limit, before).0, messages[j], limit, Count(before, j));
  }

  lemma {:induction false} RoomToOpen(messages: seq<Frame>, limit: int, schedule: seq<nat>, buffers: Buffers)
    requires Distinguishable(messages, limit) && Legal(messages, limit, schedule) && schedule != []
    requires |Open(messages, limit, schedule)| <= MAX_ACTIVE_CHUNK_BUFFERS
    requires Legal(messages, limit, schedule[..|schedule| - 1])
    requires Tracks(buffers, messages, limit, schedule[..|schedule| - 1])
    ensures var (before, j) := (schedule[..|schedule| - 1], schedule[|schedule| - 1]);
      Oversized(messages[j], limit) && Count(before, j) == 0 ==> |buffers| < MAX_ACTIVE_CHUNK_BUFFERS
  {
    var (before, j) := (schedule[..|schedule| - 1], schedule[|schedule| - 1]);
    if Oversized(messages[j], limit) && Count(before, j) == 0 {
      var open := Open(messages, limit, before);
      AtLeastTwoParts(messages[j], limit);
      OneMoreOpen(messages, limit, schedule);
      SubsetSize(open + {j}, Open(messages, limit, schedule));
      BuffersAreOpen(messages, limit, before, buffers);
    }
  }

  lemma {:induction false} BuffersAreOpen(messages: seq<Frame>, limit: int, schedule: seq<nat>, buffers: Buffers)
    requires Distinguishable(messages, limit) && Legal(messages, limit, schedule)
    requires Tracks(buffers, messages, limit, schedule)
    ensures |buffers| <= |Open(messages, limit, schedule)|
  {
    ImageSize(messages, buffers.Keys, Open(messages, limit, schedule));
    assert |buffers.Keys| == |buffers|;
  }

  lemma AtLeastTwoParts(f: Frame, limit: int)
    requires Oversized(f, limit)
    ensures Parts(f, limit) >= 2
  {
    SlicesMakeWhole(Encoded(f), limit);
    Base64.EncodeLength(Logical(f.payload));
  }

  /** The first fragment of a message opens it. */
  lemma OneMoreOpen(messages: seq<Frame>, limit: int, schedule: seq<nat>)
    requires Distinguishable(messages, limit) && Legal(messages, limit, schedule) && schedule != []
    requires Legal(messages, limit, schedule[..|schedule| - 1])
    requires var j := schedule[|schedule| - 1];
      Parts(messages[j], limit) >= 2 && Count(schedule[..|schedule| - 1], j) == 0
    ensures var (before, j) := (schedule[..|schedule| - 1], schedule[|schedule| - 1]);
      j !in Open(messages, limit, before) && Open(messages, limit, before) + {j} <= Open(messages, limit, schedule)
  {
    var (before, j) := (schedule[..|schedule| - 1], schedule[|schedule| - 1]);
    forall i: nat ensures Count(schedule, i) == Count(before, i) + if i == j then 1 else 0 {
    }
  }

  /** The buffers after the last step of the schedule, from those before it. */
  function Stored(buffers: Buffers, messages: seq<Frame>, limit: int, schedule: seq<nat>): Buffers
    requires Distinguishable(messages, limit) && Legal(messages, limit, schedule) && schedule != []
  {
    var j := schedule[|schedule| - 1];
    LegalPrefix(messages, limit, schedule);
    AfterFrame(buffers, messages[j], limit, Count(schedule[..|schedule| - 1], j))
  }

  lemma TracksNext(messages: seq<Frame>, limit: int, schedule: seq<nat>, buffers: Buffers)
    requires Distinguishable(messages, limit) && Legal(messages, limit, schedule) && schedule != []
    requires Legal(messages, limit, schedule[..|schedule| - 1])
    requires Tracks(buffers, messages, limit, schedule[..|schedule| - 1])
    ensures Tracks(Stored(buffers, messages, limit, schedule), messages, limit, schedule)
  {
    var (before, j) := (schedule[..|schedule| - 1], schedule[|schedule| - 1]);
    var after := Stored(buffers, messages, limit, schedule);
    KeysStayApart(messages, limit);
    forall i | 0 <= i < |messages| ensures Holds(after, messages[i], limit, Count(schedule, i)) {
      if i != j {
        assert Holds(buffers, messages[i], limit, Count(before, i)) && Count(schedule, i) == Count(before, i);
        assert BothSplit(messages[i], messages[j], limit) ==> WireKey(messages[i]) != WireKey(messages[j]);
      }
    }
    forall key | key in after
      ensures exists i :: i in Open(messages, limit, schedule) && WireKey(messages[i]) == key
    {
      if Oversized(messages[j], limit) && key == WireKey(messages[j]) {
        assert j in Open(messages, limit, schedule);
      } else {
        var i :| i in Open(messages, limit, before) && WireKey(messages[i]) == key;
        assert i in Open(messages, limit, schedule);
      }
    }
  }
}
