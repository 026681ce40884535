/** The receiving side of the signed JSON-lines channel (server/common/ipc.py). */
module IpcLines {
  import opened Collections
  import opened Options
  import opened LatinText

  const PROTOCOL := "nfs-online-ipc-v2"
  const RECV: nat := 65536

  datatype Payload = Payload(text: string)

  /** What a signature covers. */
  datatype Unsigned = Unsigned(instance: string, sequence: int, sentAt: real, payload: Payload)

  /** A parsed envelope; a number that cannot be converted, or is not finite, is None. */
  datatype Message = Message(
    protocol: string,
    instance: string,
    signature: string,
    sequence: Option<int>,
    sentAt: Option<real>,
    payload: Option<Payload>)

  /** JSON, HMAC and case folding are functions of their text. */
  datatype Rules = Rules(
    limit: nat,
    skew: real,
    read: string -> Option<Message>,
    sign: Unsigned -> string,
    fold: string -> string)

  /** The sequence table and everything handed to the message handler. */
  datatype Server = Server(last: map<string, int>, log: seq<Unsigned>)

  function Last(last: map<string, int>, instance: string): int {
    if instance in last then last[instance] else 0
  }

  /** A message that is signed, complete and of this minute, or nothing. */
  function Authentic(rules: Rules, now: real, m: Message): Option<Unsigned> {
    var instance := Strip(m.instance);
    var signature := rules.fold(Strip(m.signature));
    if m.protocol != PROTOCOL || m.sequence.None? || m.sentAt.None? || m.payload.None? then None
    else if instance == "" || m.sequence.value <= 0 || |signature| != 64 then None
    else if now - m.sentAt.value > rules.skew || m.sentAt.value - now > rules.skew then None
    else
      var u := Unsigned(instance, m.sequence.value, m.sentAt.value, m.payload.value);
      if signature == rules.sign(u) then Some(u) else None
  }

  function Verify(rules: Rules, now: real, server: Server, m: Message): Option<Server> {
    match Authentic(rules, now, m)
    case None => None
    case Some(u) =>
      if u.sequence <= Last(server.last, u.instance) then None
      else Some(Server(server.last[u.instance := u.sequence], server.log + [u]))
  }

  predicate Blank(raw: string) {
    forall i :: 0 <= i < |raw| ==> 9 <= raw[i] as int <= 13 || raw[i] == ' '
  }

  /** The server after one line, or nothing when the line ends the connection. */
  function Consume(rules: Rules, now: real, server: Server, raw: string): Option<Server> {
    if Blank(raw) then Some(server)
    else if |raw| > rules.limit then None
    else
      match rules.read(raw)
      case None => None
      case Some(m) => Verify(rules, now, server, m)
  }

  // ----- one connection

  datatype Session = Session(server: Server, buffer: string, live: bool)

  /** The lines a buffer holds, and the part of a line that is left. */
  function Drain(rules: Rules, now: real, server: Server, text: string): Session
    decreases |text|
  {
    var n := IndexOf(text, '\n');
    if n == |text| then Session(server, text, |text| <= rules.limit)
    else
      match Consume(rules, now, server, text[..n])
      case None => Session(server, text[n + 1..], false)
      case Some(next) => Drain(rules, now, next, text[n + 1..])
  }

  /** One answer of `recv`: no bytes mean that the peer is done. */
  function Receive(rules: Rules, now: real, s: Session, chunk: string): Session {
    if !s.live then s
    else if chunk == "" then s.(live := false)
    else Drain(rules, now, s.server, s.buffer + chunk)
  }

  function FeedAll(rules: Rules, now: real, s: Session, chunks: seq<string>): Session
    decreases |chunks|
  {
    if chunks == [] then s else FeedAll(rules, now, Receive(rules, now, s, chunks[0]), chunks[1..])
  }

  /** A way `recv` may cut a stream. */
  ghost predicate Cutting(chunks: seq<string>, stream: string) {
    Flatten(chunks) == stream && forall i :: 0 <= i < |chunks| ==> 0 < |chunks[i]| <= RECV
  }

  // ----- every line looked at on its own

  /** The longest blank line any cutting can get past the limit. */
  function Reach(rules: Rules): nat {
    rules.limit + RECV - 1
  }

  /** The lines of a whole stream when blank lines longer than `bound` end the connection. */
  function Lines(rules: Rules, now: real, bound: nat, server: Server, text: string): Session
    decreases |text|
  {
    var n := IndexOf(text, '\n');
    if n == |text| then Session(server, text, |text| <= rules.limit)
    else if Blank(text[..n]) && n > bound then Session(server, text[n + 1..], false)
    else
      match Consume(rules, now, server, text[..n])
      case None => Session(server, text[n + 1..], false)
      case Some(next) => Lines(rules, now, bound, next, text[n + 1..])
  }

  lemma {:induction false} IndexOfPlus(s: string, t: string, c: char)
    ensures var n := IndexOf(s, c);
            && c !in s[..n] && (n < |s| ==> s[n] == c)
            && IndexOf(s + t, c) == if n < |s| then n else |s| + IndexOf(t, c)
  {
    if s == "" {
      assert s + t == t;
    } else {
      assert (s + t)[1..] == s[1..] + t;
      if s[0] != c {
        IndexOfPlus(s[1..], t, c);
        var n := IndexOf(s, c);
        assert s[..n] == [s[0]] + s[1..][..n - 1];
      }
    }
  }

  lemma {:induction false} DrainIsLines(rules: Rules, now: real, server: Server, text: string, bound: nat)
    requires |text| <= bound + 1
    ensures Drain(rules, now, server, text) == Lines(rules, now, bound, server, text)
    decreases |text|
  {
    var n := IndexOf(text, '\n');
    if n < |text| {
      match Consume(rules, now, server, text[..n])
      case None =>
      case Some(next) => DrainIsLines(rules, now, next, text[n + 1..], bound);
    }
  }

  lemma {:induction false} LinesGrow(rules: Rules, now: real, bound: nat, server: Server, text: string)
    ensures server.log <= Lines(rules, now, bound, server, text).server.log
    ensures Lines(rules, now, bound, server, text).live ==>
              '\n' !in Lines(rules, now, bound, server, text).buffer
              && |Lines(rules, now, bound, server, text).buffer| <= rules.limit
    decreases |text|
  {
    var n := IndexOf(text, '\n');
    IndexOfPlus(text, "", '\n');
    if n < |text| {
      match Consume(rules, now, server, text[..n])
      case None =>
      case Some(next) => LinesGrow(rules, now, bound, next, text[n + 1..]);
    } else {
      assert text[..n] == text;
    }
  }

  lemma {:induction false} FeedGrows(rules: Rules, now: real, s: Session, chunks: seq<string>)
    requires s.live ==> |s.buffer| <= rules.limit
    requires forall i :: 0 <= i < |chunks| ==> 0 < |chunks[i]| <= RECV
    ensures s.server.log <= FeedAll(rules, now, s, chunks).server.log
    ensures !s.live ==> FeedAll(rules, now, s, chunks) == s
    decreases |chunks|
  {
    if chunks != [] {
      if s.live {
        DrainIsLines(rules, now, s.server, s.buffer + chunks[0], Reach(rules));
        LinesGrow(rules, now, Reach(rules), s.server, s.buffer + chunks[0]);
      }
      FeedGrows(rules, now, Receive(rules, now, s, chunks[0]), chunks[1..]);
    }
  }

  /** More bytes after `text` only add to what `text` delivered. */
  lemma {:induction false} LinesExtend(rules: Rules, now: real, bound: nat, server: Server, text: string, more: string)
    ensures var x := Lines(rules, now, bound, server, text);
            var all := Lines(rules, now, bound, server, text + more);
            if x.live then all == Lines(rules, now, bound, x.server, x.buffer + more)
            else x.server.log <= all.server.log
    decreases |text|
  {
    var n := IndexOf(text, '\n');
    IndexOfPlus(text, more, '\n');
    if n < |text| {
      assert (text + more)[..n] == text[..n] && (text + more)[n + 1..] == text[n + 1..] + more;
      match Consume(rules, now, server, text[..n])
      case None =>
      case Some(next) => LinesExtend(rules, now, bound, next, text[n + 1..], more);
    } else {
      LinesGrow(rules, now, bound, server, text + more);
    }
  }

  /** A line that is already too long delivers nothing under the strict reading, whatever follows. */
  lemma TooLongIsRefused(rules: Rules, now: real, server: Server, text: string, more: string)
    requires '\n' !in text && |text| > rules.limit
    ensures Lines(rules, now, rules.limit, server, text + more).server == server
  {
    IndexOfPlus(text, more, '\n');
    assert IndexOf(text, '\n') == |text|;
  }

  /**
   The strict reading of a stream delivers no more than the generous reading of its beginning, or
   goes on as it does.
   */
  lemma {:induction false} StrictFollows(rules: Rules, now: real, server: Server, text: string, more: string)
    ensures var x := Lines(rules, now, Reach(rules), server, text);
            var strict := Lines(rules, now, rules.limit, server, text + more);
            || strict.server.log <= x.server.log
            || (x.live && strict == Lines(rules, now, rules.limit, x.server, x.buffer + more))
    decreases |text|
  {
    var n := IndexOf(text, '\n');
    IndexOfPlus(text, more, '\n');
    if n < |text| {
      assert (text + more)[..n] == text[..n] && (text + more)[n + 1..] == text[n + 1..] + more;
      LinesGrow(rules, now, Reach(rules), server, text);
      match Consume(rules, now, server, text[..n])
      case None =>
      case Some(next) => StrictFollows(rules, now, next, text[n + 1..], more);
    } else if |text| > rules.limit {
      assert text[..n] == text;
      TooLongIsRefused(rules, now, server, text, more);
    }
  }

  /** Whatever the cutting, at least the strict and at most the generous reading is delivered. */
  lemma {:induction false} Sandwich(rules: Rules, now: real, s: Session, chunks: seq<string>)
    requires s.live && |s.buffer| <= rules.limit && '\n' !in s.buffer
    requires forall i :: 0 <= i < |chunks| ==> 0 < |chunks[i]| <= RECV
    ensures var log := FeedAll(rules, now, s, chunks).server.log;
            && Lines(rules, now, rules.limit, s.server, s.buffer + Flatten(chunks)).server.log <= log
            && log <= Lines(rules, now, Reach(rules), s.server, s.buffer + Flatten(chunks)).server.log
    decreases |chunks|
  {
    if chunks == [] {
      LinesGrow(rules, now, Reach(rules), s.server, s.buffer);
      assert s.buffer + Flatten(chunks) == s.buffer;
      IndexOfPlus(s.buffer, "", '\n');
    } else {
      var (text, more) := (s.buffer + chunks[0], Flatten(chunks[1..]));
      assert s.buffer + Flatten(chunks) == text + more;
      DrainIsLines(rules, now, s.server, text, Reach(rules));
      LinesGrow(rules, now, Reach(rules), s.server, text);
      LinesExtend(rules, now, Reach(rules), s.server, text, more);
      StrictFollows(rules, now, s.server, text, more);
      var x := Receive(rules, now, s, chunks[0]);
      FeedGrows(rules, now, x, chunks[1..]);
      if x.live {
        Sandwich(rules, now, x, chunks[1..]);
      }
    }
  }
}
