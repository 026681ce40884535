/** Sequence numbers over whole runs of the signed channel, and the publishing side. */
module IpcReplay {
  import opened Options
  import opened LatinText
  import opened IpcLines
  import opened IpcCuttings

  // ----- what the table knows

  /** The greatest sequence number accepted from an instance, 0 before the first. */
  function Newest(log: seq<Unsigned>, instance: string): int {
    if log == [] then 0
    else
      var (u, before) := (log[|log| - 1], Newest(log[..|log| - 1], instance));
      if u.instance == instance && u.sequence > before then u.sequence else before
  }

  ghost predicate Tracks(server: Server) {
    forall instance :: Last(server.last, instance) == Newest(server.log, instance)
  }

  ghost predicate StrictlyIncreasing(log: seq<Unsigned>) {
    forall i, j :: 0 <= i < j < |log| && log[i].instance == log[j].instance ==> log[i].sequence < log[j].sequence
  }

  lemma {:induction false} NewestBounds(log: seq<Unsigned>, instance: string)
    ensures Newest(log, instance) >= 0
    ensures forall i :: 0 <= i < |log| && log[i].instance == instance ==> log[i].sequence <= Newest(log, instance)
  {
    if log != [] {
      NewestBounds(log[..|log| - 1], instance);
    }
  }

  /** A message gets through exactly when it is authentic and newer than everything accepted from its instance. */
  lemma VerifyIff(rules: Rules, now: real, server: Server, m: Message)
    requires Tracks(server)
    ensures Verify(rules, now, server, m).Some? <==>
      (Authentic(rules, now, m).Some?
       && Authentic(rules, now, m).value.sequence > Newest(server.log, Authentic(rules, now, m).value.instance))
  {
  }

  lemma VerifyKeeps(rules: Rules, now: real, server: Server, m: Message)
    requires Tracks(server) && StrictlyIncreasing(server.log) && Verify(rules, now, server, m).Some?
    ensures Tracks(Verify(rules, now, server, m).value)
    ensures StrictlyIncreasing(Verify(rules, now, server, m).value.log)
  {
    var u := Authentic(rules, now, m).value;
    var next := Verify(rules, now, server, m).value;
    assert next.log[..|next.log| - 1] == server.log;
    NewestBounds(server.log, u.instance);
    forall instance ensures Last(next.last, instance) == Newest(next.log, instance) {
    }
  }

  lemma {:induction false} DrainKeeps(rules: Rules, now: real, server: Server, text: string)
    requires Tracks(server) && StrictlyIncreasing(server.log)
    ensures Tracks(Drain(rules, now, server, text).server)
    ensures StrictlyIncreasing(Drain(rules, now, server, text).server.log)
    decreases |text|
  {
    var n := IndexOf(text, '\n');
    if n < |text| {
      var raw := text[..n];
      if !Blank(raw) && |raw| <= rules.limit && rules.read(raw).Some?
        && Verify(rules, now, server, rules.read(raw).value).Some? {
        VerifyKeeps(rules, now, server, rules.read(raw).value);
      }
      match Consume(rules, now, server, raw)
      case None =>
      case Some(next) => DrainKeeps(rules, now, next, text[n + 1..]);
    }
  }

  // ----- runs over many connections

  datatype Link = Link(buffer: string, live: bool)
  datatype Event =
    | Connected(connection: nat)
    | Received(connection: nat, now: real, chunk: string)
  datatype Host = Host(server: Server, links: map<nat, Link>)

  function Step(rules: Rules, host: Host, e: Event): Host {
    match e
    case Connected(c) => host.(links := host.links[c := Link("", true)])
    case Received(c, now, chunk) =>
      if c !in host.links then host
      else
        var link := host.links[c];
        var s := Receive(rules, now, Session(host.server, link.buffer, link.live), chunk);
        Host(s.server, host.links[c := Link(s.buffer, s.live)])
  }

  function Run(rules: Rules, host: Host, events: seq<Event>): Host
    decreases |events|
  {
    if events == [] then host else Run(rules, Step(rules, host, events[0]), events[1..])
  }

  /** Over any interleaving of connections and any clock, accepted sequence numbers strictly increase per instance. */
  lemma {:induction false} RunKeepsSequences(rules: Rules, host: Host, events: seq<Event>)
    requires Tracks(host.server) && StrictlyIncreasing(host.server.log)
    ensures Tracks(Run(rules, host, events).server)
    ensures StrictlyIncreasing(Run(rules, host, events).server.log)
    decreases |events|
  {
    if events != [] {
      match events[0] {
        case Connected(_) =>
        case Received(c, now, chunk) =>
          if c in host.links {
            DrainKeeps(rules, now, host.server, host.links[c].buffer + chunk);
          }
      }
      RunKeepsSequences(rules, Step(rules, host, events[0]), events[1..]);
    }
  }

  /** A line whose message was accepted before, or is older than one that was, ends the connection it arrives on. */
  lemma ReplayIsRefused(rules: Rules, events: seq<Event>, now: real, raw: string, earlier: Unsigned)
    requires !Blank(raw) && rules.read(raw).Some? && Authentic(rules, now, rules.read(raw).value).Some?
    requires earlier in Run(rules, Host(Server(map[], []), map[]), events).server.log
    requires earlier.instance == Authentic(rules, now, rules.read(raw).value).value.instance
    requires earlier.sequence >= Authentic(rules, now, rules.read(raw).value).value.sequence
    ensures Consume(rules, now, Run(rules, Host(Server(map[], []), map[]), events).server, raw).None?
  {
    var server := Run(rules, Host(Server(map[], []), map[]), events).server;
    RunKeepsSequences(rules, Host(Server(map[], []), map[]), events);
    NewestBounds(server.log, earlier.instance);
  }

  // ----- the publisher

  /** The envelopes of consecutive publications. */
  function Published(instance: string, sequence: nat, payloads: seq<Payload>, times: seq<real>): seq<Unsigned>
    requires |times| == |payloads|
    decreases |payloads|
  {
    if payloads == [] then []
    else
      var first := Unsigned(instance, sequence + 1, times[0], payloads[0]);
      [first] + Published(instance, sequence + 1, payloads[1..], times[1..])
  }

  function Wires(write: Unsigned -> string, us: seq<Unsigned>): string {
    if us == [] then "" else write(us[0]) + ['\n'] + Wires(write, us[1..])
  }

  /** What is asked of the opaque encoder and signature for one envelope that fits a line. */
  ghost predicate Carries(rules: Rules, write: Unsigned -> string, u: Unsigned) {
    var signature := rules.sign(u);
    && '\n' !in write(u) && !Blank(write(u)) && |write(u)| <= rules.limit
    && |signature| == 64 && rules.fold(Strip(signature)) == signature
    && rules.read(write(u))
      == Some(Message(PROTOCOL, u.instance, signature, Some(u.sequence), Some(u.sentAt), Some(u.payload)))
  }

  predicate OnTime(rules: Rules, now: real, us: seq<Unsigned>) {
    forall i :: 0 <= i < |us| ==> -rules.skew <= now - us[i].sentAt <= rules.skew
  }

  lemma WireIsAccepted(rules: Rules, now: real, server: Server, write: Unsigned -> string, u: Unsigned)
    requires Carries(rules, write, u) && -rules.skew <= now - u.sentAt <= rules.skew
    requires Strip(u.instance) == u.instance != "" && u.sequence > 0 && u.sequence > Last(server.last, u.instance)
    ensures Consume(rules, now, server, write(u))
      == Some(Server(server.last[u.instance := u.sequence], server.log + [u]))
  {
  }

  lemma ShortBlanksOfOneLine(limit: nat, raw: string, rest: string)
    requires '\n' !in raw && |raw| <= limit && ShortBlanks(limit, rest)
    ensures ShortBlanks(limit, raw + ['\n'] + rest)
  {
    var text := raw + ['\n'] + rest;
    IndexOfAfter(raw, '\n', rest);
    assert text[|raw| + 1..] == rest;
  }

  /** Envelopes one instance sent one after the other. */
  predicate Consecutive(us: seq<Unsigned>, instance: string, sequence: nat) {
    forall i :: 0 <= i < |us| ==> us[i].instance == instance && us[i].sequence == sequence + 1 + i
  }

  lemma {:induction false} PublishedConsecutive(instance: string, sequence: nat, payloads: seq<Payload>,
      times: seq<real>)
    requires |times| == |payloads|
    ensures Consecutive(Published(instance, sequence, payloads, times), instance, sequence)
    decreases |payloads|
  {
    if payloads != [] {
      PublishedConsecutive(instance, sequence + 1, payloads[1..], times[1..]);
      var rest := Published(instance, sequence + 1, payloads[1..], times[1..]);
      assert forall i :: 0 < i < |rest| + 1 ==> Published(instance, sequence, payloads, times)[i] == rest[i - 1];
    }
  }

  ghost predicate AllCarried(rules: Rules, write: Unsigned -> string, us: seq<Unsigned>) {
    forall i :: 0 <= i < |us| ==> Carries(rules, write, us[i])
  }

  lemma FirstWireRead(rules: Rules, now: real, server: Server, write: Unsigned -> string, u: Unsigned, more: string)
    requires Carries(rules, write, u) && -rules.skew <= now - u.sentAt <= rules.skew
    requires Strip(u.instance) == u.instance != "" && u.sequence > 0 && u.sequence > Last(server.last, u.instance)
    ensures Lines(rules, now, rules.limit, server, write(u) + ['\n'] + more)
         == Lines(rules, now, rules.limit, Server(server.last[u.instance := u.sequence], server.log + [u]), more)
  {
    WireIsAccepted(rules, now, server, write, u);
    LinesOfOneLine(rules, now, rules.limit, server, write(u), more);
  }

  /** The rest of a publication is one as well. */
  lemma RestPublished(rules: Rules, now: real, write: Unsigned -> string, instance: string, sequence: nat,
      us: seq<Unsigned>)
    requires us != [] && Consecutive(us, instance, sequence) && OnTime(rules, now, us) && AllCarried(rules, write, us)
    ensures Consecutive(us[1..], instance, sequence + 1) && OnTime(rules, now, us[1..])
      && AllCarried(rules, write, us[1..])
    ensures us[0].instance == instance && us[0].sequence == sequence + 1
    ensures Carries(rules, write, us[0]) && -rules.skew <= now - us[0].sentAt <= rules.skew
  {
    assert forall i :: 0 <= i < |us[1..]| ==> us[1..][i] == us[i + 1];
  }

  lemma {:induction false} WiresRead(rules: Rules, now: real, server: Server, write: Unsigned -> string,
                                     instance: string, sequence: nat, us: seq<Unsigned>)
    requires Strip(instance) == instance != "" && Last(server.last, instance) <= sequence
    requires Consecutive(us, instance, sequence) && OnTime(rules, now, us) && AllCarried(rules, write, us)
    ensures Lines(rules, now, rules.limit, server, Wires(write, us)).server.log == server.log + us
    decreases |us|
  {
    if us != [] {
      RestPublished(rules, now, write, instance, sequence, us);
      var (u, more) := (us[0], Wires(write, us[1..]));
      var next := Server(server.last[instance := sequence + 1], server.log + [u]);
      WiresRead(rules, now, next, write, instance, sequence + 1, us[1..]);
      FirstWireRead(rules, now, server, write, u, more);
      LogsJoin(server.log, us, Lines(rules, now, rules.limit, next, more).server.log);
    }
  }

  lemma LogsJoin(log: seq<Unsigned>, us: seq<Unsigned>, all: seq<Unsigned>)
    requires us != [] && all == log + [us[0]] + us[1..]
    ensures all == log + us
  {
    assert us == [us[0]] + us[1..];
  }

  lemma {:induction false} WiresShort(rules: Rules, write: Unsigned -> string, us: seq<Unsigned>)
    requires AllCarried(rules, write, us)
    ensures ShortBlanks(rules.limit, Wires(write, us))
    decreases |us|
  {
    if us != [] {
      assert AllCarried(rules, write, us[1..]);
      assert Carries(rules, write, us[0]);
      WiresShort(rules, write, us[1..]);
      ShortBlanksOfOneLine(rules.limit, write(us[0]), Wires(write, us[1..]));
    }
  }

  /** Everything a publisher sends is handed on once and in order, however the stream is cut. */
  lemma PublishedArrives(rules: Rules, now: real, server: Server, write: Unsigned -> string,
                         instance: string, sequence: nat, payloads: seq<Payload>, times: seq<real>, chunks: seq<string>)
    requires |times| == |payloads| && Strip(instance) == instance != "" && Last(server.last, instance) <= sequence
    requires OnTime(rules, now, Published(instance, sequence, payloads, times))
    requires AllCarried(rules, write, Published(instance, sequence, payloads, times))
    requires Cutting(chunks, Wires(write, Published(instance, sequence, payloads, times)))
    ensures Delivered(rules, now, server, chunks) == server.log + Published(instance, sequence, payloads, times)
  {
    var us := Published(instance, sequence, payloads, times);
    var stream := Wires(write, us);
    PublishedConsecutive(instance, sequence, payloads, times);
    WiresRead(rules, now, server, write, instance, sequence, us);
    WiresShort(rules, write, us);
    ShortBlanksAreQuiet(rules, now, server, stream);
    ReadingsAgreeIff(rules, now, server, stream);
    CuttingIsBetween(rules, now, server, stream, chunks);
  }

  class Publisher {
    const instance: string
    var sequence: nat

    constructor (instance: string)
      ensures this.instance == instance && sequence == 0
    {
      this.instance := instance;
      sequence := 0;
    }

    /** The next envelope, written as one line. */
    method Wire(write: Unsigned -> string, payload: Payload, time: real) returns (line: string)
      modifies this
      ensures sequence == old(sequence) + 1
      ensures line == Wires(write, Published(instance, old(sequence), [payload], [time]))
    {
      sequence := sequence + 1;
      line := write(Unsigned(instance, sequence, time, payload)) + ['\n'];
      assert Published(instance, sequence, [], []) == [];
      assert line == line + Wires(write, []);
    }
  }

  // ----- the server object

  class IPCServer {
    const rules: Rules
    var last: map<string, int>
    var log: seq<Unsigned>

    ghost function State(): Server
      reads this
    {
      Server(last, log)
    }

    constructor (rules: Rules)
      ensures this.rules == rules && State() == Server(map[], [])
    {
      this.rules := rules;
      last, log := map[], [];
    }

    method VerifyMessage(now: real, m: Message) returns (ok: bool)
      modifies this
      ensures ok == Verify(rules, now, old(State()), m).Some?
      ensures State() == if ok then Verify(rules, now, old(State()), m).value else old(State())
    {
      var authentic := Authentic(rules, now, m);
      if authentic.None? {
        return false;
      }
      var u := authentic.value;
      var previous := if u.instance in last then last[u.instance] else 0;
      if u.sequence <= previous {
        return false;
      }
      last := last[u.instance := u.sequence];
      log := log + [u];
      return true;
    }

    method ConsumeLine(now: real, raw: string) returns (ok: bool)
      modifies this
      ensures ok == Consume(rules, now, old(State()), raw).Some?
      ensures State() == if ok then Consume(rules, now, old(State()), raw).value else old(State())
    {
      if Blank(raw) {
        return true;
      }
      if |raw| > rules.limit || rules.read(raw).None? {
        return false;
      }
      ok := VerifyMessage(now, rules.read(raw).value);
    }

    method DrainBuffer(now: real, text: string) returns (buffer: string, live: bool)
      modifies this
      ensures Session(State(), buffer, live) == Drain(rules, now, old(State()), text)
    {
      buffer := text;
      while true
        invariant Drain(rules, now, State(), buffer) == Drain(rules, now, old(State()), text)
        decreases |buffer|
      {
        var newline := IndexOf(buffer, '\n');
        if newline == |buffer| {
          break;
        }
        var raw := buffer[..newline];
        buffer := buffer[newline + 1..];
        var ok := ConsumeLine(now, raw);
        if !ok {
          return buffer, false;
        }
      }
      live := |buffer| <= rules.limit;
    }

    /** One connection whose `recv` gives these chunks. */
    method HandleConnection(now: real, chunks: seq<string>) returns (buffer: string, live: bool)
      modifies this
      ensures Session(State(), buffer, live) == FeedAll(rules, now, Session(old(State()), "", true), chunks)
    {
      buffer, live := "", true;
      var i := 0;
      while i < |chunks|
        invariant i <= |chunks|
        invariant FeedAll(rules, now, Session(State(), buffer, live), chunks[i..])
               == FeedAll(rules, now, Session(old(State()), "", true), chunks)
      {
        assert chunks[i..][1..] == chunks[i + 1..];
        if live {
          if chunks[i] == "" {
            live := false;
          } else {
            buffer, live := DrainBuffer(now, buffer + chunks[i]);
          }
        }
        i := i + 1;
      }
      assert chunks[|chunks|..] == [];
    }
  }
}
