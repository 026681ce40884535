/** Everything that is handed on was signed, complete and of its minute (server/common/ipc.py). */
module IpcAuthentic {
  import opened Options
  import opened LatinText
  import opened IpcLines
  import opened IpcReplay

  /** The message carries this envelope, with the signature that belongs to it, and its clock is close enough. */
  ghost predicate Signed(rules: Rules, now: real, m: Message, u: Unsigned) {
    && m.protocol == "nfs-online-ipc-v2"
    && m.sequence == Some(u.sequence) && m.sentAt == Some(u.sentAt) && m.payload == Some(u.payload)
    && Strip(m.instance) == u.instance && u.instance != "" && u.sequence > 0
    && -rules.skew <= u.sentAt - now <= rules.skew
    && |rules.sign(u)| == 64 && rules.fold(Strip(m.signature)) == rules.sign(u)
  }

  lemma AuthenticIff(rules: Rules, now: real, m: Message, u: Unsigned)
    ensures Authentic(rules, now, m) == Some(u) <==> Signed(rules, now, m, u)
  {
  }

  /** Some line, shorter than the limit, said this at the time. */
  ghost predicate Genuine(rules: Rules, now: real, u: Unsigned) {
    exists raw :: |raw| <= rules.limit && SaidBy(rules, now, raw, u)
  }

  ghost predicate SaidBy(rules: Rules, now: real, raw: string, u: Unsigned) {
    rules.read(raw).Some? && Signed(rules, now, rules.read(raw).value, u)
  }

  ghost predicate NewAreGenuine(rules: Rules, now: real, before: seq<Unsigned>, after: seq<Unsigned>) {
    before <= after && forall i :: |before| <= i < |after| ==> Genuine(rules, now, after[i])
  }

  lemma ConsumedIsGenuine(rules: Rules, now: real, server: Server, raw: string)
    requires Consume(rules, now, server, raw).Some?
    ensures NewAreGenuine(rules, now, server.log, Consume(rules, now, server, raw).value.log)
  {
    if !Blank(raw) {
      var m := rules.read(raw).value;
      var u := Authentic(rules, now, m).value;
      AuthenticIff(rules, now, m, u);
      assert SaidBy(rules, now, raw, u);
    }
  }

  lemma {:induction false} DrainedAreGenuine(rules: Rules, now: real, server: Server, text: string)
    ensures NewAreGenuine(rules, now, server.log, Drain(rules, now, server, text).server.log)
    decreases |text|
  {
    var n := IndexOf(text, '\n');
    if n < |text| && Consume(rules, now, server, text[..n]).Some? {
      var next := Consume(rules, now, server, text[..n]).value;
      ConsumedIsGenuine(rules, now, server, text[..n]);
      DrainedAreGenuine(rules, now, next, text[n + 1..]);
    }
  }

  /** Some delivery of the run brought it. */
  ghost predicate Brought(rules: Rules, events: seq<Event>, u: Unsigned) {
    exists k :: 0 <= k < |events| && events[k].Received? && Genuine(rules, events[k].now, u)
  }

  /** Over any run, whatever was handed on came in a signed line within the allowed clock difference of its arrival. */
  lemma {:induction false} AcceptedAreGenuine(rules: Rules, host: Host, events: seq<Event>)
    ensures host.server.log <= Run(rules, host, events).server.log
    ensures var log := Run(rules, host, events).server.log;
      forall i :: |host.server.log| <= i < |log| ==> Brought(rules, events, log[i])
    decreases |events|
  {
    if events != [] {
      var (first, rest) := (events[0], events[1..]);
      var next := Step(rules, host, first);
      if first.Received? && first.connection in host.links {
        DrainedAreGenuine(rules, first.now, host.server, host.links[first.connection].buffer + first.chunk);
      }
      AcceptedAreGenuine(rules, next, rest);
      var log := Run(rules, host, events).server.log;
      forall i | |host.server.log| <= i < |log| ensures Brought(rules, events, log[i]) {
        if i < |next.server.log| {
          assert log[i] == next.server.log[i];
          assert Genuine(rules, events[0].now, log[i]);
        } else {
          BroughtLater(rules, events, log[i]);
        }
      }
    }
  }

  lemma BroughtLater(rules: Rules, events: seq<Event>, u: Unsigned)
    requires events != [] && Brought(rules, events[1..], u)
    ensures Brought(rules, events, u)
  {
    var k :| 0 <= k < |events[1..]| && events[1..][k].Received? && Genuine(rules, events[1..][k].now, u);
    assert events[k + 1] == events[1..][k];
  }

  /** A connection that was ended stays ended, and reads nothing more. */
  lemma EndedStaysEnded(rules: Rules, now: real, s: Session, chunk: string)
    requires !s.live || chunk == ""
    ensures Receive(rules, now, s, chunk) == s.(live := false)
  {
  }
}
