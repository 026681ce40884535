/** When the delivered messages do not depend on how `recv` cuts the stream. */
module IpcCuttings {
  import opened Collections
  import opened Options
  import opened LatinText
  import opened IpcLines

  /** A cutting that gets every blank line past the limit that can get past it. */
  function Wide(rules: Rules, text: string): seq<string>
    decreases |text|
  {
    var n := IndexOf(text, '\n');
    if n == |text| || n > Reach(rules) then Bytes(text)
    else
      var k := if n < rules.limit then n else rules.limit;
      Bytes(text[..k]) + [text[k..n + 1]] + Wide(rules, text[n + 1..])
  }

  lemma {:induction false} BytesCut(text: string)
    ensures Cutting(Bytes(text), text)
  {
    FlattenBytes(text);
    if text != "" {
      BytesCut(text[1..]);
    }
  }

  lemma CuttingPlus(a: seq<string>, b: seq<string>, s: string, t: string)
    requires Cutting(a, s) && Cutting(b, t)
    ensures Cutting(a + b, s + t)
  {
    FlattenPlus(a, b);
  }

  function Middle(rules: Rules, raw: string): string {
    (if |raw| < rules.limit then "" else raw[rules.limit..]) + ['\n']
  }

  function Beginning(rules: Rules, raw: string): string {
    if |raw| < rules.limit then raw else raw[..rules.limit]
  }

  lemma WideOfOneLine(rules: Rules, raw: string, rest: string)
    requires '\n' !in raw && |raw| <= Reach(rules)
    ensures Wide(rules, raw + ['\n'] + rest)
         == Bytes(Beginning(rules, raw)) + ([Middle(rules, raw)] + Wide(rules, rest))
    ensures Beginning(rules, raw) + Middle(rules, raw) == raw + ['\n'] && |Middle(rules, raw)| <= RECV
  {
    var text := raw + ['\n'] + rest;
    IndexOfAfter(raw, '\n', rest);
    var n := |raw|;
    var k := if n < rules.limit then n else rules.limit;
    assert text[..k] == Beginning(rules, raw);
    assert text[k..n + 1] == Middle(rules, raw);
    assert text[n + 1..] == rest;
    assert Bytes(text[..k]) + [text[k..n + 1]] + Wide(rules, rest)
      == Bytes(text[..k]) + ([text[k..n + 1]] + Wide(rules, rest));
  }

  lemma {:induction false} WideCuts(rules: Rules, text: string)
    ensures Cutting(Wide(rules, text), text)
    decreases |text|
  {
    var n := IndexOf(text, '\n');
    IndexOfPlus(text, "", '\n');
    if n == |text| || n > Reach(rules) {
      BytesCut(text);
    } else {
      assert text == text[..n] + ['\n'] + text[n + 1..];
      WideCuts(rules, text[n + 1..]);
      WideLineCuts(rules, text[..n], text[n + 1..]);
    }
  }

  lemma WideLineCuts(rules: Rules, raw: string, rest: string)
    requires '\n' !in raw && |raw| <= Reach(rules) && Cutting(Wide(rules, rest), rest)
    ensures Cutting(Wide(rules, raw + ['\n'] + rest), raw + ['\n'] + rest)
  {
    WideOfOneLine(rules, raw, rest);
    BytesCut(Beginning(rules, raw));
    PiecesCut(Bytes(Beginning(rules, raw)), Beginning(rules, raw), Middle(rules, raw), Wide(rules, rest), rest);
  }

  lemma PiecesCut(bytes: seq<string>, beginning: string, middle: string, chunks: seq<string>, rest: string)
    requires Cutting(bytes, beginning) && 0 < |middle| <= RECV && Cutting(chunks, rest)
    ensures Cutting(bytes + ([middle] + chunks), beginning + middle + rest)
  {
    MiddleCuts(middle, chunks, rest);
    CuttingPlus(bytes, [middle] + chunks, beginning, middle + rest);
    assert beginning + (middle + rest) == beginning + middle + rest;
  }

  lemma MiddleCuts(middle: string, chunks: seq<string>, rest: string)
    requires 0 < |middle| <= RECV && Cutting(chunks, rest)
    ensures Cutting([middle] + chunks, middle + rest)
  {
    assert ([middle] + chunks)[1..] == chunks;
  }

  lemma ReceivePart(rules: Rules, now: real, server: Server, buffer: string, c: char)
    requires '\n' !in buffer && c != '\n' && |buffer| < rules.limit
    ensures Receive(rules, now, Session(server, buffer, true), [c]) == Session(server, buffer + [c], true)
  {
    IndexOfPlus(buffer + [c], "", '\n');
  }

  lemma FeedFirst(rules: Rules, now: real, s: Session, chunk: string, more: seq<string>)
    ensures FeedAll(rules, now, s, [chunk] + more) == FeedAll(rules, now, Receive(rules, now, s, chunk), more)
  {
    assert ([chunk] + more)[1..] == more;
  }

  /** The beginning of a line stays in the buffer. */
  lemma {:induction false} FeedBeginning(rules: Rules, now: real, server: Server, buffer: string, text: string,
      more: seq<string>)
    requires '\n' !in buffer && '\n' !in text && |buffer| + |text| <= rules.limit
    ensures FeedAll(rules, now, Session(server, buffer, true), Bytes(text) + more)
         == FeedAll(rules, now, Session(server, buffer + text, true), more)
    decreases |text|
  {
    if text == "" {
      assert buffer + text == buffer && Bytes(text) + more == more;
    } else {
      var longer := buffer + [text[0]];
      ReceivePart(rules, now, server, buffer, text[0]);
      assert Bytes(text) + more == [[text[0]]] + (Bytes(text[1..]) + more);
      FeedFirst(rules, now, Session(server, buffer, true), [text[0]], Bytes(text[1..]) + more);
      assert longer + text[1..] == buffer + text;
      FeedBeginning(rules, now, server, longer, text[1..], more);
    }
  }

  lemma LinesOfOneLine(rules: Rules, now: real, bound: nat, server: Server, raw: string, more: string)
    requires '\n' !in raw
    ensures Lines(rules, now, bound, server, raw + ['\n'] + more)
         == if Blank(raw) && |raw| > bound then Session(server, more, false)
            else match Consume(rules, now, server, raw)
                 case None => Session(server, more, false)
                 case Some(next) => Lines(rules, now, bound, next, more)
  {
    var text := raw + ['\n'] + more;
    IndexOfAfter(raw, '\n', more);
    assert text[..|raw|] == raw && text[|raw| + 1..] == more;
  }

  /** One line with its end in one piece goes through as the generous reading has it. */
  lemma DrainOneLine(rules: Rules, now: real, server: Server, raw: string)
    requires '\n' !in raw
    ensures Drain(rules, now, server, raw + ['\n'])
         == match Consume(rules, now, server, raw)
            case None => Session(server, "", false)
            case Some(next) => Session(next, "", true)
  {
    assert raw + ['\n'] + "" == raw + ['\n'];
    DrainIsLines(rules, now, server, raw + ['\n'], |raw|);
    LinesOfOneLine(rules, now, |raw|, server, raw, "");
  }

  /** The byte that ends a line. */
  lemma StrictNewline(rules: Rules, now: real, server: Server, buffer: string, rest: string)
    requires '\n' !in buffer && |buffer| <= rules.limit
    ensures var x := Receive(rules, now, Session(server, buffer, true), ['\n']);
            && x.buffer == ""
            && Lines(rules, now, rules.limit, server, buffer + ['\n'] + rest).server
               == if x.live then Lines(rules, now, rules.limit, x.server, rest).server else x.server
  {
    DrainOneLine(rules, now, server, buffer);
    LinesOfOneLine(rules, now, rules.limit, server, buffer, rest);
  }

  /** A byte that does not. */
  lemma StrictByte(rules: Rules, now: real, server: Server, buffer: string, c: char, rest: string)
    requires '\n' !in buffer && |buffer| <= rules.limit && c != '\n'
    ensures Receive(rules, now, Session(server, buffer, true), [c])
      == Session(server, buffer + [c], |buffer| < rules.limit)
    ensures |buffer| == rules.limit ==> Lines(rules, now, rules.limit, server, buffer + [c] + rest).server == server
  {
    IndexOfPlus(buffer + [c], "", '\n');
    if |buffer| == rules.limit {
      TooLongIsRefused(rules, now, server, buffer + [c], rest);
    }
  }

  /** Byte by byte a stream gets its strict reading. */
  lemma {:induction false} BytesAreStrict(rules: Rules, now: real, server: Server, buffer: string, text: string)
    requires '\n' !in buffer && |buffer| <= rules.limit
    ensures FeedAll(rules, now, Session(server, buffer, true), Bytes(text)).server
         == Lines(rules, now, rules.limit, server, buffer + text).server
    decreases |text|
  {
    if text == "" {
      IndexOfPlus(buffer, text, '\n');
      assert buffer + text == buffer;
    } else {
      var (c, rest) := (text[0], text[1..]);
      assert buffer + text == buffer + [c] + rest;
      BytesCut(rest);
      var x := Receive(rules, now, Session(server, buffer, true), [c]);
      assert Bytes(text)[1..] == Bytes(rest);
      if c == '\n' {
        StrictNewline(rules, now, server, buffer, rest);
        assert "" + rest == rest;
      } else {
        StrictByte(rules, now, server, buffer, c, rest);
      }
      if x.live {
        BytesAreStrict(rules, now, x.server, x.buffer, rest);
      } else {
        FeedGrows(rules, now, x, Bytes(rest));
      }
    }
  }

  /** The wide cutting brings one whole line to the drain. */
  lemma WideLine(rules: Rules, now: real, server: Server, raw: string, rest: string)
    requires '\n' !in raw && |raw| <= Reach(rules)
    ensures FeedAll(rules, now, Session(server, "", true), Wide(rules, raw + ['\n'] + rest))
         == FeedAll(rules, now, Drain(rules, now, server, raw + ['\n']), Wide(rules, rest))
  {
    var (beginning, middle) := (Beginning(rules, raw), Middle(rules, raw));
    var pieces := [middle] + Wide(rules, rest);
    WideOfOneLine(rules, raw, rest);
    FeedBeginning(rules, now, server, "", beginning, pieces);
    assert "" + beginning == beginning;
    assert pieces[1..] == Wide(rules, rest);
  }

  /** The wide cutting gets the generous reading. */
  lemma {:induction false} WideIsGenerous(rules: Rules, now: real, server: Server, text: string)
    ensures FeedAll(rules, now, Session(server, "", true), Wide(rules, text)).server
         == Lines(rules, now, Reach(rules), server, text).server
    decreases |text|
  {
    var n := IndexOf(text, '\n');
    IndexOfPlus(text, "", '\n');
    if n == |text| || n > Reach(rules) {
      BytesAreStrict(rules, now, server, "", text);
      assert "" + text == text;
    } else {
      var (raw, rest) := (text[..n], text[n + 1..]);
      assert text == raw + ['\n'] + rest;
      WideLine(rules, now, server, raw, rest);
      DrainOneLine(rules, now, server, raw);
      LinesOfOneLine(rules, now, Reach(rules), server, raw, rest);
      WideCuts(rules, rest);
      match Consume(rules, now, server, raw)
      case None => FeedGrows(rules, now, Session(server, "", false), Wide(rules, rest));
      case Some(next) => WideIsGenerous(rules, now, next, rest);
    }
  }

  // ----- the exact condition

  /** Nothing is accepted after the first blank line that only some cuttings get past the limit. */
  predicate QuietAfterLongBlank(rules: Rules, now: real, server: Server, text: string)
    decreases |text|
  {
    var n := IndexOf(text, '\n');
    if n == |text| || (Blank(text[..n]) && n > Reach(rules)) then true
    else if Blank(text[..n]) && n > rules.limit then
      Lines(rules, now, Reach(rules), server, text[n + 1..]).server.log == server.log
    else
      match Consume(rules, now, server, text[..n])
      case None => true
      case Some(next) => QuietAfterLongBlank(rules, now, next, text[n + 1..])
  }

  ghost predicate ReadingsAgree(rules: Rules, now: real, server: Server, text: string) {
    Lines(rules, now, rules.limit, server, text).server.log == Lines(rules, now, Reach(rules), server, text).server.log
  }

  lemma AgreeAtLongBlank(rules: Rules, now: real, server: Server, text: string)
    requires var n := IndexOf(text, '\n'); n == |text| || (Blank(text[..n]) && n > rules.limit)
    ensures QuietAfterLongBlank(rules, now, server, text) <==> ReadingsAgree(rules, now, server, text)
  {
  }

  lemma AgreeAtOtherLine(rules: Rules, now: real, server: Server, text: string)
    requires var n := IndexOf(text, '\n'); n < |text| && !(Blank(text[..n]) && n > rules.limit)
    ensures match Consume(rules, now, server, text[..IndexOf(text, '\n')])
            case None => QuietAfterLongBlank(rules, now, server, text) && ReadingsAgree(rules, now, server, text)
            case Some(next) =>
              var rest := text[IndexOf(text, '\n') + 1..];
              && (QuietAfterLongBlank(rules, now, server, text) <==> QuietAfterLongBlank(rules, now, next, rest))
              && (ReadingsAgree(rules, now, server, text) <==> ReadingsAgree(rules, now, next, rest))
  {
  }

  lemma {:induction false} ReadingsAgreeIff(rules: Rules, now: real, server: Server, text: string)
    ensures QuietAfterLongBlank(rules, now, server, text) <==> ReadingsAgree(rules, now, server, text)
    decreases |text|
  {
    var n := IndexOf(text, '\n');
    if n == |text| || (Blank(text[..n]) && n > rules.limit) {
      AgreeAtLongBlank(rules, now, server, text);
    } else {
      AgreeAtOtherLine(rules, now, server, text);
      match Consume(rules, now, server, text[..n])
      case None =>
      case Some(next) => ReadingsAgreeIff(rules, now, next, text[n + 1..]);
    }
  }

  function Delivered(rules: Rules, now: real, server: Server, chunks: seq<string>): seq<Unsigned> {
    FeedAll(rules, now, Session(server, "", true), chunks).server.log
  }

  ghost predicate CuttingsAgree(rules: Rules, now: real, server: Server, stream: string) {
    forall a, b :: Cutting(a, stream) && Cutting(b, stream) ==>
      Delivered(rules, now, server, a) == Delivered(rules, now, server, b)
  }

  lemma CuttingIsBetween(rules: Rules, now: real, server: Server, stream: string, chunks: seq<string>)
    requires Cutting(chunks, stream)
    ensures Lines(rules, now, rules.limit, server, stream).server.log <= Delivered(rules, now, server, chunks)
    ensures Delivered(rules, now, server, chunks) <= Lines(rules, now, Reach(rules), server, stream).server.log
  {
    assert "" + Flatten(chunks) == stream;
    Sandwich(rules, now, Session(server, "", true), chunks);
  }

  /** Every cutting delivers the same messages in the same order exactly when the stream is quiet in this sense. */
  lemma CuttingsAgreeIff(rules: Rules, now: real, server: Server, stream: string)
    ensures CuttingsAgree(rules, now, server, stream) <==> QuietAfterLongBlank(rules, now, server, stream)
  {
    ReadingsAgreeIff(rules, now, server, stream);
    BytesAreStrict(rules, now, server, "", stream);
    assert "" + stream == stream;
    WideIsGenerous(rules, now, server, stream);
    BytesCut(stream);
    WideCuts(rules, stream);
    if QuietAfterLongBlank(rules, now, server, stream) {
      forall a, b | Cutting(a, stream) && Cutting(b, stream)
        ensures Delivered(rules, now, server, a) == Delivered(rules, now, server, b)
      {
        CuttingIsBetween(rules, now, server, stream, a);
        CuttingIsBetween(rules, now, server, stream, b);
      }
    } else {
      assert Delivered(rules, now, server, Bytes(stream)) != Delivered(rules, now, server, Wide(rules, stream));
    }
  }

  /** No line of blanks alone is longer than the limit. */
  predicate ShortBlanks(limit: nat, text: string)
    decreases |text|
  {
    var n := IndexOf(text, '\n');
    n == |text| || ((Blank(text[..n]) ==> n <= limit) && ShortBlanks(limit, text[n + 1..]))
  }

  /** The condition a sender can keep without knowing the receiver's state. */
  lemma {:induction false} ShortBlanksAreQuiet(rules: Rules, now: real, server: Server, text: string)
    requires ShortBlanks(rules.limit, text)
    ensures QuietAfterLongBlank(rules, now, server, text)
    decreases |text|
  {
    var n := IndexOf(text, '\n');
    if n < |text| {
      match Consume(rules, now, server, text[..n])
      case None =>
      case Some(next) => ShortBlanksAreQuiet(rules, now, next, text[n + 1..]);
    }
  }

  /** A long blank line before a message that would be accepted: two cuttings disagree. */
  lemma LongBlankLine(rules: Rules, now: real, server: Server, blank: string, raw: string)
    requires Blank(blank) && '\n' !in blank && rules.limit < |blank| <= Reach(rules)
    requires '\n' !in raw && !Blank(raw) && Consume(rules, now, server, raw).Some?
    ensures !CuttingsAgree(rules, now, server, blank + ['\n'] + (raw + ['\n']))
  {
    var rest := raw + ['\n'];
    var stream := blank + ['\n'] + rest;
    IndexOfAfter(blank, '\n', rest);
    assert stream[..|blank|] == blank && stream[|blank| + 1..] == rest;
    assert rest + "" == rest;
    LinesOfOneLine(rules, now, Reach(rules), server, raw, "");
    CuttingsAgreeIff(rules, now, server, stream);
  }
}
