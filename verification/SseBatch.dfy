/** The batch parser kept beside the incremental decoder, and the proof that the decoder
    refines it. */
module SseBatch {
  import opened Core
  import opened Text
  import opened SseDecoder
  import Utf8

  function StripReturnText(line: string): string {
    if line != "" && line[|line| - 1] == '\r' then line[..|line| - 1] else line
  }

  /** `str::lines`: a final line end starts no further line. */
  function Lines(text: string): seq<string> {
    var p := IndexOf(text, '\n');
    if text == "" then []
    else if p == |text| then [text]
    else [StripReturnText(text[..p])] + Lines(text[p + 1..])
  }

  /** The partial event after a line that is not blank. */
  function DataAfter(line: string, data: string): string {
    var trimmed := TrimStart(line);
    if !(":" <= trimmed) && "data:" <= trimmed then
      data + (if data == "" then "" else "\n") + TrimStart(trimmed[5..])
    else data
  }

  /** The batch parser from a given line on. */
  function BatchFrom(json: JsonDecoder, lines: seq<string>, data: string, chunks: seq<Chunk>): AppResult<seq<Chunk>> {
    if lines == [] then
      match if Trim(data) == "" then Success([]) else EventChunks(json, data)
      case Failure(error) => Failure(error)
      case Success(last) => if chunks + last == [] then Failure(EMPTY_STREAM) else Success(chunks + last)
    else
      var line := TrimEnd(lines[0]);
      if line == "" then
        if Trim(data) == "" then BatchFrom(json, lines[1..], data, chunks)
        else
          match EventChunks(json, data)
          case Failure(error) => Failure(error)
          case Success(more) => BatchFrom(json, lines[1..], "", chunks + more)
      else
        BatchFrom(json, lines[1..], DataAfter(line, data), chunks)
  }

  lemma BatchAt(json: JsonDecoder, lines: seq<string>, i: nat, data: string, chunks: seq<Chunk>)
    requires i < |lines|
    ensures TrimEnd(lines[i]) != "" ==>
              BatchFrom(json, lines[i..], data, chunks) ==
              BatchFrom(json, lines[i + 1..], DataAfter(TrimEnd(lines[i]), data), chunks)
    ensures TrimEnd(lines[i]) == "" && Trim(data) == "" ==>
              BatchFrom(json, lines[i..], data, chunks) == BatchFrom(json, lines[i + 1..], data, chunks)
    ensures TrimEnd(lines[i]) == "" && Trim(data) != "" ==>
              var parsed := EventChunks(json, data);
              BatchFrom(json, lines[i..], data, chunks) ==
              if parsed.Failure? then parsed else BatchFrom(json, lines[i + 1..], "", chunks + parsed.value)
  {
    hide EventChunks, Trim, TrimEnd, DataAfter;
    assert lines[i..][1..] == lines[i + 1..];
  }

  lemma BatchEnd(json: JsonDecoder, data: string, chunks: seq<Chunk>)
    ensures var last := if Trim(data) == "" then Success([]) else EventChunks(json, data);
            BatchFrom(json, [], data, chunks) ==
            if last.Failure? then Failure(last.error)
            else if chunks + last.value == [] then Failure(EMPTY_STREAM)
            else Success(chunks + last.value)
    ensures chunks + [] == chunks
  {
  }

  method ParseStreamEvents(json: JsonDecoder, rawBody: string) returns (r: AppResult<seq<Chunk>>)
    ensures r == BatchFrom(json, Lines(rawBody), "", [])
  {
    hide EventChunks, Lines, Trim, TrimStart, TrimEnd, BatchFrom;
    var lines := Lines(rawBody);
    var chunks: seq<Chunk> := [];
    var eventData := "";
    var i := 0;
    while i < |lines|
      invariant 0 <= i <= |lines|
      invariant BatchFrom(json, lines, "", []) == BatchFrom(json, lines[i..], eventData, chunks)
    {
      BatchAt(json, lines, i, eventData, chunks);
      ghost var before := eventData;
      var line := TrimEnd(lines[i]);
      i := i + 1;
      if line == "" {
        if Trim(eventData) == "" {
          continue;
        }
        var parsed := ParseStreamEvent(json, eventData);
        if parsed.Failure? {
          return parsed;
        }
        chunks := chunks + parsed.value;
        eventData := "";
        continue;
      }
      var trimmed := TrimStart(line);
      if ":" <= trimmed {
        assert DataAfter(line, before) == before;
        continue;
      }
      if "data:" <= trimmed {
        if eventData != "" {
          eventData := eventData + "\n";
        }
        eventData := eventData + TrimStart(trimmed[5..]);
      }
      assert eventData == DataAfter(line, before);
    }
    assert lines[i..] == [];
    BatchEnd(json, eventData, chunks);
    if Trim(eventData) != "" {
      var parsed := ParseStreamEvent(json, eventData);
      if parsed.Failure? {
        return parsed;
      }
      chunks := chunks + parsed.value;
    }
    if chunks == [] {
      return Failure(EMPTY_STREAM);
    }
    return Success(chunks);
  }

  // ----- Streaming refines batch -----

  /** No line ends in white space, other than the return of a CRLF. */
  predicate CleanLines(text: string) {
    forall line :: line in Lines(text) ==> TrimEnd(line) == line
  }

  /** The invariant of both parsers: a partial event is empty or starts with a visible character. */
  predicate Started(data: string) {
    data == "" || !IsWhitespace(data[0])
  }

  /** Successes, then one error. */
  predicate FailsWith(items: seq<Item>, error: AppError) {
    && items != [] && items[|items| - 1] == Failure(error)
    && forall i :: 0 <= i < |items| - 1 ==> items[i].Success?
  }

  /** What the decoder yields when the batch parser answers `batch` and has `chunks` already. */
  predicate Matches(items: seq<Item>, chunks: seq<Chunk>, batch: AppResult<seq<Chunk>>) {
    match batch
    case Success(all) => Oks(all) == Oks(chunks) + items
    case Failure(error) => FailsWith(items, error)
  }

  lemma StartedTrim(data: string)
    requires Started(data)
    ensures Trim(data) == "" <==> data == ""
  {
    TrimEmpty(data);
  }

  lemma StripReturnEncode(line: string)
    ensures StripReturn(Utf8.Encode(line)) == Utf8.Encode(StripReturnText(line))
  {
    if line != "" {
      var init, last := line[..|line| - 1], line[|line| - 1];
      assert line == init + [last];
      Utf8.EncodeAppend(init, [last]);
      assert Utf8.Encode([last]) == Utf8.EncodeChar(last) + Utf8.Encode([]);
      assert Utf8.Encode([last]) == Utf8.EncodeChar(last);
    }
  }

  /** The first line of the bytes is the encoding of the first line of the text. */
  lemma FirstLineEncode(text: string)
    requires IndexOf(text, '\n') < |text|
    ensures var p, bytes := IndexOf(text, '\n'), Utf8.Encode(text);
            var q := FirstNewline(bytes);
            q < |bytes| && bytes[..q] == Utf8.Encode(text[..p]) && bytes[q + 1..] == Utf8.Encode(text[p + 1..])
  {
    hide Utf8.Encode, Utf8.EncodeChar, IndexOf;
    var p := IndexOf(text, '\n');
    var head, tail := Utf8.Encode(text[..p]), Utf8.Encode(text[p + 1..]);
    assert text == text[..p] + (['\n'] + text[p + 1..]);
    Utf8.EncodeAppend(text[..p], ['\n'] + text[p + 1..]);
    Utf8.EncodeCons('\n', text[p + 1..]);
    NewlineByte();
    Utf8.EncodeAvoids(text[..p], '\n');
    var bytes := Utf8.Encode(text);
    assert bytes == head + ([NEWLINE] + tail);
    assert bytes[..|head|] == head;
    IndexOfIs(bytes, NEWLINE, |head|);
  }

  lemma NewlineByte()
    ensures Utf8.EncodeChar('\n') == [NEWLINE]
  {
  }

  lemma NoLineEncode(text: string)
    requires IndexOf(text, '\n') == |text|
    ensures FirstNewline(Utf8.Encode(text)) == |Utf8.Encode(text)|
  {
    assert text[..|text|] == text;
    Utf8.EncodeAvoids(text, '\n');
    var bytes := Utf8.Encode(text);
    assert bytes[..|bytes|] == bytes;
    IndexOfIs(bytes, NEWLINE, |bytes|);
  }

  lemma EncodeNonempty(line: string)
    requires line != ""
    ensures Utf8.Encode(line) != []
  {
  }

  lemma EncodeEmpty()
    ensures Utf8.Encode("") == []
  {
  }

  lemma MatchesAppend(items: seq<Item>, chunks: seq<Chunk>, more: seq<Chunk>, batch: AppResult<seq<Chunk>>)
    requires Matches(items, chunks + more, batch)
    ensures Matches(Oks(more) + items, chunks, batch)
  {
    OksAppend(chunks, more);
    if batch.Success? {
      assert Oks(chunks) + Oks(more) + items == Oks(chunks) + (Oks(more) + items);
    }
  }

  // ----- What each parser makes of a text, without JSON -----

  /** The payload of an event that ends, if it has one. */
  function Event(data: string): seq<string> {
    if Trim(data) == "" then [] else [Trim(data)]
  }

  /** The decoder ends an event at an empty line only. */
  function StreamPayloads(lines: seq<string>, data: string): seq<string> {
    if lines == [] then Event(data)
    else if lines[0] == "" then Event(data) + StreamPayloads(lines[1..], "")
    else StreamPayloads(lines[1..], DataAfter(lines[0], data))
  }

  /** The batch parser takes white space off the end of every line first. */
  function BatchPayloads(lines: seq<string>, data: string): seq<string> {
    if lines == [] then Event(data)
    else
      var line := TrimEnd(lines[0]);
      if line == "" then Event(data) + BatchPayloads(lines[1..], if Trim(data) == "" then data else "")
      else BatchPayloads(lines[1..], DataAfter(line, data))
  }

  /** The batch answer for payloads, after `chunks`. */
  function Parsed(json: JsonDecoder, payloads: seq<string>, chunks: seq<Chunk>): AppResult<seq<Chunk>> {
    if payloads == [] then if chunks == [] then Failure(EMPTY_STREAM) else Success(chunks)
    else
      match PayloadChunks(json, payloads[0])
      case Failure(error) => Failure(error)
      case Success(more) => Parsed(json, payloads[1..], chunks + more)
  }

  /** The decoder's items for payloads. */
  function Yielded(json: JsonDecoder, payloads: seq<string>, emitted: bool): seq<Item> {
    if payloads == [] then if emitted then [] else [Failure(EMPTY_STREAM)]
    else
      match PayloadChunks(json, payloads[0])
      case Failure(error) => [Failure(error)]
      case Success(more) => Oks(more) + Yielded(json, payloads[1..], emitted || more != [])
  }

  lemma ParsedCons(json: JsonDecoder, payload: string, rest: seq<string>, chunks: seq<Chunk>)
    ensures var more := PayloadChunks(json, payload);
            Parsed(json, [payload] + rest, chunks) ==
            if more.Failure? then Failure(more.error) else Parsed(json, rest, chunks + more.value)
  {
    assert ([payload] + rest)[1..] == rest;
  }

  lemma YieldedCons(json: JsonDecoder, payload: string, rest: seq<string>, emitted: bool)
    ensures var more := PayloadChunks(json, payload);
            Yielded(json, [payload] + rest, emitted) ==
            if more.Failure? then [Failure(more.error)] else Oks(more.value) + Yielded(json, rest, emitted || more.value != [])
  {
    assert ([payload] + rest)[1..] == rest;
  }

  /** The batch parser's answer depends on its payloads only. */
  lemma {:induction false} BatchIsParsed(json: JsonDecoder, lines: seq<string>, data: string, chunks: seq<Chunk>)
    ensures BatchFrom(json, lines, data, chunks) == Parsed(json, BatchPayloads(lines, data), chunks)
  {
    hide Trim, TrimEnd, DataAfter, PayloadChunks, Parsed;
    assert chunks + [] == chunks;
    ParsedNothing(json, chunks);
    if lines == [] {
      if Trim(data) != "" {
        ParsedCons(json, Trim(data), [], chunks);
        assert [Trim(data)] + [] == [Trim(data)];
        if PayloadChunks(json, Trim(data)).Success? {
          ParsedNothing(json, chunks + PayloadChunks(json, Trim(data)).value);
        }
      }
    } else if TrimEnd(lines[0]) != "" {
      BatchIsParsed(json, lines[1..], DataAfter(TrimEnd(lines[0]), data), chunks);
    } else if Trim(data) == "" {
      BatchIsParsed(json, lines[1..], data, chunks);
      assert [] + BatchPayloads(lines[1..], data) == BatchPayloads(lines[1..], data);
    } else {
      ParsedCons(json, Trim(data), BatchPayloads(lines[1..], ""), chunks);
      if PayloadChunks(json, Trim(data)).Success? {
        BatchIsParsed(json, lines[1..], "", chunks + PayloadChunks(json, Trim(data)).value);
      }
    }
  }

  lemma ParsedNothing(json: JsonDecoder, chunks: seq<Chunk>)
    ensures Parsed(json, [], chunks) == if chunks == [] then Failure(EMPTY_STREAM) else Success(chunks)
  {
  }

  lemma YieldedNothing(json: JsonDecoder, emitted: bool)
    ensures Yielded(json, [], emitted) == if emitted then [] else [Failure(EMPTY_STREAM)]
  {
  }

  /** A line of the text, as the decoder takes it. */
  lemma LineYields(json: JsonDecoder, line: string, rest: seq<string>, data: string, emitted: bool)
    ensures var fed := FeedText(json, line, data);
            var payloads := StreamPayloads([line] + rest, data);
            if fed.Failure? then Yielded(json, payloads, emitted) == [Failure(fed.error)]
            else Yielded(json, payloads, emitted) ==
                 Oks(fed.value.chunks) + Yielded(json, StreamPayloads(rest, fed.value.data), emitted || fed.value.chunks != [])
  {
    hide Trim, TrimStart, PayloadChunks, Yielded;
    assert ([line] + rest)[1..] == rest && ([line] + rest)[0] == line;
    NoOks();
    assert forall items: seq<Item> :: [] + items == items;
    assert forall payloads: seq<string> :: [] + payloads == payloads;
    if line == "" && Trim(data) != "" {
      YieldedCons(json, Trim(data), StreamPayloads(rest, ""), emitted);
    }
  }

  lemma ClosingYields(json: JsonDecoder, line: string, data: string, emitted: bool)
    ensures ClosingItems(json, Utf8.Encode(line), data, emitted) ==
            Yielded(json, StreamPayloads(if line == "" then [] else [line], data), emitted)
  {
    hide Trim, TrimStart, PayloadChunks, Yielded, Utf8.Encode, Utf8.Decode, Oks;
    Utf8.DecodeEncode(line);
    var last := data;
    if line == "" {
      EncodeEmpty();
    } else {
      EncodeNonempty(line);
      last := DataAfter(line, data);
      assert [line][1..] == [];
    }
    YieldedNothing(json, emitted);
    YieldedNothing(json, true);
    NoOks();
    if Trim(last) != "" {
      YieldedCons(json, Trim(last), [], emitted);
      assert [Trim(last)] + [] == [Trim(last)];
      var more := PayloadChunks(json, Trim(last));
      if more.Success? {
        assert [] + more.value == more.value && Oks(more.value) + [] == Oks(more.value);
        var none: seq<Item> := [Failure(EMPTY_STREAM)];
        assert [] + none == none;
      }
    }
  }

  /** The decoder's items depend on its payloads only. */
  lemma {:induction false} StreamIsYielded(json: JsonDecoder, text: string, data: string, emitted: bool)
    ensures Items(json, Utf8.Encode(text), false, data, emitted) == Yielded(json, StreamPayloads(Lines(text), data), emitted)
    decreases |text|
  {
    hide FeedText, ClosingItems, Utf8.Encode, Utf8.Decode, FirstNewline, IndexOf, StripReturn, StripReturnText, Oks,
         Yielded, StreamPayloads;
    var p := IndexOf(text, '\n');
    if p == |text| {
      NoLineEncode(text);
      ClosingYields(json, text, data, emitted);
    } else {
      var line, rest := StripReturnText(text[..p]), text[p + 1..];
      FirstLineEncode(text);
      StripReturnEncode(text[..p]);
      Utf8.DecodeEncode(line);
      LineYields(json, line, Lines(rest), data, emitted);
      match FeedText(json, line, data) {
        case Failure(error) =>
        case Success(fed) => StreamIsYielded(json, rest, fed.data, emitted || fed.chunks != []);
      }
    }
  }

  lemma NoOks()
    ensures Oks([]) == []
  {
  }

  /** On the same payloads the two agree. */
  lemma {:induction false} YieldedMatchesParsed(json: JsonDecoder, payloads: seq<string>, chunks: seq<Chunk>)
    ensures Matches(Yielded(json, payloads, chunks != []), chunks, Parsed(json, payloads, chunks))
  {
    hide PayloadChunks, Oks;
    if payloads == [] {
      assert Oks(chunks) + [] == Oks(chunks);
    } else if PayloadChunks(json, payloads[0]).Success? {
      var more := PayloadChunks(json, payloads[0]).value;
      YieldedMatchesParsed(json, payloads[1..], chunks + more);
      MatchesAppend(Yielded(json, payloads[1..], chunks + more != []), chunks, more, Parsed(json, payloads[1..], chunks + more));
    }
  }

  /** The payloads without the end markers, which yield nothing. */
  function Real(payloads: seq<string>): seq<string> {
    if payloads == [] then []
    else (if payloads[0] == "[DONE]" then [] else [payloads[0]]) + Real(payloads[1..])
  }

  lemma {:induction false} MarkersYieldNothing(json: JsonDecoder, payloads: seq<string>, chunks: seq<Chunk>, emitted: bool)
    ensures Parsed(json, payloads, chunks) == Parsed(json, Real(payloads), chunks)
    ensures Yielded(json, payloads, emitted) == Yielded(json, Real(payloads), emitted)
  {
    hide Oks;
    if payloads != [] {
      var first, rest := payloads[0], Real(payloads[1..]);
      if first == "[DONE]" {
        MarkersYieldNothing(json, payloads[1..], chunks, emitted);
        assert Real(payloads) == [] + rest == rest && chunks + [] == chunks;
        NoOks();
        assert [] + Yielded(json, rest, emitted) == Yielded(json, rest, emitted);
        assert PayloadChunks(json, first) == Success([]);
      } else {
        assert Real(payloads) == [first] + rest;
        hide PayloadChunks;
        ParsedCons(json, first, rest, chunks);
        YieldedCons(json, first, rest, emitted);
        if PayloadChunks(json, first).Success? {
          var more := PayloadChunks(json, first).value;
          MarkersYieldNothing(json, payloads[1..], chunks + more, emitted || more != []);
        }
      }
    }
  }

  // ----- When the two agree -----

  ghost predicate Agree(json: JsonDecoder, text: string) {
    Matches(Items(json, Utf8.Encode(text), false, "", false), [], BatchFrom(json, Lines(text), "", []))
  }

  ghost predicate AlwaysAgree(text: string) {
    forall json: JsonDecoder :: Agree(json, text)
  }

  /** Tells all payloads apart: each is one chunk with itself as its text. */
  function Echo(payload: string): Option<WireChunk> {
    Some(WireChunk([WireChoice(0, Some(payload), None)], None))
  }

  function Echoes(payloads: seq<string>): seq<Chunk> {
    seq(|payloads|, i requires 0 <= i < |payloads| => Chunk(0, payloads[i], None, None))
  }

  /** Payloads that come from events. */
  predicate Visible(payloads: seq<string>) {
    forall i :: 0 <= i < |payloads| ==> payloads[i] != ""
  }

  predicate Unmarked(payloads: seq<string>) {
    forall i :: 0 <= i < |payloads| ==> payloads[i] != "" && payloads[i] != "[DONE]"
  }

  lemma EchoOne(payload: string)
    requires payload != "" && payload != "[DONE]"
    ensures PayloadChunks(Echo, payload) == Success([Chunk(0, payload, None, None)])
  {
    var choices := [WireChoice(0, Some(payload), None)];
    assert choices[1..] == [];
    assert ChoiceChunks(choices, None) == [Chunk(0, payload, None, None)];
  }

  lemma {:induction false} EchoAll(payloads: seq<string>, chunks: seq<Chunk>)
    requires Unmarked(payloads) && (chunks != [] || payloads != [])
    ensures Parsed(Echo, payloads, chunks) == Success(chunks + Echoes(payloads))
    ensures Yielded(Echo, payloads, chunks != []) == Oks(Echoes(payloads))
  {
    hide PayloadChunks;
    if payloads == [] {
      assert chunks + Echoes([]) == chunks;
    } else {
      var one := [Chunk(0, payloads[0], None, None)];
      EchoOne(payloads[0]);
      EchoAll(payloads[1..], chunks + one);
      assert Echoes(payloads) == one + Echoes(payloads[1..]);
      OksAppend(one, Echoes(payloads[1..]));
      assert chunks + one + Echoes(payloads[1..]) == chunks + (one + Echoes(payloads[1..]));
    }
  }

  lemma EchoesApart(a: seq<string>, b: seq<string>)
    requires Oks(Echoes(a)) == Oks(Echoes(b))
    ensures a == b
  {
    assert |Echoes(a)| == |Oks(Echoes(a))| == |Echoes(b)|;
    forall i | 0 <= i < |a| ensures a[i] == b[i] {
      assert Oks(Echoes(a))[i] == Success(Chunk(0, a[i], None, None));
      assert Oks(Echoes(b))[i] == Success(Chunk(0, b[i], None, None));
    }
  }

  lemma {:induction false} PayloadsAreVisible(lines: seq<string>, data: string)
    ensures Visible(StreamPayloads(lines, data)) && Visible(BatchPayloads(lines, data))
  {
    hide Trim, TrimEnd, DataAfter;
    if lines != [] {
      PayloadsAreVisible(lines[1..], "");
      PayloadsAreVisible(lines[1..], data);
      PayloadsAreVisible(lines[1..], DataAfter(lines[0], data));
      PayloadsAreVisible(lines[1..], DataAfter(TrimEnd(lines[0]), data));
    }
  }

  lemma {:induction false} RealIsUnmarked(payloads: seq<string>)
    requires Visible(payloads)
    ensures Unmarked(Real(payloads))
  {
    if payloads != [] {
      RealIsUnmarked(payloads[1..]);
    }
  }

  /** What both parsers make of a text is read off its payloads without the markers. */
  lemma ReadOff(json: JsonDecoder, text: string)
    ensures Agree(json, text) <==>
            Matches(Yielded(json, Real(StreamPayloads(Lines(text), "")), false), [],
                    Parsed(json, Real(BatchPayloads(Lines(text), "")), []))
  {
    hide Items, BatchFrom, Lines, Yielded, Parsed, Real, StreamPayloads, BatchPayloads, Utf8.Encode, Matches;
    StreamIsYielded(json, text, "", false);
    BatchIsParsed(json, Lines(text), "", []);
    MarkersYieldNothing(json, StreamPayloads(Lines(text), ""), [], false);
    MarkersYieldNothing(json, BatchPayloads(Lines(text), ""), [], false);
  }

  lemma EchoTellsApart(s: seq<string>, b: seq<string>)
    requires Unmarked(s) && Unmarked(b)
    requires Matches(Yielded(Echo, s, false), [], Parsed(Echo, b, []))
    ensures s == b
  {
    hide Yielded, Parsed, Echoes;
    YieldedNothing(Echo, false);
    ParsedNothing(Echo, []);
    NoOks();
    if s != [] {
      EchoAll(s, []);
    }
    if b != [] {
      EchoAll(b, []);
      assert [] + Echoes(b) == Echoes(b);
      assert [] + Yielded(Echo, s, false) == Yielded(Echo, s, false);
      assert |Oks(Echoes(b))| > 0 ==> Oks(Echoes(b))[0].Success?;
      if s != [] {
        EchoesApart(s, b);
      }
    }
  }

  /** For every text: decoder and batch parser agree under all JSON decoders if and only if they
      make the same payloads of it, end markers aside. */
  lemma AgreementIsExact(text: string)
    ensures AlwaysAgree(text) <==> Real(StreamPayloads(Lines(text), "")) == Real(BatchPayloads(Lines(text), ""))
  {
    hide Agree, Lines, Yielded, Parsed, Real, StreamPayloads, BatchPayloads, Matches, Unmarked, Visible;
    var s, b := Real(StreamPayloads(Lines(text), "")), Real(BatchPayloads(Lines(text), ""));
    if s == b {
      forall json: JsonDecoder ensures Agree(json, text) {
        ReadOff(json, text);
        YieldedMatchesParsed(json, s, []);
      }
    } else if AlwaysAgree(text) {
      PayloadsAreVisible(Lines(text), "");
      RealIsUnmarked(StreamPayloads(Lines(text), ""));
      RealIsUnmarked(BatchPayloads(Lines(text), ""));
      assert Agree(Echo, text);
      ReadOff(Echo, text);
      EchoTellsApart(s, b);
    }
  }

  lemma DataAfterStarts(line: string, data: string)
    requires Started(data)
    ensures Started(DataAfter(line, data))
  {
  }

  /** Clean lines are a sufficient condition. */
  lemma {:induction false} CleanLinesAgree(lines: seq<string>, data: string)
    requires Started(data) && forall line :: line in lines ==> TrimEnd(line) == line
    ensures StreamPayloads(lines, data) == BatchPayloads(lines, data)
  {
    hide Trim, TrimEnd, DataAfter, Event;
    if lines != [] {
      StartedTrim(data);
      assert lines[0] in lines;
      if lines[0] == "" {
        CleanLinesAgree(lines[1..], "");
      } else {
        DataAfterStarts(lines[0], data);
        CleanLinesAgree(lines[1..], DataAfter(lines[0], data));
      }
    }
  }

  /** On clean text the decoder yields exactly the batch parser's chunks, or, when that parser
      fails, some chunks followed by its error, however the bytes are cut. */
  lemma StreamingRefinesBatch(json: JsonDecoder, text: string, sizes: seq<nat>)
    requires CleanLines(text)
    ensures match BatchFrom(json, Lines(text), "", [])
            case Success(chunks) => DecodedItems(json, Cut(Utf8.Encode(text), sizes)) == Oks(chunks)
            case Failure(error) => FailsWith(DecodedItems(json, Cut(Utf8.Encode(text), sizes)), error)
  {
    hide Items, BatchFrom, Lines, Cut, StreamPayloads, BatchPayloads, Real, Utf8.Encode, DecodedItems;
    CutItems(json, Utf8.Encode(text), sizes);
    CleanLinesAgree(Lines(text), "");
    AgreementIsExact(text);
    assert Agree(json, text);
    NoOks();
    assert forall items: seq<Item> :: [] + items == items;
  }

  // ----- Where the two differ -----

  const BLANK_LINE := "data:a\n \ndata:b"

  /** Accepts the payloads a and b, each a usage report, and nothing else. */
  function PairDecoder(payload: string): Option<WireChunk> {
    if payload == "a" || payload == "b" then Some(WireChunk([], Some(TokenUsage(1, 1, 2, false)))) else None
  }

  /** A line of spaces ends an event for the batch parser and is ignored by the decoder. */
  lemma BlankLineDiffers()
    ensures BatchPayloads(Lines(BLANK_LINE), "") == ["a", "b"] && StreamPayloads(Lines(BLANK_LINE), "") == ["a\nb"]
    ensures BatchFrom(PairDecoder, Lines(BLANK_LINE), "", []).Success?
    ensures Items(PairDecoder, Utf8.Encode(BLANK_LINE), false, "", false) == [Failure(INVALID_PAYLOAD)]
    ensures !AlwaysAgree(BLANK_LINE)
  {
    hide BatchFrom, Items, Lines, Utf8.Encode, StreamPayloads, BatchPayloads, Parsed, Yielded, AlwaysAgree, Real;
    BlankLines();
    BlankPayloads();
    BatchIsParsed(PairDecoder, Lines(BLANK_LINE), "", []);
    StreamIsYielded(PairDecoder, BLANK_LINE, "", false);
    PairAnswers();
    AgreementIsExact(BLANK_LINE);
    PairsAreReal();
  }

  lemma PairsAreReal()
    ensures Real(["a", "b"]) == ["a", "b"] && Real(["a\nb"]) == ["a\nb"]
  {
    assert ["a", "b"][1..] == ["b"] && ["b"][1..] == [] && ["a\nb"][1..] == [];
    assert Real(["b"]) == ["b"];
  }

  lemma PairAnswers()
    ensures Parsed(PairDecoder, ["a", "b"], []).Success?
    ensures Yielded(PairDecoder, ["a\nb"], false) == [Failure(INVALID_PAYLOAD)]
  {
    assert ["a", "b"][1..] == ["b"] && ["b"][1..] == [];
    NoChoices(Some(TokenUsage(1, 1, 2, false)));
  }

  lemma BlankLines()
    ensures Lines(BLANK_LINE) == ["data:a", " ", "data:b"]
  {
    hide Lines;
    assert BLANK_LINE[6] == '\n' && BLANK_LINE[..6] == "data:a" && BLANK_LINE[7..] == " \ndata:b";
    assert " \ndata:b"[1] == '\n' && " \ndata:b"[..1] == " " && " \ndata:b"[2..] == "data:b";
    OneLine(BLANK_LINE, 6);
    OneLine(" \ndata:b", 1);
    LastLine("data:b");
  }

  lemma OneLine(text: string, p: nat)
    requires 0 < p < |text| && text[p] == '\n' && '\n' !in text[..p] && text[p - 1] != '\r'
    ensures Lines(text) == [text[..p]] + Lines(text[p + 1..])
  {
    IndexOfIs(text, '\n', p);
    assert text[..p][|text[..p]| - 1] == text[p - 1];
  }

  lemma LastLine(line: string)
    requires line != "" && '\n' !in line
    ensures Lines(line) == [line]
  {
    assert line[..|line|] == line;
    IndexOfIs(line, '\n', |line|);
  }

  lemma BlankPayloads()
    ensures BatchPayloads(["data:a", " ", "data:b"], "") == ["a", "b"]
    ensures StreamPayloads(["data:a", " ", "data:b"], "") == ["a\nb"]
  {
    hide Trim, TrimEnd, DataAfter;
    DataLine("data:a", "a", "");
    DataLine("data:b", "b", "");
    DataLine("data:b", "b", "a");
    SpaceLine("a");
    assert "" + "" + "a" == "a" && "" + "" + "b" == "b" && "a" + "\n" + "b" == "a\nb";
    TrimVisible("a");
    TrimVisible("b");
    TrimVisible("a\nb");
    assert ["data:a", " ", "data:b"][1..] == [" ", "data:b"] && [" ", "data:b"][1..] == ["data:b"] && ["data:b"][1..] == [];
  }

  lemma DataLine(line: string, value: string, data: string)
    requires |line| > 5 && "data:" == line[..5] && value == line[5..]
    requires !IsWhitespace(value[0]) && !IsWhitespace(value[|value| - 1])
    ensures DataAfter(line, data) == data + (if data == "" then "" else "\n") + value && TrimEnd(line) == line
  {
    hide TrimStart, TrimEnd, Trim, IsWhitespace;
    assert line[0] == line[..5][0] == 'd';
    assert !IsWhitespace('d') by { Letter(); }
    TrimVisible(line);
    TrimVisible(value);
  }

  lemma Letter()
    ensures !IsWhitespace('d')
  {
  }

  lemma SpaceLine(data: string)
    ensures DataAfter(" ", data) == data && TrimEnd(" ") == ""
  {
    assert TrimStart(" ") == TrimStart("") && TrimEnd(" ") == TrimEnd("");
  }
}
