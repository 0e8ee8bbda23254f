/** Event streams as a server writes them, and what both parsers read from them. */
module SsePrinter {
  import opened Core
  import opened Text
  import opened SseDecoder
  import opened SseBatch
  import Utf8

  // ----- What is written -----

  /** A data line, with any white space around its name; or any other line that is not blank: a
      comment, another field. */
  datatype SourceLine =
    | Data(before: string, between: string, value: string, crlf: bool)
    | Other(before: string, rest: string, crlf: bool)

  /** The lines of an event, and the end of the empty line after them. */
  datatype SourceEvent = SourceEvent(lines: seq<SourceLine>, crlf: bool)

  function Content(line: SourceLine): string {
    match line
    case Data(before, between, value, _) => before + "data:" + between + value
    case Other(before, rest, _) => before + rest
  }

  function LineEnd(crlf: bool): string {
    if crlf then "\r\n" else "\n"
  }

  predicate OnOneLine(text: string) {
    '\n' !in text && (text == "" || text[|text| - 1] != '\r')
  }

  /** Values have no white space at their ends; other lines do not start like a data line. */
  predicate WellFormed(line: SourceLine) {
    && OnOneLine(Content(line)) && IsBlank(line.before)
    && match line
       case Data(_, between, value, _) => IsBlank(between) && (value == "" || IsTrimmed(value))
       case Other(_, rest, _) => rest != "" && !IsWhitespace(rest[0]) && !("data:" <= rest)
  }

  predicate AllWellFormed(lines: seq<SourceLine>) {
    forall i :: 0 <= i < |lines| ==> WellFormed(lines[i])
  }

  function PrintLines(lines: seq<SourceLine>): string {
    if lines == [] then "" else Content(lines[0]) + LineEnd(lines[0].crlf) + PrintLines(lines[1..])
  }

  /** The text of the events, each ended by an empty line, and of the lines of one that is not. */
  function Print(events: seq<SourceEvent>, rest: seq<SourceLine>): string {
    if events == [] then PrintLines(rest)
    else PrintLines(events[0].lines) + ("" + LineEnd(events[0].crlf) + Print(events[1..], rest))
  }

  // ----- What it means -----

  /** The values of the data lines, in order. */
  function Values(lines: seq<SourceLine>): seq<string> {
    if lines == [] then []
    else (if lines[0].Data? then [lines[0].value] else []) + Values(lines[1..])
  }

  /** The values with a line end between any two. */
  function Joined(values: seq<string>): string {
    if values == [] then ""
    else if |values| == 1 then values[0]
    else Joined(values[..|values| - 1]) + "\n" + values[|values| - 1]
  }

  function PayloadOf(values: seq<string>): seq<string> {
    if IsBlank(Joined(values)) then [] else [Trim(Joined(values))]
  }

  function Payloads(events: seq<SourceEvent>, rest: seq<SourceLine>): seq<string> {
    if events == [] then PayloadOf(Values(rest)) else PayloadOf(Values(events[0].lines)) + Payloads(events[1..], rest)
  }

  /** Of values that are not empty the payload is exactly all of them. */
  lemma PayloadIsJoined(values: seq<string>)
    requires values != [] && forall i :: 0 <= i < |values| ==> IsTrimmed(values[i])
    ensures PayloadOf(values) == [Joined(values)]
  {
    hide Joined, IsWhitespace, TrimStart, TrimEnd;
    JoinedIsTrimmed(values);
    TrimVisible(Joined(values));
  }

  lemma {:induction false} JoinedIsTrimmed(values: seq<string>)
    requires values != [] && forall i :: 0 <= i < |values| ==> IsTrimmed(values[i])
    ensures IsTrimmed(Joined(values))
  {
    hide IsWhitespace;
    if |values| > 1 {
      JoinedIsTrimmed(values[..|values| - 1]);
    }
  }

  // ----- The lines of the text -----

  function Contents(lines: seq<SourceLine>): (contents: seq<string>)
    ensures |contents| == |lines|
  {
    seq(|lines|, i requires 0 <= i < |lines| => Content(lines[i]))
  }

  function PrintedLines(events: seq<SourceEvent>, rest: seq<SourceLine>): seq<string> {
    if events == [] then Contents(rest) else Contents(events[0].lines) + ([""] + PrintedLines(events[1..], rest))
  }

  lemma LinesOne(content: string, crlf: bool, rest: string)
    requires OnOneLine(content)
    ensures Lines(content + LineEnd(crlf) + rest) == [content] + Lines(rest)
  {
    hide Lines;
    var text := content + LineEnd(crlf) + rest;
    var p := |content| + if crlf then 1 else 0;
    assert text[p] == '\n' && text[..p] == content + (if crlf then "\r" else "") && text[p + 1..] == rest;
    IndexOfIs(text, '\n', p);
    LinesStep(text);
    assert StripReturnText(text[..p]) == content by {
      assert crlf ==> text[..p][..p - 1] == content;
    }
  }

  lemma LinesStep(text: string)
    requires IndexOf(text, '\n') < |text|
    ensures var p := IndexOf(text, '\n'); Lines(text) == [StripReturnText(text[..p])] + Lines(text[p + 1..])
  {
  }

  lemma {:induction false} LinesOfLines(lines: seq<SourceLine>, rest: string)
    requires AllWellFormed(lines)
    ensures Lines(PrintLines(lines) + rest) == Contents(lines) + Lines(rest)
  {
    hide Lines, Content, LineEnd, IsBlank, OnOneLine, IsTrimmed, IsWhitespace;
    if lines == [] {
      assert PrintLines(lines) + rest == rest && Contents(lines) + Lines(rest) == Lines(rest);
    } else {
      var first, more := lines[0], lines[1..];
      assert WellFormed(first);
      LinesOne(Content(first), first.crlf, PrintLines(more) + rest);
      LinesOfLines(more, rest);
      Regroup(Content(first), LineEnd(first.crlf), PrintLines(more), rest);
      assert Contents(lines) == [Content(first)] + Contents(more);
    }
  }

  lemma Regroup(a: string, b: string, c: string, d: string)
    ensures a + b + c + d == a + b + (c + d)
  {
  }

  lemma {:induction false} LinesOfPrint(events: seq<SourceEvent>, rest: seq<SourceLine>, end: string)
    requires AllWellFormed(rest) && forall i :: 0 <= i < |events| ==> AllWellFormed(events[i].lines)
    ensures Lines(Print(events, rest) + end) == PrintedLines(events, rest) + Lines(end)
  {
    hide Lines, PrintLines, LineEnd, AllWellFormed, Contents;
    if events == [] {
      LinesOfLines(rest, end);
    } else {
      var more := Print(events[1..], rest);
      LinesOfLines(events[0].lines, "" + LineEnd(events[0].crlf) + (more + end));
      LinesOne("", events[0].crlf, more + end);
      LinesOfPrint(events[1..], rest, end);
      Associate(PrintLines(events[0].lines), "" + LineEnd(events[0].crlf), more, end);
      assert Contents(events[0].lines) + ([""] + (PrintedLines(events[1..], rest) + Lines(end))) ==
             Contents(events[0].lines) + ([""] + PrintedLines(events[1..], rest)) + Lines(end);
    }
  }

  lemma Associate(a: string, b: string, c: string, d: string)
    ensures a + (b + c) + d == a + (b + (c + d))
  {
  }

  /** The text of the events and of the rest, whose last line may lack its end. */
  predicate IsPrinted(text: string, events: seq<SourceEvent>, rest: seq<SourceLine>) {
    || text == Print(events, rest)
    || (rest != [] && text == Print(events, rest[..|rest| - 1]) + Content(rest[|rest| - 1]))
  }

  lemma LinesOfPrinted(text: string, events: seq<SourceEvent>, rest: seq<SourceLine>)
    requires IsPrinted(text, events, rest)
    requires AllWellFormed(rest) && forall i :: 0 <= i < |events| ==> AllWellFormed(events[i].lines)
    ensures Lines(text) == PrintedLines(events, rest)
  {
    hide Lines, Print, PrintedLines, IsBlank, IsTrimmed, IsWhitespace, Content;
    if text == Print(events, rest) {
      LinesOfPrint(events, rest, "");
      NoLines();
      assert text + "" == text && PrintedLines(events, rest) + [] == PrintedLines(events, rest);
    } else {
      var init, last := rest[..|rest| - 1], rest[|rest| - 1];
      assert WellFormed(last);
      LinesOfPrint(events, init, Content(last));
      NotEmpty(last);
      LastLine(Content(last));
      OneMoreLine(events, rest);
    }
  }

  lemma NotEmpty(line: SourceLine)
    requires WellFormed(line)
    ensures Content(line) != "" && '\n' !in Content(line)
  {
  }

  lemma {:induction false} OneMoreLine(events: seq<SourceEvent>, rest: seq<SourceLine>)
    requires rest != []
    ensures PrintedLines(events, rest) == PrintedLines(events, rest[..|rest| - 1]) + [Content(rest[|rest| - 1])]
  {
    hide Content;
    var init, last := rest[..|rest| - 1], rest[|rest| - 1];
    if events == [] {
      assert Contents(rest) == Contents(init) + [Content(last)];
    } else {
      OneMoreLine(events[1..], rest);
      var more := PrintedLines(events[1..], init);
      assert Contents(events[0].lines) + ([""] + (more + [Content(last)])) ==
             Contents(events[0].lines) + ([""] + more) + [Content(last)];
    }
  }

  lemma NoLines()
    ensures Lines("") == []
  {
  }

  // ----- What the parsers make of the lines -----

  /** The partial event after some data lines. */
  function Fed(values: seq<string>): string {
    if values == [] then ""
    else
      var before := Fed(values[..|values| - 1]);
      before + (if before == "" then "" else "\n") + values[|values| - 1]
  }

  predicate AllValues(values: seq<string>) {
    forall i :: 0 <= i < |values| ==> values[i] == "" || IsTrimmed(values[i])
  }

  /** Empty values in front leave no trace, and only a line end each in the joined text. */
  lemma {:induction false} FedIsJoined(values: seq<string>) returns (lost: string)
    requires AllValues(values)
    ensures IsBlank(lost) && Joined(values) == lost + Fed(values)
    ensures Started(Fed(values))
  {
    hide Joined, Fed, IsBlank, Started, IsTrimmed;
    NothingLost();
    lost := "";
    if values != [] {
      var init, last := values[..|values| - 1], values[|values| - 1];
      OneMoreValue(values);
      lost := FedIsJoined(init);
      lost := FedStep(lost, Fed(init), last, |values| == 1);
    }
  }

  lemma OneMoreValue(values: seq<string>)
    requires values != []
    ensures var init, last := values[..|values| - 1], values[|values| - 1];
            && Joined(values) == (if |values| == 1 then last else Joined(init) + "\n" + last)
            && Fed(values) == Fed(init) + (if Fed(init) == "" then "" else "\n") + last
            && (|values| == 1 ==> init == [] && Fed(init) == "" && Joined(init) == "")
  {
  }

  lemma FedStep(lost: string, data: string, last: string, first: bool) returns (more: string)
    requires IsBlank(lost) && Started(data) && (last == "" || IsTrimmed(last)) && (first ==> data == "" && lost == "")
    ensures IsBlank(more) && Started(data + (if data == "" then "" else "\n") + last)
    ensures (if first then last else lost + data + "\n" + last) == more + (data + (if data == "" then "" else "\n") + last)
  {
    hide IsBlank, Started, IsTrimmed;
    StartsVisible(last);
    if data == "" {
      assert data + "" + last == "" + "" + last == last;
      OneMoreBlank(lost);
      more := if first then lost else lost + "\n";
    } else {
      StartedStays(data, "\n" + last);
      assert data + "\n" + last == data + ("\n" + last);
      more := lost;
    }
  }

  lemma NothingLost()
    ensures IsBlank("") && Joined([]) == Fed([]) == "" && Started("")
  {
  }

  lemma OneMoreBlank(lost: string)
    requires IsBlank(lost)
    ensures IsBlank(lost + "\n")
  {
  }

  lemma StartsVisible(value: string)
    requires value == "" || IsTrimmed(value)
    ensures Started(value) && Started("" + "" + value)
  {
  }

  lemma StartedStays(data: string, more: string)
    requires Started(data) && data != ""
    ensures Started(data + more)
  {
  }

  /** The event of the lines fed is the payload of their values. */
  lemma FedEvent(values: seq<string>)
    requires AllValues(values)
    ensures Event(Fed(values)) == PayloadOf(values) && (Trim(Fed(values)) == "" <==> Fed(values) == "")
  {
    hide Fed, Joined, TrimStart, TrimEnd, AllValues;
    var lost := FedIsJoined(values);
    TrimStartSkips(lost, Fed(values));
    TrimEmpty(Joined(values));
    StartedTrim(Fed(values));
  }

  lemma {:induction false} ValuesAppend(a: seq<SourceLine>, b: seq<SourceLine>)
    ensures Values(a + b) == Values(a) + Values(b)
  {
    if a == [] {
      assert a + b == b;
    } else {
      assert (a + b)[1..] == a[1..] + b;
      ValuesAppend(a[1..], b);
    }
  }

  lemma {:induction false} ValuesAreTrimmed(lines: seq<SourceLine>)
    requires AllWellFormed(lines)
    ensures AllValues(Values(lines))
  {
    hide IsTrimmed, OnOneLine, IsBlank, IsWhitespace;
    if lines != [] {
      assert WellFormed(lines[0]);
      ValuesAreTrimmed(lines[1..]);
    }
  }

  /** A line, with or without the white space at its end, as both parsers take it. */
  lemma LineFeeds(line: SourceLine, data: string)
    requires WellFormed(line)
    ensures Content(line) != "" && TrimEnd(Content(line)) != ""
    ensures var after := if line.Data? then data + (if data == "" then "" else "\n") + line.value else data;
            DataAfter(Content(line), data) == after && DataAfter(TrimEnd(Content(line)), data) == after
  {
    match line {
      case Data(before, between, value, _) =>
        DataFeeds(before, between, value, data);
        if value == "" {
          assert Content(line) == before + "data:" + between + "" == (before + "data:" + "" + "") + between;
          TrimEndSkips(before + "data:" + "" + "", between);
          EndsVisible(before + "data:" + "" + "");
          DataFeeds(before, "", "", data);
        } else {
          EndsVisible(Content(line));
        }
      case Other(before, rest, _) =>
        OtherFeeds(before, rest, data);
        OtherTrimmed(before, rest);
        OtherFeeds(before, TrimEnd(rest), data);
    }
  }

  lemma EndsVisible(text: string)
    requires text != "" && !IsWhitespace(text[|text| - 1])
    ensures TrimEnd(text) == text
  {
  }

  lemma DataFeeds(before: string, between: string, value: string, data: string)
    requires IsBlank(before) && IsBlank(between) && (value == "" || IsTrimmed(value))
    ensures DataAfter(before + "data:" + between + value, data) == data + (if data == "" then "" else "\n") + value
  {
    hide TrimStart;
    var line, named := before + "data:" + between + value, "data:" + (between + value);
    assert line == before + named;
    TrimStartSkips(before, named);
    NameIsVisible();
    TrimStartKeeps("data:", between + value);
    assert named[..5] == "data:" && named[5..] == between + value && named[0] == 'd';
    TrimStartSkips(between, value);
    ValueStays(value);
  }

  lemma NameIsVisible()
    ensures !IsWhitespace("data:"[0])
  {
  }

  lemma ValueStays(value: string)
    requires value == "" || IsTrimmed(value)
    ensures TrimStart(value) == value
  {
  }

  lemma OtherFeeds(before: string, rest: string, data: string)
    requires IsBlank(before) && rest != "" && !IsWhitespace(rest[0]) && !("data:" <= rest)
    ensures DataAfter(before + rest, data) == data
  {
    TrimStartSkips(before, rest);
    TrimStartKeeps(rest, "");
    assert rest + "" == rest;
  }

  lemma OtherTrimmed(before: string, rest: string)
    requires IsBlank(before) && rest != "" && !IsWhitespace(rest[0]) && !("data:" <= rest)
    ensures TrimEnd(before + rest) == before + TrimEnd(rest)
    ensures TrimEnd(rest) != "" && TrimEnd(rest)[0] == rest[0] && !("data:" <= TrimEnd(rest))
  {
    hide IsWhitespace;
    var after := EndSplits(rest);
    TrimEndPrefix(rest);
    var word := TrimEnd(rest);
    assert rest == word + after;
    assert !IsBlank(rest);
    assert before + rest == (before + word) + after;
    TrimEndSkips(before + word, after);
    EndsVisible(before + word);
    assert "data:" <= word ==> "data:" <= rest;
  }

  lemma FedSnoc(values: seq<string>, value: string)
    ensures Fed(values + [value]) == Fed(values) + (if Fed(values) == "" then "" else "\n") + value
  {
    assert (values + [value])[..|values|] == values;
  }

  /** The lines of an event, after some of them, in front of any others. */
  lemma {:induction false} LinesFeed(done: seq<SourceLine>, lines: seq<SourceLine>, more: seq<string>)
    requires AllWellFormed(lines)
    ensures StreamPayloads(Contents(lines) + more, Fed(Values(done))) == StreamPayloads(more, Fed(Values(done + lines)))
    ensures BatchPayloads(Contents(lines) + more, Fed(Values(done))) == BatchPayloads(more, Fed(Values(done + lines)))
    decreases |lines|
  {
    hide Content, WellFormed, Fed, Values, TrimEnd, DataAfter, SseBatch.Event;
    if lines == [] {
      assert Contents(lines) + more == more && done + lines == done;
    } else {
      var first, rest := lines[0], lines[1..];
      assert WellFormed(first);
      var all := Contents(lines) + more;
      assert all[0] == Content(first) && all[1..] == Contents(rest) + more;
      LineFeeds(first, Fed(Values(done)));
      OneLineFed(done, first);
      LinesFeed(done + [first], rest, more);
      assert done + [first] + rest == done + lines;
    }
  }

  lemma OneLineFed(done: seq<SourceLine>, line: SourceLine)
    ensures var data := Fed(Values(done));
            Fed(Values(done + [line])) == if line.Data? then data + (if data == "" then "" else "\n") + line.value else data
  {
    ValuesAppend(done, [line]);
    assert [line][1..] == [] && Values([line]) == if line.Data? then [line.value] else [];
    if line.Data? {
      FedSnoc(Values(done), line.value);
    } else {
      assert Values(done) + [] == Values(done);
    }
  }

  lemma {:induction false} PrintedPayloads(events: seq<SourceEvent>, rest: seq<SourceLine>)
    requires AllWellFormed(rest) && forall i :: 0 <= i < |events| ==> AllWellFormed(events[i].lines)
    ensures StreamPayloads(PrintedLines(events, rest), "") == Payloads(events, rest)
    ensures BatchPayloads(PrintedLines(events, rest), "") == Payloads(events, rest)
  {
    hide AllWellFormed, Contents, PayloadOf, Trim, SseBatch.Event, DataAfter;
    NothingFed();
    if events == [] {
      LinesFeed([], rest, []);
      assert Contents(rest) + [] == Contents(rest) && [] + rest == rest;
      ValuesAreTrimmed(rest);
      FedEvent(Values(rest));
    } else {
      var lines, more := events[0].lines, PrintedLines(events[1..], rest);
      LinesFeed([], lines, [""] + more);
      assert [] + lines == lines && ([""] + more)[1..] == more && ([""] + more)[0] == "";
      ValuesAreTrimmed(lines);
      FedEvent(Values(lines));
      PrintedPayloads(events[1..], rest);
    }
  }

  lemma NothingFed()
    ensures Fed(Values([])) == "" && TrimEnd("") == ""
  {
  }

  // ----- What comes out -----

  predicate Decodes(json: JsonDecoder, payload: string) {
    payload == "[DONE]" || json(payload).Some?
  }

  /** The chunks of payloads that decode, in order. */
  function ChunksOf(json: JsonDecoder, payloads: seq<string>): seq<Chunk>
    requires forall i :: 0 <= i < |payloads| ==> Decodes(json, payloads[i])
  {
    if payloads == [] then []
    else
      assert Decodes(json, payloads[0]);
      PayloadChunks(json, payloads[0]).value + ChunksOf(json, payloads[1..])
  }

  /** All payloads up to the first that does not decode. */
  lemma {:induction false} PayloadsYield(json: JsonDecoder, payloads: seq<string>, k: nat, chunks: seq<Chunk>)
    requires k <= |payloads| && (forall i :: 0 <= i < k ==> Decodes(json, payloads[i]))
    requires k < |payloads| ==> !Decodes(json, payloads[k])
    ensures var all := ChunksOf(json, payloads[..k]);
            if k < |payloads| then
              && Yielded(json, payloads, chunks != []) == Oks(all) + [Failure(INVALID_PAYLOAD)]
              && Parsed(json, payloads, chunks) == Failure(INVALID_PAYLOAD)
            else
              && Yielded(json, payloads, chunks != []) == (if chunks + all == [] then [Failure(EMPTY_STREAM)] else Oks(all))
              && Parsed(json, payloads, chunks) == if chunks + all == [] then Failure(EMPTY_STREAM) else Success(chunks + all)
  {
    hide PayloadChunks, Oks, ChunksOf, Yielded, Parsed;
    NoOks();
    NoChunks(json);
    if k == 0 {
      assert payloads[..0] == [] && chunks + [] == chunks;
      YieldedNothing(json, chunks != []);
      ParsedNothing(json, chunks);
      if payloads != [] {
        assert payloads == [payloads[0]] + payloads[1..];
        PayloadMeans(json, payloads[0]);
        ParsedCons(json, payloads[0], payloads[1..], chunks);
        YieldedCons(json, payloads[0], payloads[1..], chunks != []);
        var invalid: seq<Item> := [Failure(INVALID_PAYLOAD)];
        assert [] + invalid == invalid;
      }
    } else {
      assert Decodes(json, payloads[0]);
      PayloadMeans(json, payloads[0]);
      var more, rest := PayloadChunks(json, payloads[0]).value, payloads[1..];
      assert payloads == [payloads[0]] + rest;
      ParsedCons(json, payloads[0], rest, chunks);
      YieldedCons(json, payloads[0], rest, chunks != []);
      assert payloads[..k][0] == payloads[0] && payloads[..k][1..] == rest[..k - 1];
      ChunksCons(json, payloads[..k]);
      PayloadsYield(json, rest, k - 1, chunks + more);
      YieldedMore(more, ChunksOf(json, rest[..k - 1]), chunks);
    }
  }

  lemma NoChunks(json: JsonDecoder)
    ensures ChunksOf(json, []) == []
  {
  }

  lemma ChunksCons(json: JsonDecoder, payloads: seq<string>)
    requires payloads != [] && forall i :: 0 <= i < |payloads| ==> Decodes(json, payloads[i])
    ensures PayloadChunks(json, payloads[0]).Success?
    ensures ChunksOf(json, payloads) == PayloadChunks(json, payloads[0]).value + ChunksOf(json, payloads[1..])
  {
    hide PayloadChunks;
    assert Decodes(json, payloads[0]);
    PayloadMeans(json, payloads[0]);
  }

  lemma YieldedMore(more: seq<Chunk>, tail: seq<Chunk>, chunks: seq<Chunk>)
    ensures chunks + more + tail == chunks + (more + tail)
    ensures forall end: seq<Item> :: Oks(more) + (Oks(tail) + end) == Oks(more + tail) + end
    ensures Oks(more) + Oks(tail) == Oks(more + tail)
    ensures chunks + more + tail == [] ==> forall end: seq<Item> :: Oks(more) + end == end
  {
    hide Oks;
    OksAppend(more, tail);
    NoOks();
    forall end: seq<Item> ensures Oks(more) + (Oks(tail) + end) == Oks(more + tail) + end {
    }
    assert more != [] ==> |chunks + more + tail| > 0;
    assert forall end: seq<Item> :: [] + end == end;
  }

  /** Round trip: whatever a server writes as events, with white space and other lines anywhere, with
      line ends of both kinds, and with or without the last one, the decoder reads their values, for every cut of the bytes; so
      does the batch parser; and both answer with the chunks of those payloads up to the first that
      does not decode. */
  lemma PrintedIsRead(json: JsonDecoder, events: seq<SourceEvent>, rest: seq<SourceLine>, text: string, sizes: seq<nat>, k: nat)
    requires IsPrinted(text, events, rest)
    requires AllWellFormed(rest) && forall i :: 0 <= i < |events| ==> AllWellFormed(events[i].lines)
    requires var payloads := Payloads(events, rest);
             && k <= |payloads| && (forall i :: 0 <= i < k ==> Decodes(json, payloads[i]))
             && (k < |payloads| ==> !Decodes(json, payloads[k]))
    ensures var payloads := Payloads(events, rest);
            && StreamPayloads(Lines(text), "") == payloads && BatchPayloads(Lines(text), "") == payloads
            && var chunks, items := ChunksOf(json, payloads[..k]), DecodedItems(json, Cut(Utf8.Encode(text), sizes));
            if k < |payloads| then
              && items == Oks(chunks) + [Failure(INVALID_PAYLOAD)]
              && BatchFrom(json, Lines(text), "", []) == Failure(INVALID_PAYLOAD)
            else if chunks == [] then
              items == [Failure(EMPTY_STREAM)] && BatchFrom(json, Lines(text), "", []) == Failure(EMPTY_STREAM)
            else
              items == Oks(chunks) && BatchFrom(json, Lines(text), "", []) == Success(chunks)
  {
    hide Lines, Print, PrintedLines, Payloads, StreamPayloads, BatchPayloads, Utf8.Encode, Cut, DecodedItems, Items, BatchFrom,
         Yielded, Parsed, ChunksOf, AllWellFormed, Decodes, Oks, IsPrinted;
    LinesOfPrinted(text, events, rest);
    PrintedPayloads(events, rest);
    CutItems(json, Utf8.Encode(text), sizes);
    StreamIsYielded(json, text, "", false);
    BatchIsParsed(json, Lines(text), "", []);
    PayloadsYield(json, Payloads(events, rest), k, []);
    var chunks := ChunksOf(json, Payloads(events, rest)[..k]);
    assert [] + chunks == chunks;
  }
}
