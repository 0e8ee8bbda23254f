/** The incremental server-sent-events decoder of mizan-providers (`stream_sse_chunks`). */
module SseDecoder {
  import opened Core
  import opened Text
  import Utf8

  type Byte = Utf8.Byte

  datatype Chunk = Chunk(index: nat, delta: string, finishReason: Option<string>, usage: Option<TokenUsage>)

  /** One decoded wire payload. */
  datatype WireChunk = WireChunk(choices: seq<WireChoice>, usage: Option<TokenUsage>)
  datatype WireChoice = WireChoice(index: nat, content: Option<string>, finishReason: Option<string>)

  /** JSON decoding of a payload is a parameter of the model. */
  type JsonDecoder = string -> Option<WireChunk>

  type Item = AppResult<Chunk>

  /** What the network hands over: a piece of the body, or a read error. */
  datatype Arrival = Piece(bytes: seq<Byte>) | Broken

  const NEWLINE: Byte := 10
  const CARRIAGE_RETURN: Byte := 13

  const INVALID_LINE := AppError.Provider("invalid upstream stream line")
  const INVALID_PAYLOAD := AppError.Provider("invalid upstream stream payload")
  const EMPTY_STREAM := AppError.Provider("upstream stream response was empty")
  const READ_FAILED := AppError.Infrastructure("upstream chat completion stream read failed")

  // ----- One event -----

  function ChoiceChunks(choices: seq<WireChoice>, usage: Option<TokenUsage>): seq<Chunk> {
    if choices == [] then []
    else
      ChoiceChunk(choices[0], usage) + ChoiceChunks(choices[1..], usage)
  }

  /** The chunks of one event: none for the end marker, and a bare usage chunk when every
      choice is empty but usage is reported. */
  function EventChunks(json: JsonDecoder, data: string): AppResult<seq<Chunk>> {
    PayloadChunks(json, Trim(data))
  }

  function PayloadChunks(json: JsonDecoder, payload: string): AppResult<seq<Chunk>> {
    if payload == "[DONE]" then Success([])
    else
      match json(payload)
      case None => Failure(INVALID_PAYLOAD)
      case Some(wire) =>
        var chunks := ChoiceChunks(wire.choices, wire.usage);
        if chunks == [] && wire.usage.Some? then Success([Chunk(0, "", None, wire.usage)])
        else Success(chunks)
  }

  function ChoiceChunk(choice: WireChoice, usage: Option<TokenUsage>): seq<Chunk> {
    var delta := choice.content.GetOr("");
    if delta == "" && choice.finishReason.None? then []
    else [Chunk(choice.index, delta, choice.finishReason, usage)]
  }

  lemma {:induction false} ChoiceChunksSnoc(choices: seq<WireChoice>, last: WireChoice, usage: Option<TokenUsage>)
    ensures ChoiceChunks(choices + [last], usage) == ChoiceChunks(choices, usage) + ChoiceChunk(last, usage)
  {
    hide ChoiceChunk;
    if choices == [] {
      assert choices + [last] == [last];
      assert ChoiceChunks([], usage) == [];
    } else {
      assert (choices + [last])[1..] == choices[1..] + [last];
      ChoiceChunksSnoc(choices[1..], last, usage);
    }
  }

  lemma NoChoices(usage: Option<TokenUsage>)
    ensures ChoiceChunks([], usage) == []
  {
  }

  lemma {:induction false} ChoiceChunksAppend(a: seq<WireChoice>, b: seq<WireChoice>, usage: Option<TokenUsage>)
    ensures ChoiceChunks(a + b, usage) == ChoiceChunks(a, usage) + ChoiceChunks(b, usage)
  {
    hide ChoiceChunk;
    if a == [] {
      assert a + b == b;
    } else {
      assert (a + b)[1..] == a[1..] + b;
      ChoiceChunksAppend(a[1..], b, usage);
    }
  }

  /** Each choice by itself: one chunk with its index, text and finish reason, and the usage of the
      payload; none for a choice without text and finish reason. */
  lemma ChoiceMeans(before: seq<WireChoice>, choice: WireChoice, after: seq<WireChoice>, usage: Option<TokenUsage>)
    ensures ChoiceChunks(before + [choice] + after, usage) ==
            ChoiceChunks(before, usage) +
            (if (choice.content.None? || choice.content.value == "") && choice.finishReason.None? then []
             else [Chunk(choice.index, if choice.content.Some? then choice.content.value else "", choice.finishReason, usage)]) +
            ChoiceChunks(after, usage)
    ensures ChoiceChunks([], usage) == []
  {
    ChoiceChunksAppend(before + [choice], after, usage);
    ChoiceChunksSnoc(before, choice, usage);
    NoChoices(usage);
  }

  /** A payload: nothing for the end marker, an error for bad JSON, else the chunks of its choices, or
      one bare chunk for a usage report without any. */
  lemma PayloadMeans(json: JsonDecoder, payload: string)
    ensures payload == "[DONE]" ==> PayloadChunks(json, payload) == Success([])
    ensures payload != "[DONE]" && json(payload).None? ==>
              PayloadChunks(json, payload) == Failure(AppError.Provider("invalid upstream stream payload"))
    ensures payload != "[DONE]" && json(payload).Some? ==>
              var wire := json(payload).value;
              var chunks := ChoiceChunks(wire.choices, wire.usage);
              PayloadChunks(json, payload) ==
              Success(if chunks == [] && wire.usage.Some? then [Chunk(0, "", None, wire.usage)] else chunks)
  {
    hide ChoiceChunks;
  }

  method ParseStreamEvent(json: JsonDecoder, rawEventData: string) returns (r: AppResult<seq<Chunk>>)
    ensures r == EventChunks(json, rawEventData)
  {
    hide Trim, ChoiceChunks;
    var payload := Trim(rawEventData);
    if payload == "[DONE]" {
      return Success([]);
    }
    match json(payload) {
      case None => return Failure(INVALID_PAYLOAD);
      case Some(wire) =>
        var chunks: seq<Chunk> := [];
        NoChoices(wire.usage);
        for i := 0 to |wire.choices|
          invariant chunks == ChoiceChunks(wire.choices[..i], wire.usage)
        {
          var choice := wire.choices[i];
          ChoiceChunksSnoc(wire.choices[..i], choice, wire.usage);
          assert wire.choices[..i + 1] == wire.choices[..i] + [choice];
          var delta := choice.content.GetOr("");
          if delta == "" && choice.finishReason.None? {
            continue;
          }
          chunks := chunks + [Chunk(choice.index, delta, choice.finishReason, wire.usage)];
        }
        assert wire.choices[..|wire.choices|] == wire.choices;
        if chunks == [] && wire.usage.Some? {
          chunks := [Chunk(0, "", None, wire.usage)];
        }
        return Success(chunks);
    }
  }

  // ----- One line -----

  /** The partial event after a line, and the chunks the line completed. */
  datatype Fed = Fed(data: string, chunks: seq<Chunk>)

  function Flush(json: JsonDecoder, data: string): (r: AppResult<Fed>)
    ensures r.Success? ==> r.value.data == ""
  {
    if Trim(data) == "" then Success(Fed("", []))
    else
      match EventChunks(json, data)
      case Failure(error) => Failure(error)
      case Success(chunks) => Success(Fed("", chunks))
  }

  function FeedText(json: JsonDecoder, line: string, data: string): AppResult<Fed> {
    if line == "" then Flush(json, data)
    else
      var trimmed := TrimStart(line);
      if ":" <= trimmed then Success(Fed(data, []))
      else if "data:" <= trimmed then
        Success(Fed(data + (if data == "" then "" else "\n") + TrimStart(trimmed[5..]), []))
      else Success(Fed(data, []))
  }

  function FeedLine(json: JsonDecoder, line: seq<Byte>, data: string): AppResult<Fed> {
    match Utf8.Decode(line)
    case None => Failure(INVALID_LINE)
    case Some(text) => FeedText(json, text, data)
  }

  // ----- The whole body -----

  function FirstNewline(bytes: seq<Byte>): (p: nat)
    ensures p <= |bytes|
  {
    IndexOf(bytes, NEWLINE)
  }

  function StripReturn(line: seq<Byte>): seq<Byte> {
    if line != [] && line[|line| - 1] == CARRIAGE_RETURN then line[..|line| - 1] else line
  }

  function Oks(chunks: seq<Chunk>): (items: seq<Item>)
    ensures |items| == |chunks|
  {
    seq(|chunks|, i requires 0 <= i < |chunks| => Success(chunks[i]))
  }

  /** The end of a body: the unfinished line is a line and the unfinished event is an event. */
  function ClosingChunks(json: JsonDecoder, line: seq<Byte>, data: string): AppResult<seq<Chunk>> {
    match if line == [] then Success(Fed(data, [])) else FeedLine(json, line, data)
    case Failure(error) => Failure(error)
    case Success(fed) =>
      match Flush(json, fed.data)
      case Failure(error) => Failure(error)
      case Success(last) => Success(fed.chunks + last.chunks)
  }

  function ClosingItems(json: JsonDecoder, line: seq<Byte>, data: string, emitted: bool): seq<Item> {
    match ClosingChunks(json, line, data)
    case Failure(error) => [Failure(error)]
    case Success(chunks) => if chunks == [] && !emitted then [Failure(EMPTY_STREAM)] else Oks(chunks)
  }

  /** What a body means: the items of `bytes` followed by a normal end, or by a read error,
      given the partial event so far. Pieces play no part here. */
  function Items(json: JsonDecoder, bytes: seq<Byte>, broken: bool, data: string, emitted: bool): seq<Item>
    decreases |bytes|
  {
    var p := FirstNewline(bytes);
    if p == |bytes| then
      if broken then [Failure(READ_FAILED)] else ClosingItems(json, bytes, data, emitted)
    else
      match FeedLine(json, StripReturn(bytes[..p]), data)
      case Failure(error) => [Failure(error)]
      case Success(fed) =>
        Oks(fed.chunks) + Items(json, bytes[p + 1..], broken, fed.data, emitted || fed.chunks != [])
  }

  function Body(arrivals: seq<Arrival>): seq<Byte> {
    if arrivals == [] || arrivals[0].Broken? then [] else arrivals[0].bytes + Body(arrivals[1..])
  }

  predicate EndsBroken(arrivals: seq<Arrival>) {
    arrivals != [] && (arrivals[0].Broken? || EndsBroken(arrivals[1..]))
  }

  function DecodedItems(json: JsonDecoder, arrivals: seq<Arrival>): seq<Item> {
    Items(json, Body(arrivals), EndsBroken(arrivals), "", false)
  }

  /** A line that is complete in the buffer is the first line of everything to come. */
  lemma ItemsAtLine(json: JsonDecoder, buffer: seq<Byte>, more: seq<Byte>, broken: bool, data: string, emitted: bool)
    requires FirstNewline(buffer) < |buffer|
    ensures var p := FirstNewline(buffer);
            Items(json, buffer + more, broken, data, emitted) ==
            match FeedLine(json, StripReturn(buffer[..p]), data)
            case Failure(error) => [Failure(error)]
            case Success(fed) =>
              Oks(fed.chunks) + Items(json, buffer[p + 1..] + more, broken, fed.data, emitted || fed.chunks != [])
  {
    hide FeedLine, StripReturn, Oks, IndexOf, ClosingItems;
    var p := FirstNewline(buffer);
    IndexOfAppend(buffer, more, NEWLINE);
    assert (buffer + more)[..p] == buffer[..p];
    assert (buffer + more)[p + 1..] == buffer[p + 1..] + more;
  }

  /** A line that is not UTF-8 is an error and the end, whatever comes after it, and so is one that the
      body ends in; a body that breaks off in a line ends in the read error. */
  lemma BadLineEnds(json: JsonDecoder, line: seq<Byte>, more: seq<Byte>, broken: bool, data: string, emitted: bool)
    requires 10 !in line
    ensures var ended := if line != [] && line[|line| - 1] == 13 then line[..|line| - 1] else line;
            Utf8.Decode(ended).None? ==>
              Items(json, line + ([10] + more), broken, data, emitted) == [Failure(AppError.Provider("invalid upstream stream line"))]
    ensures Utf8.Decode(line).None? && line != [] ==>
              Items(json, line, false, data, emitted) == [Failure(AppError.Provider("invalid upstream stream line"))]
    ensures Items(json, line, true, data, emitted) ==
            [Failure(AppError.Infrastructure("upstream chat completion stream read failed"))]
  {
    hide Utf8.Decode, FeedText;
    var bytes := line + ([NEWLINE] + more);
    assert bytes[..|line|] == line && bytes[|line|] == NEWLINE && line[..|line|] == line;
    IndexOfIs(bytes, NEWLINE, |line|);
    IndexOfIs(line, NEWLINE, |line|);
  }

  lemma ReadPiece(buffer: seq<Byte>, arrivals: seq<Arrival>)
    requires arrivals != [] && arrivals[0].Piece?
    ensures buffer + Body(arrivals) == buffer + arrivals[0].bytes + Body(arrivals[1..])
    ensures EndsBroken(arrivals) == EndsBroken(arrivals[1..])
  {
    assert buffer + (arrivals[0].bytes + Body(arrivals[1..])) == buffer + arrivals[0].bytes + Body(arrivals[1..]);
  }

  lemma ReadBroken(json: JsonDecoder, buffer: seq<Byte>, arrivals: seq<Arrival>, data: string, emitted: bool)
    requires arrivals != [] && arrivals[0].Broken? && FirstNewline(buffer) == |buffer|
    ensures Items(json, buffer + Body(arrivals), EndsBroken(arrivals), data, emitted) == [Failure(READ_FAILED)]
  {
    assert buffer + Body(arrivals) == buffer;
  }

  lemma OksAppend(a: seq<Chunk>, b: seq<Chunk>)
    ensures Oks(a + b) == Oks(a) + Oks(b)
  {
  }

  lemma ItemsAtEnd(json: JsonDecoder, line: seq<Byte>, data: string, emitted: bool)
    requires FirstNewline(line) == |line|
    ensures Items(json, line + Body([]), EndsBroken([]), data, emitted) == ClosingItems(json, line, data, emitted)
  {
    assert line + Body([]) == line;
  }

  lemma ItemsDone(json: JsonDecoder)
    ensures Items(json, [] + Body([]), EndsBroken([]), "", true) == []
  {
    TrimEmpty("");
  }

  // ----- Cutting a body into pieces -----

  /** `bytes` cut after the given piece sizes (empty and oversized ones included). */
  function Cut(bytes: seq<Byte>, sizes: seq<nat>): seq<Arrival>
    decreases |sizes|
  {
    if sizes == [] then [Piece(bytes)]
    else if sizes[0] >= |bytes| then [Piece(bytes)]
    else [Piece(bytes[..sizes[0]])] + Cut(bytes[sizes[0]..], sizes[1..])
  }

  /** Chunking independence: however a body is cut, the stream yields the items of the body. */
  lemma {:induction false} CutItems(json: JsonDecoder, bytes: seq<Byte>, sizes: seq<nat>)
    ensures DecodedItems(json, Cut(bytes, sizes)) == Items(json, bytes, false, "", false)
    decreases |sizes|
  {
    CutBody(bytes, sizes);
  }

  lemma {:induction false} CutBody(bytes: seq<Byte>, sizes: seq<nat>)
    ensures Body(Cut(bytes, sizes)) == bytes && !EndsBroken(Cut(bytes, sizes))
    decreases |sizes|
  {
    if sizes == [] || sizes[0] >= |bytes| {
      assert Body([Piece(bytes)]) == bytes + Body([]);
    } else {
      CutBody(bytes[sizes[0]..], sizes[1..]);
      assert Cut(bytes, sizes)[1..] == Cut(bytes[sizes[0]..], sizes[1..]);
      assert bytes == bytes[..sizes[0]] + bytes[sizes[0]..];
    }
  }

  /** A read error after any pieces: the complete lines before it count, the rest is the error. */
  lemma {:induction false} CutBrokenBody(bytes: seq<Byte>, sizes: seq<nat>, later: seq<Arrival>)
    ensures Body(Cut(bytes, sizes) + [Broken] + later) == bytes
    ensures EndsBroken(Cut(bytes, sizes) + [Broken] + later)
    decreases |sizes|
  {
    var arrivals := Cut(bytes, sizes) + [Broken] + later;
    if sizes == [] || sizes[0] >= |bytes| {
      assert arrivals[1..] == [Broken] + later;
      assert Body(arrivals[1..]) == [];
    } else {
      CutBrokenBody(bytes[sizes[0]..], sizes[1..], later);
      assert arrivals[1..] == Cut(bytes[sizes[0]..], sizes[1..]) + [Broken] + later;
      assert bytes == bytes[..sizes[0]] + bytes[sizes[0]..];
    }
  }

  class SseStream {
    const json: JsonDecoder
    var byteStream: seq<Arrival>
    var lineBuffer: seq<Byte>
    var eventData: string
    var pending: seq<Item>
    var emittedAny: bool
    var finished: bool

    ghost predicate Valid()
      reads this
    {
      forall i :: 0 <= i < |pending| ==> pending[i].Success?
    }

    /** The items this stream has yet to yield. */
    ghost function Remaining(): seq<Item>
      reads this
    {
      if finished then []
      else
        pending + Items(json, lineBuffer + Body(byteStream), EndsBroken(byteStream), eventData,
                        emittedAny || pending != [])
    }

    constructor (json: JsonDecoder, byteStream: seq<Arrival>)
      ensures Valid() && this.json == json
      ensures Remaining() == DecodedItems(json, byteStream)
    {
      this.json := json;
      this.byteStream := byteStream;
      lineBuffer, eventData, pending := [], "", [];
      emittedAny, finished := false, false;
      new;
      hide Items, Body, EndsBroken;
      assert lineBuffer + Body(byteStream) == Body(byteStream);
    }

    method FlushPendingSseEvent() returns (r: AppResult<()>)
      requires Valid()
      modifies this`eventData, this`pending
      ensures Valid()
      ensures match Flush(json, old(eventData))
              case Failure(error) => r == Failure(error) && pending == old(pending)
              case Success(fed) => r.Success? && eventData == fed.data && pending == old(pending) + Oks(fed.chunks)
    {
      hide EventChunks, Trim;
      if Trim(eventData) == "" {
        eventData := "";
        assert pending == old(pending) + Oks([]);
        return Success(());
      }
      var data := eventData;
      eventData := "";
      var parsed := ParseStreamEvent(json, data);
      match parsed {
        case Failure(error) => return Failure(error);
        case Success(chunks) =>
          pending := pending + Oks(chunks);
          return Success(());
      }
    }

    method ProcessSseLine(rawLine: seq<Byte>) returns (r: AppResult<()>)
      requires Valid()
      modifies this`eventData, this`pending
      ensures Valid()
      ensures match FeedLine(json, rawLine, old(eventData))
              case Failure(error) => r == Failure(error) && pending == old(pending)
              case Success(fed) => r.Success? && eventData == fed.data && pending == old(pending) + Oks(fed.chunks)
    {
      hide Utf8.Decode, Flush, TrimStart;
      match Utf8.Decode(rawLine) {
        case None => return Failure(INVALID_LINE);
        case Some(line) =>
          if line == "" {
            r := FlushPendingSseEvent();
            return;
          }
          assert pending == pending + Oks([]);
          var trimmed := TrimStart(line);
          if ":" <= trimmed {
            return Success(());
          }
          if "data:" <= trimmed {
            if eventData != "" {
              eventData := eventData + "\n";
            }
            eventData := eventData + TrimStart(trimmed[5..]);
          }
          return Success(());
      }
    }

    /** Takes the first complete line out of the buffer, without its line end, and processes it. */
    method ProcessBufferedLine(position: nat) returns (failed: Option<Item>)
      requires Valid() && !finished && pending == []
      requires position == FirstNewline(lineBuffer) < |lineBuffer|
      modifies this
      ensures Valid() && |lineBuffer| < old(|lineBuffer|) && byteStream == old(byteStream)
      ensures failed.None? ==> !finished && Remaining() == old(Remaining())
      ensures failed.Some? ==> old(Remaining()) == [failed.value] && Remaining() == []
    {
      hide FeedLine, Items, Body, EndsBroken, FirstNewline, Oks;
      ItemsAtLine(json, lineBuffer, Body(byteStream), EndsBroken(byteStream), eventData, emittedAny);
      var line := lineBuffer[..position];
      lineBuffer := lineBuffer[position + 1..];
      if line != [] && line[|line| - 1] == CARRIAGE_RETURN {
        line := line[..|line| - 1];
      }
      var processed := ProcessSseLine(line);
      if processed.Failure? {
        finished := true;
        return Some(Failure(processed.error));
      }
      return None;
    }

    /** Waits for the network: appends a piece to the buffer, or ends the stream on a read error. */
    method Receive() returns (failed: Option<Item>)
      requires Valid() && !finished && pending == [] && byteStream != []
      requires FirstNewline(lineBuffer) == |lineBuffer|
      modifies this
      ensures Valid() && |byteStream| < old(|byteStream|)
      ensures failed.None? ==> !finished && Remaining() == old(Remaining())
      ensures failed.Some? ==> old(Remaining()) == [failed.value] && Remaining() == []
    {
      hide Items, Body, EndsBroken, FirstNewline;
      var arrival := byteStream[0];
      match arrival {
        case Piece(bytes) =>
          ReadPiece(lineBuffer, byteStream);
          byteStream := byteStream[1..];
          lineBuffer := lineBuffer + bytes;
          return None;
        case Broken =>
          ReadBroken(json, lineBuffer, byteStream, eventData, emittedAny);
          byteStream := byteStream[1..];
          finished := true;
          return Some(Failure(READ_FAILED));
      }
    }

    method PopPending() returns (next: Item)
      requires Valid() && !finished && pending != []
      modifies this`pending, this`emittedAny
      ensures Valid() && old(Remaining()) == [next] + Remaining()
    {
      hide Items, Body, EndsBroken;
      next := pending[0];
      pending := pending[1..];
      if next.Success? {
        emittedAny := true;
      }
    }

    lemma NothingRemains()
      requires finished
      ensures Remaining() == []
    {
    }

    /** One poll: yields the next item of the body, whatever the pieces it arrived in. */
    method Next() returns (item: Option<Item>)
      requires Valid()
      modifies this
      ensures Valid()
      ensures old(Remaining()) == [] ==> item.None? && Remaining() == []
      ensures old(Remaining()) != [] ==> item == Some(old(Remaining())[0]) && Remaining() == old(Remaining())[1..]
    {
      hide *;
      if finished {
        NothingRemains();
        return None;
      }
      ghost var remaining := Remaining();
      while true
        invariant Valid() && !finished && Remaining() == remaining
        decreases |byteStream|, |lineBuffer|
      {
        if pending != [] {
          var next := PopPending();
          return Some(next);
        }
        var position := FirstNewline(lineBuffer);
        if position < |lineBuffer| {
          item := ProcessBufferedLine(position);
        } else if byteStream != [] {
          item := Receive();
        } else {
          item := Close();
          return;
        }
        if item.Some? {
          return;
        }
      }
    }

    /** The branch of a poll that finds the byte stream at its end. */
    method Close() returns (item: Option<Item>)
      requires Valid() && !finished && pending == [] && byteStream == []
      requires FirstNewline(lineBuffer) == |lineBuffer|
      modifies this
      ensures Valid()
      ensures old(Remaining()) == [] ==> item.None? && Remaining() == []
      ensures old(Remaining()) != [] ==> item == Some(old(Remaining())[0]) && Remaining() == old(Remaining())[1..]
    {
      hide FeedLine, Flush, Items, Body, EndsBroken, FirstNewline, ClosingChunks;
      ItemsAtEnd(json, lineBuffer, eventData, emittedAny);
      ItemsDone(json);
      assert Remaining() == ClosingItems(json, lineBuffer, eventData, emittedAny);
      var closed := FeedRest();
      if closed.Failure? {
        finished := true;
        return Some(Failure(closed.error));
      }
      assert pending != [] ==> Remaining() == pending;
      if pending != [] {
        var next := PopPending();
        return Some(next);
      }
      finished := true;
      if !emittedAny {
        return Some(Failure(EMPTY_STREAM));
      }
      return None;
    }

    /** Processes the unfinished line, then flushes the unfinished event. */
    method FeedRest() returns (r: AppResult<()>)
      requires Valid() && pending == []
      modifies this`lineBuffer, this`eventData, this`pending
      ensures Valid()
      ensures match ClosingChunks(json, old(lineBuffer), old(eventData))
              case Failure(error) => r == Failure(error)
              case Success(chunks) => r.Success? && lineBuffer == [] && eventData == "" && pending == Oks(chunks)
    {
      hide FeedLine, Flush;
      ghost var chunks: seq<Chunk> := [];
      if lineBuffer != [] {
        var line := lineBuffer;
        lineBuffer := [];
        r := ProcessSseLine(line);
        if r.Failure? {
          return;
        }
        chunks := FeedLine(json, line, old(eventData)).value.chunks;
      }
      assert pending == Oks(chunks);
      ghost var data := eventData;
      r := FlushPendingSseEvent();
      if r.Success? {
        OksAppend(chunks, Flush(json, data).value.chunks);
      }
    }
  }

  /** Polls a fresh stream until it ends. What has been yielded is always a prefix of the whole. */
  method DecodeAll(json: JsonDecoder, arrivals: seq<Arrival>) returns (items: seq<Item>)
    ensures items == DecodedItems(json, arrivals)
  {
    hide *;
    var stream := new SseStream(json, arrivals);
    items := [];
    var next := stream.Next();
    while next.Some?
      invariant stream.Valid()
      invariant next.Some? ==> DecodedItems(json, arrivals) == items + [next.value] + stream.Remaining()
      invariant next.None? ==> DecodedItems(json, arrivals) == items && stream.Remaining() == []
      decreases |stream.Remaining()|, next.Some?
    {
      items := items + [next.value];
      ghost var rest := stream.Remaining();
      next := stream.Next();
      assert next.Some? ==> rest == [next.value] + stream.Remaining();
      assert next.None? ==> items + rest == items;
    }
  }
}
