/** The placeholder scanner of mizan-api: bare question marks of a query become `$1`, `$2`, …,
    while quoted text and comments are left alone. */
module SqlScanner {
  import opened Decimal

  // ----- The lexical structure of a query -----

  datatype Mode = Plain | SingleQuote | DoubleQuote | LineComment | BlockComment

  /** A piece of a query with the scanner's mode before and after it. */
  datatype Lexeme = Lexeme(text: string, before: Mode, after: Mode) {
    predicate Bare() {
      before.Plain? && after.Plain?
    }

    predicate Placeholder() {
      Bare() && text == "?"
    }
  }

  predicate StartsWith(text: string, a: char, b: char) {
    |text| >= 2 && text[0] == a && text[1] == b
  }

  function FirstLexeme(mode: Mode, text: string): (lexeme: Lexeme)
    requires text != ""
    ensures 1 <= |lexeme.text| <= |text| && lexeme.text <= text && lexeme.before == mode
  {
    var c := text[0];
    match mode
    case LineComment => Lexeme(text[..1], mode, if c == '\n' then Plain else mode)
    case BlockComment => if StartsWith(text, '*', '/') then Lexeme(text[..2], mode, Plain) else Lexeme(text[..1], mode, mode)
    case SingleQuote =>
      if StartsWith(text, '\'', '\'') then Lexeme(text[..2], mode, mode)
      else Lexeme(text[..1], mode, if c == '\'' then Plain else mode)
    case DoubleQuote =>
      if StartsWith(text, '"', '"') then Lexeme(text[..2], mode, mode)
      else Lexeme(text[..1], mode, if c == '"' then Plain else mode)
    case Plain =>
      if StartsWith(text, '-', '-') then Lexeme(text[..2], mode, LineComment)
      else if StartsWith(text, '/', '*') then Lexeme(text[..2], mode, BlockComment)
      else Lexeme(text[..1], mode, if c == '\'' then SingleQuote else if c == '"' then DoubleQuote else Plain)
  }

  function Lexemes(mode: Mode, text: string): seq<Lexeme>
    decreases |text|
  {
    if text == "" then []
    else
      var first := FirstLexeme(mode, text);
      [first] + Lexemes(first.after, text[|first.text|..])
  }

  function TextOf(lexemes: seq<Lexeme>): string {
    if lexemes == [] then "" else lexemes[0].text + TextOf(lexemes[1..])
  }

  /** The lexemes are all of the text. */
  lemma {:induction false} LexemesKeepText(mode: Mode, text: string)
    ensures TextOf(Lexemes(mode, text)) == text
    decreases |text|
  {
    hide FirstLexeme;
    if text != "" {
      var first := FirstLexeme(mode, text);
      var rest := Lexemes(first.after, text[|first.text|..]);
      LexemesKeepText(first.after, text[|first.text|..]);
      assert ([first] + rest)[1..] == rest;
      assert text == first.text + text[|first.text|..];
    }
  }

  // ----- The conversion -----

  function Marker(index: nat): string {
    "$" + Render(index)
  }

  /** The query with its placeholders numbered from `index + 1`. */
  function Converted(lexemes: seq<Lexeme>, index: nat): string {
    if lexemes == [] then ""
    else if lexemes[0].Placeholder() then Marker(index + 1) + Converted(lexemes[1..], index + 1)
    else lexemes[0].text + Converted(lexemes[1..], index)
  }

  function Placeholders(lexemes: seq<Lexeme>): nat {
    if lexemes == [] then 0
    else Placeholders(lexemes[..|lexemes| - 1]) + if lexemes[|lexemes| - 1].Placeholder() then 1 else 0
  }

  function Piece(lexemes: seq<Lexeme>, i: nat): string
    requires i < |lexemes|
  {
    if lexemes[i].Placeholder() then Marker(Placeholders(lexemes[..i]) + 1) else lexemes[i].text
  }

  function Pieces(lexemes: seq<Lexeme>, n: nat): string
    requires n <= |lexemes|
  {
    if n == 0 then "" else Pieces(lexemes, n - 1) + Piece(lexemes, n - 1)
  }

  lemma OnePiece(lexemes: seq<Lexeme>, n: nat)
    requires n < |lexemes|
    ensures Converted(lexemes[n..], Placeholders(lexemes[..n])) ==
            Piece(lexemes, n) + Converted(lexemes[n + 1..], Placeholders(lexemes[..n + 1]))
  {
    hide Render;
    assert lexemes[..n + 1][..n] == lexemes[..n] && lexemes[..n + 1][n] == lexemes[n] == lexemes[n..][0];
    assert lexemes[n..][1..] == lexemes[n + 1..];
  }

  lemma {:induction false} ConvertedFrom(lexemes: seq<Lexeme>, n: nat)
    requires n <= |lexemes|
    ensures Pieces(lexemes, |lexemes|) == Pieces(lexemes, n) + Converted(lexemes[n..], Placeholders(lexemes[..n]))
    decreases |lexemes| - n
  {
    hide Converted, Placeholders, Piece;
    if n < |lexemes| {
      ConvertedFrom(lexemes, n + 1);
      OnePiece(lexemes, n);
      assert Pieces(lexemes, n + 1) == Pieces(lexemes, n) + Piece(lexemes, n);
    } else {
      NothingConverted(Placeholders(lexemes[..n]));
      assert lexemes[n..] == [];
    }
  }

  lemma NothingConverted(index: nat)
    ensures Converted([], index) == "" && Placeholders([]) == 0
  {
  }

  /** The i-th bare question mark becomes `$i`; every other lexeme is kept as it is. */
  lemma ConvertedInOrder(lexemes: seq<Lexeme>)
    ensures Converted(lexemes, 0) == Pieces(lexemes, |lexemes|)
  {
    hide Converted, Placeholders, Piece;
    ConvertedFrom(lexemes, 0);
    NothingConverted(0);
    assert lexemes[0..] == lexemes && lexemes[..0] == [];
  }

  /** The one loop, with a flag for each mode. */
  method ToDollarParams(query: string) returns (converted: string)
    ensures converted == Converted(Lexemes(Plain, query), 0)
  {
    hide Converted, Lexemes, FirstLexeme, Render;
    var parameterIndex: nat := 0;
    converted := "";
    var i := 0;
    var inSingleQuote, inDoubleQuote, inLineComment, inBlockComment := false, false, false, false;
    assert query[0..] == query;
    while i < |query|
      invariant 0 <= i <= |query|
      invariant FlagsOk(inSingleQuote, inDoubleQuote, inLineComment, inBlockComment)
      invariant var mode := ModeOf(inSingleQuote, inDoubleQuote, inLineComment, inBlockComment);
                converted + Converted(Lexemes(mode, query[i..]), parameterIndex) == Converted(Lexemes(Plain, query), 0)
      decreases |query| - i
    {
      var current := query[i];
      var next := if i + 1 < |query| then query[i + 1] else current;
      var hasNext := i + 1 < |query|;
      OneLexeme(ModeOf(inSingleQuote, inDoubleQuote, inLineComment, inBlockComment), query, i, parameterIndex, converted);
      if inLineComment {
        if current == '\n' {
          inLineComment := false;
        }
        converted := converted + [current];
        i := i + 1;
        continue;
      }
      if inBlockComment {
        if current == '*' && hasNext && next == '/' {
          converted := converted + [current] + [next];
          i := i + 2;
          inBlockComment := false;
        } else {
          converted := converted + [current];
          i := i + 1;
        }
        continue;
      }
      if inSingleQuote {
        if current == '\'' {
          if hasNext && next == '\'' {
            converted := converted + [current] + [next];
            i := i + 2;
            continue;
          }
          inSingleQuote := false;
        }
        converted := converted + [current];
        i := i + 1;
        continue;
      }
      if inDoubleQuote {
        if current == '"' {
          if hasNext && next == '"' {
            converted := converted + [current] + [next];
            i := i + 2;
            continue;
          }
          inDoubleQuote := false;
        }
        converted := converted + [current];
        i := i + 1;
        continue;
      }
      if current == '-' && hasNext && next == '-' {
        inLineComment := true;
        converted := converted + [current] + [next];
        i := i + 2;
        continue;
      }
      if current == '/' && hasNext && next == '*' {
        inBlockComment := true;
        converted := converted + [current] + [next];
        i := i + 2;
        continue;
      }
      if current == '\'' {
        inSingleQuote := true;
        converted := converted + [current];
        i := i + 1;
        continue;
      }
      if current == '"' {
        inDoubleQuote := true;
        converted := converted + [current];
        i := i + 1;
        continue;
      }
      if current == '?' {
        parameterIndex := parameterIndex + 1;
        converted := converted + "$";
        converted := converted + Render(parameterIndex);
        i := i + 1;
        continue;
      }
      converted := converted + [current];
      i := i + 1;
    }
    NothingLeft(ModeOf(inSingleQuote, inDoubleQuote, inLineComment, inBlockComment), query, i, parameterIndex);
  }

  predicate FlagsOk(inSingleQuote: bool, inDoubleQuote: bool, inLineComment: bool, inBlockComment: bool) {
    && !(inSingleQuote && inDoubleQuote) && !(inSingleQuote && inLineComment) && !(inSingleQuote && inBlockComment)
    && !(inDoubleQuote && inLineComment) && !(inDoubleQuote && inBlockComment) && !(inLineComment && inBlockComment)
  }

  function ModeOf(inSingleQuote: bool, inDoubleQuote: bool, inLineComment: bool, inBlockComment: bool): Mode {
    if inLineComment then LineComment
    else if inBlockComment then BlockComment
    else if inSingleQuote then SingleQuote
    else if inDoubleQuote then DoubleQuote
    else Plain
  }

  predicate Pair(query: string, i: nat, a: char, b: char)
    requires i < |query|
  {
    i + 1 < |query| && query[i] == a && query[i + 1] == b
  }

  /** What the loop does with the text at `i`: its first lexeme goes to the end of `done`. */
  lemma OneLexeme(mode: Mode, query: string, i: nat, index: nat, done: string)
    requires i < |query|
    ensures var c := query[i];
            var all := done + Converted(Lexemes(mode, query[i..]), index);
            match mode
            case LineComment => all == Moved(query, i, 1, if c == '\n' then Plain else mode, index, done)
            case BlockComment =>
              all == if Pair(query, i, '*', '/') then Moved(query, i, 2, Plain, index, done) else Moved(query, i, 1, mode, index, done)
            case SingleQuote =>
              all == if Pair(query, i, '\'', '\'') then Moved(query, i, 2, mode, index, done)
                     else Moved(query, i, 1, if c == '\'' then Plain else mode, index, done)
            case DoubleQuote =>
              all == if Pair(query, i, '"', '"') then Moved(query, i, 2, mode, index, done)
                     else Moved(query, i, 1, if c == '"' then Plain else mode, index, done)
            case Plain =>
              all == if Pair(query, i, '-', '-') then Moved(query, i, 2, LineComment, index, done)
                     else if Pair(query, i, '/', '*') then Moved(query, i, 2, BlockComment, index, done)
                     else if c == '?' then done + "$" + Render(index + 1) + Converted(Lexemes(Plain, query[i + 1..]), index + 1)
                     else Moved(query, i, 1, if c == '\'' then SingleQuote else if c == '"' then DoubleQuote else Plain, index, done)
  {
    hide Converted, Lexemes, Render, Moved;
    OneStep(mode, query, i, index, done);
    assert query[i..][..1] == [query[i]];
  }

  lemma OneStep(mode: Mode, query: string, i: nat, index: nat, done: string)
    requires i < |query|
    ensures var first := FirstLexeme(mode, query[i..]);
            && (first.Placeholder() ==> query[i] == '?')
            && (first.Bare() && query[i] == '?' ==> first.text == "?")
            && (first.text == "?" ==> |first.text| == 1)
            && |first.text| <= 2
            && done + Converted(Lexemes(mode, query[i..]), index) ==
               if first.Placeholder() then done + "$" + Render(index + 1) + Converted(Lexemes(Plain, query[i + 1..]), index + 1)
               else Moved(query, i, |first.text|, first.after, index, done)
  {
    hide Render, Converted, FirstLexeme;
    var text := query[i..];
    var first := FirstLexeme(mode, text);
    var rest := Lexemes(first.after, text[|first.text|..]);
    FirstLexemeText(mode, text);
    assert text[0] == query[i] && (|text| > 1 ==> text[1] == query[i + 1]);
    assert text[|first.text|..] == query[i + |first.text|..];
    assert Lexemes(mode, text) == [first] + rest;
    OneConverted(first, rest, index);
    if first.Placeholder() {
      Associate(done, "$", Render(index + 1), Converted(rest, index + 1));
    } else {
      Associate(done, [query[i]], if |first.text| == 1 then "" else [query[i + 1]], Converted(rest, index));
    }
  }

  lemma FirstLexemeText(mode: Mode, text: string)
    requires text != ""
    ensures var first := FirstLexeme(mode, text);
            && 1 <= |first.text| <= 2 && |first.text| <= |text|
            && first.text == (if |first.text| == 1 then [text[0]] else [text[0]] + [text[1]])
            && (first.Placeholder() ==> text[0] == '?' && |first.text| == 1)
            && (first.Bare() ==> |first.text| == 1)
  {
  }

  lemma OneConverted(first: Lexeme, rest: seq<Lexeme>, index: nat)
    ensures Converted([first] + rest, index) ==
            if first.Placeholder() then Marker(index + 1) + Converted(rest, index + 1) else first.text + Converted(rest, index)
  {
    assert ([first] + rest)[1..] == rest;
  }

  lemma Associate(a: string, b: string, c: string, d: string)
    ensures a + ((b + c) + d) == ((a + b) + c) + d
  {
  }

  /** `n` characters at `i` have been kept; the rest is converted from mode `after` on. */
  function Moved(query: string, i: nat, n: nat, after: Mode, index: nat, done: string): string
    requires n == 1 || n == 2
    requires i + n <= |query|
  {
    (if n == 1 then done + [query[i]] else done + [query[i]] + [query[i + 1]]) + Converted(Lexemes(after, query[i + n..]), index)
  }

  lemma NothingLeft(mode: Mode, query: string, i: nat, index: nat)
    requires i == |query|
    ensures Converted(Lexemes(mode, query[i..]), index) == ""
  {
  }

  // ----- The conversion, read off the query -----

  /** A query converted from number `index + 1` on. */
  function Conversion(query: string, index: nat): string {
    Converted(Lexemes(Plain, query), index)
  }

  lemma LexemeKept(mode: Mode, head: string, tail: string, after: Mode, index: nat)
    requires head != "" && FirstLexeme(mode, head + tail) == Lexeme(head, mode, after)
    requires !Lexeme(head, mode, after).Placeholder()
    ensures Converted(Lexemes(mode, head + tail), index) == head + Converted(Lexemes(after, tail), index)
  {
    hide FirstLexeme, Converted;
    assert (head + tail)[|head|..] == tail;
    OneConverted(Lexeme(head, mode, after), Lexemes(after, tail), index);
  }

  /** A bare question mark becomes the next number. */
  lemma QuestionMark(rest: string, index: nat)
    ensures Conversion("?" + rest, index) == "$" + Render(index + 1) + Conversion(rest, index + 1)
    ensures Conversion("", index) == ""
  {
    hide Render, Converted;
    NothingConverted(index);
    var text := "?" + rest;
    assert text[1..] == rest && text[..1] == "?";
    OneConverted(Lexeme("?", Plain, Plain), Lexemes(Plain, rest), index);
  }

  /** Any other character stays, unless it opens a quotation or a comment. */
  lemma PlainCharacter(c: char, rest: string, index: nat)
    requires c !in {'?', '\'', '"'}
    requires !(c == '-' && rest != "" && rest[0] == '-') && !(c == '/' && rest != "" && rest[0] == '*')
    ensures Conversion([c] + rest, index) == [c] + Conversion(rest, index)
  {
    assert ([c] + rest)[..1] == [c];
    LexemeKept(Plain, [c], rest, Plain, index);
  }

  /** Every quote in it is doubled. */
  predicate Doubled(body: string, quote: char) {
    || body == ""
    || (body[0] != quote && Doubled(body[1..], quote))
    || (|body| >= 2 && body[0] == body[1] == quote && Doubled(body[2..], quote))
  }

  lemma QuotedHead(quote: char, head: string, rest: string)
    requires quote in {'\'', '"'} && ((|head| == 1 && head[0] != quote) || head == [quote, quote])
    ensures var mode := if quote == '\'' then SingleQuote else DoubleQuote;
            FirstLexeme(mode, head + rest) == Lexeme(head, mode, mode)
  {
    assert (head + rest)[..|head|] == head;
  }

  lemma QuotedEnd(quote: char, rest: string)
    requires quote in {'\'', '"'} && (rest == "" || rest[0] != quote)
    ensures var mode := if quote == '\'' then SingleQuote else DoubleQuote;
            FirstLexeme(mode, [quote] + rest) == Lexeme([quote], mode, Plain)
  {
    assert ([quote] + rest)[..1] == [quote];
  }

  lemma {:induction false} QuotedBody(quote: char, body: string, rest: string, index: nat)
    requires quote in {'\'', '"'} && Doubled(body, quote) && (rest == "" || rest[0] != quote)
    ensures var mode := if quote == '\'' then SingleQuote else DoubleQuote;
            Converted(Lexemes(mode, body + ([quote] + rest)), index) == body + ([quote] + Conversion(rest, index))
  {
    hide Converted, Lexemes, FirstLexeme;
    var mode := if quote == '\'' then SingleQuote else DoubleQuote;
    var tail := [quote] + rest;
    if body == "" {
      assert body + tail == tail;
      QuotedEnd(quote, rest);
      LexemeKept(mode, [quote], rest, Plain, index);
      assert body + ([quote] + Conversion(rest, index)) == [quote] + Conversion(rest, index);
    } else {
      var n := if body[0] != quote then 1 else 2;
      var head, more := body[..n], body[n..];
      assert body + tail == head + (more + tail);
      QuotedHead(quote, head, more + tail);
      QuotedBody(quote, more, rest, index);
      LexemeKept(mode, head, more + tail, mode, index);
      assert head + (more + ([quote] + Conversion(rest, index))) == body + ([quote] + Conversion(rest, index));
    }
  }

  /** Quoted text stays, whatever is in it. */
  lemma QuotedText(quote: char, body: string, rest: string, index: nat)
    requires quote in {'\'', '"'} && Doubled(body, quote) && (rest == "" || rest[0] != quote)
    ensures Conversion([quote] + (body + ([quote] + rest)), index) == [quote] + (body + ([quote] + Conversion(rest, index)))
  {
    hide Converted, Lexemes;
    QuotedBody(quote, body, rest, index);
    var tail := body + ([quote] + rest);
    assert ([quote] + tail)[..1] == [quote];
    LexemeKept(Plain, [quote], tail, if quote == '\'' then SingleQuote else DoubleQuote, index);
  }

  lemma {:induction false} LineBody(body: string, rest: string, index: nat)
    requires '\n' !in body
    ensures Converted(Lexemes(LineComment, body + ("\n" + rest)), index) == body + ("\n" + Conversion(rest, index))
  {
    hide Converted, Lexemes;
    var tail := "\n" + rest;
    if body == "" {
      assert body + tail == tail && tail[..1] == "\n";
      LexemeKept(LineComment, "\n", rest, Plain, index);
      assert body + ("\n" + Conversion(rest, index)) == "\n" + Conversion(rest, index);
    } else {
      var head, more := body[..1], body[1..];
      assert body + tail == head + (more + tail) && (head + (more + tail))[..1] == head;
      LineBody(more, rest, index);
      LexemeKept(LineComment, head, more + tail, LineComment, index);
      assert head + (more + ("\n" + Conversion(rest, index))) == body + ("\n" + Conversion(rest, index));
    }
  }

  lemma {:induction false} LastComment(body: string, index: nat)
    requires '\n' !in body
    ensures Converted(Lexemes(LineComment, body), index) == body
  {
    hide Converted;
    NothingConverted(index);
    if body != "" {
      assert body == body[..1] + body[1..] && body[..1] == [body[0]];
      LastComment(body[1..], index);
      LexemeKept(LineComment, body[..1], body[1..], LineComment, index);
    }
  }

  /** A comment to the end of the line, or of the query, stays. */
  lemma CommentLine(body: string, rest: string, index: nat)
    requires '\n' !in body
    ensures Conversion("--" + (body + ("\n" + rest)), index) == "--" + (body + ("\n" + Conversion(rest, index)))
    ensures Conversion("--" + body, index) == "--" + body
  {
    hide Converted, Lexemes;
    LineBody(body, rest, index);
    LastComment(body, index);
    assert ("--" + body)[..2] == "--";
    LexemeKept(Plain, "--", body, LineComment, index);
    var tail := body + ("\n" + rest);
    assert ("--" + tail)[..2] == "--";
    LexemeKept(Plain, "--", tail, LineComment, index);
  }

  lemma {:induction false} BlockBody(body: string, rest: string, index: nat)
    requires forall i :: 0 <= i < |body| - 1 && body[i] == '*' ==> body[i + 1] != '/'
    ensures Converted(Lexemes(BlockComment, body + ("*/" + rest)), index) == body + ("*/" + Conversion(rest, index))
  {
    hide Converted, Lexemes;
    var tail := "*/" + rest;
    if body == "" {
      assert body + tail == tail && tail[..2] == "*/";
      LexemeKept(BlockComment, "*/", rest, Plain, index);
      assert body + ("*/" + Conversion(rest, index)) == "*/" + Conversion(rest, index);
    } else {
      var head, more := body[..1], body[1..];
      var text := head + (more + tail);
      assert body + tail == text && text[..1] == head && text[0] == body[0];
      assert text[1] == if more == "" then '*' else more[0];
      BlockBody(more, rest, index);
      LexemeKept(BlockComment, head, more + tail, BlockComment, index);
      assert head + (more + ("*/" + Conversion(rest, index))) == body + ("*/" + Conversion(rest, index));
    }
  }

  /** A block comment stays, to its first end. */
  lemma CommentBlock(body: string, rest: string, index: nat)
    requires forall i :: 0 <= i < |body| - 1 && body[i] == '*' ==> body[i + 1] != '/'
    ensures Conversion("/*" + (body + ("*/" + rest)), index) == "/*" + (body + ("*/" + Conversion(rest, index)))
  {
    hide Converted, Lexemes;
    BlockBody(body, rest, index);
    var tail := body + ("*/" + rest);
    assert ("/*" + tail)[..2] == "/*";
    LexemeKept(Plain, "/*", tail, BlockComment, index);
  }

  datatype DatabaseBackend = Sqlite | Postgres

  method PrepareSql(backend: DatabaseBackend, query: string) returns (prepared: string)
    ensures backend == Sqlite ==> prepared == query
    ensures backend == Postgres ==> prepared == Converted(Lexemes(Plain, query), 0)
  {
    match backend
    case Sqlite => return query;
    case Postgres => prepared := ToDollarParams(query);
  }

  // ----- Scanning the output -----

  function Chars(text: string): seq<Lexeme> {
    seq(|text|, i requires 0 <= i < |text| => Lexeme([text[i]], Plain, Plain))
  }

  /** The lexemes with each placeholder replaced by the characters of its marker. */
  function Numbered(lexemes: seq<Lexeme>, index: nat): seq<Lexeme> {
    if lexemes == [] then []
    else if lexemes[0].Placeholder() then Chars(Marker(index + 1)) + Numbered(lexemes[1..], index + 1)
    else [lexemes[0]] + Numbered(lexemes[1..], index)
  }

  predicate InMarkers(c: char) {
    c == '$' || IsDigit(c)
  }

  lemma {:induction false} MarkerIsBare(marker: string, text: string)
    requires forall i :: 0 <= i < |marker| ==> InMarkers(marker[i])
    ensures Lexemes(Plain, marker + text) == Chars(marker) + Lexemes(Plain, text)
  {
    hide FirstLexeme;
    if marker == "" {
      assert marker + text == text && Chars(marker) == [];
    } else {
      MarkerIsBare(marker[1..], text);
      BareFirst(marker[0], marker[1..] + text);
      assert marker + text == [marker[0]] + (marker[1..] + text);
      assert Chars(marker) == [Lexeme([marker[0]], Plain, Plain)] + Chars(marker[1..]);
      assert ([marker[0]] + (marker[1..] + text))[1..] == marker[1..] + text;
    }
  }

  lemma BareFirst(c: char, rest: string)
    requires InMarkers(c)
    ensures FirstLexeme(Plain, [c] + rest) == Lexeme([c], Plain, Plain)
  {
    assert ([c] + rest)[..1] == [c];
  }

  /** The conversion keeps what the scanner peeks at. */
  lemma HeadKept(mode: Mode, text: string, index: nat)
    ensures var out := Converted(Lexemes(mode, text), index);
            && (out == "" <==> text == "")
            && (text != "" ==> out[0] == text[0] || (text[0] == '?' && out[0] == '$'))
  {
    hide Render;
    if text != "" {
      var first := FirstLexeme(mode, text);
      OneConverted(first, Lexemes(first.after, text[|first.text|..]), index);
    }
  }

  lemma SameFirstLexeme(mode: Mode, text: string, rest: string)
    requires text != "" && !FirstLexeme(mode, text).Placeholder()
    requires var tail := text[|FirstLexeme(mode, text).text|..];
             (rest == "" <==> tail == "") && (tail != "" ==> rest[0] == tail[0] || (tail[0] == '?' && rest[0] == '$'))
    ensures FirstLexeme(mode, FirstLexeme(mode, text).text + rest) == FirstLexeme(mode, text)
  {
    var first := FirstLexeme(mode, text);
    var out := first.text + rest;
    assert out[0] == text[0] && out[..|first.text|] == first.text;
    if |first.text| == 1 {
      assert out[1..] == rest;
    }
  }

  /** On the output the scanner goes through the same modes over the same lexemes, with the
      characters of `$k` where the k-th placeholder was. */
  lemma {:induction false} OutputMirrorsInput(mode: Mode, text: string, index: nat)
    ensures Lexemes(mode, Converted(Lexemes(mode, text), index)) == Numbered(Lexemes(mode, text), index)
    decreases |text|
  {
    hide Render, Converted, FirstLexeme;
    if text == "" {
      NothingConverted(index);
    } else {
      var first := FirstLexeme(mode, text);
      var tail := text[|first.text|..];
      var rest := Lexemes(first.after, tail);
      assert Lexemes(mode, text) == [first] + rest && ([first] + rest)[1..] == rest;
      OneConverted(first, rest, index);
      if first.Placeholder() {
        OutputMirrorsInput(Plain, tail, index + 1);
        MarkerIsBare(Marker(index + 1), Converted(rest, index + 1));
      } else {
        OutputMirrorsInput(first.after, tail, index);
        HeadKept(first.after, tail, index);
        var out := Converted(rest, index);
        SameFirstLexeme(mode, text, out);
        assert (first.text + out)[|first.text|..] == out;
      }
    }
  }

  predicate NoPlaceholder(lexemes: seq<Lexeme>) {
    forall i :: 0 <= i < |lexemes| ==> !lexemes[i].Placeholder()
  }

  lemma {:induction false} NumberedHasNoPlaceholder(lexemes: seq<Lexeme>, index: nat)
    ensures NoPlaceholder(Numbered(lexemes, index))
  {
    hide Render;
    if lexemes != [] {
      NumberedHasNoPlaceholder(lexemes[1..], if lexemes[0].Placeholder() then index + 1 else index);
    }
  }

  lemma {:induction false} NothingToConvert(lexemes: seq<Lexeme>, index: nat)
    requires NoPlaceholder(lexemes)
    ensures Converted(lexemes, index) == TextOf(lexemes)
  {
    hide Render;
    if lexemes != [] {
      NothingToConvert(lexemes[1..], index);
    }
  }

  /** A second pass changes nothing: the output has no placeholder left. */
  lemma SecondPassChangesNothing(query: string)
    ensures var once := Converted(Lexemes(Plain, query), 0);
            NoPlaceholder(Lexemes(Plain, once)) && Converted(Lexemes(Plain, once), 0) == once
  {
    hide Converted, Numbered, Lexemes, TextOf;
    var once := Converted(Lexemes(Plain, query), 0);
    OutputMirrorsInput(Plain, query, 0);
    NumberedHasNoPlaceholder(Lexemes(Plain, query), 0);
    NothingToConvert(Lexemes(Plain, once), 0);
    LexemesKeepText(Plain, once);
  }

  // ----- Recovery -----

  predicate IsBareDollar(lexeme: Lexeme) {
    lexeme.Bare() && lexeme.text == "$"
  }

  /** The first lexemes are the characters of `text`, bare. */
  predicate Spells(lexemes: seq<Lexeme>, text: string) {
    |text| <= |lexemes| && forall i :: 0 <= i < |text| ==> lexemes[i] == Lexeme([text[i]], Plain, Plain)
  }

  /** A bare `$` before the digits of the number that comes next. */
  predicate IsMarker(lexemes: seq<Lexeme>, index: nat)
    requires lexemes != []
  {
    IsBareDollar(lexemes[0]) && Spells(lexemes[1..], Render(index + 1))
  }

  /** The query behind converted lexemes: each marker, with the next number, was a question mark. */
  function Recovered(lexemes: seq<Lexeme>, index: nat): string
    decreases |lexemes|
  {
    if lexemes == [] then ""
    else if IsMarker(lexemes, index) then "?" + Recovered(lexemes[1 + |Render(index + 1)|..], index + 1)
    else lexemes[0].text + Recovered(lexemes[1..], index)
  }

  /** No bare `$` of the query itself could be taken for a marker. */
  predicate NoFalseMarker(lexemes: seq<Lexeme>, index: nat) {
    lexemes == [] ||
    (if lexemes[0].Placeholder() then NoFalseMarker(lexemes[1..], index + 1)
     else !IsMarker(lexemes, index) && NoFalseMarker(lexemes[1..], index))
  }

  /** The same, lexeme by lexeme. */
  lemma {:induction false} NoFalseMarkerMeans(lexemes: seq<Lexeme>, n: nat)
    requires n <= |lexemes|
    ensures NoFalseMarker(lexemes[n..], Placeholders(lexemes[..n])) <==>
            forall i :: n <= i < |lexemes| ==> !IsMarker(lexemes[i..], Placeholders(lexemes[..i]))
    decreases |lexemes| - n
  {
    hide IsMarker, Placeholders;
    if n < |lexemes| {
      NoFalseMarkerMeans(lexemes, n + 1);
      var rest, k := lexemes[n..], Placeholders(lexemes[..n]);
      assert rest[1..] == lexemes[n + 1..] && rest[0] == lexemes[n];
      OneMorePlaceholder(lexemes, n);
      if rest[0].Placeholder() {
        PlaceholderIsNoMarker(rest, k);
      }
      assert IsMarker(lexemes[n..], Placeholders(lexemes[..n])) <==> IsMarker(rest, k);
    }
  }

  lemma OneMorePlaceholder(lexemes: seq<Lexeme>, n: nat)
    requires n < |lexemes|
    ensures Placeholders(lexemes[..n + 1]) == Placeholders(lexemes[..n]) + if lexemes[n].Placeholder() then 1 else 0
  {
    assert lexemes[..n + 1][..n] == lexemes[..n] && lexemes[..n + 1][n] == lexemes[n];
  }

  lemma PlaceholderIsNoMarker(lexemes: seq<Lexeme>, index: nat)
    requires lexemes != [] && lexemes[0].Placeholder()
    ensures !IsMarker(lexemes, index)
  {
    hide Render, Spells;
  }

  /** Numbering does not change which digits follow. */
  lemma {:induction false} SpellsAlike(lexemes: seq<Lexeme>, index: nat, digits: string)
    requires forall i :: 0 <= i < |digits| ==> IsDigit(digits[i])
    ensures Spells(Numbered(lexemes, index), digits) <==> Spells(lexemes, digits)
  {
    hide Render;
    var numbered := Numbered(lexemes, index);
    if digits == "" || lexemes == [] {
    } else if lexemes[0].Placeholder() {
      assert numbered[0] == Lexeme("$", Plain, Plain) by {
        assert Chars(Marker(index + 1))[0] == Lexeme("$", Plain, Plain);
      }
      SpellsCons(numbered, digits);
      SpellsCons(lexemes, digits);
    } else {
      assert numbered[1..] == Numbered(lexemes[1..], index);
      SpellsAlike(lexemes[1..], index, digits[1..]);
      SpellsCons(numbered, digits);
      SpellsCons(lexemes, digits);
    }
  }

  lemma SpellsCons(lexemes: seq<Lexeme>, digits: string)
    requires lexemes != [] && digits != ""
    ensures Spells(lexemes, digits) <==> lexemes[0] == Lexeme([digits[0]], Plain, Plain) && Spells(lexemes[1..], digits[1..])
  {
    if Spells(lexemes[1..], digits[1..]) {
      assert forall i :: 1 <= i < |digits| ==> lexemes[i] == lexemes[1..][i - 1] && digits[i] == digits[1..][i - 1];
    }
  }

  lemma MarkerIsFound(index: nat, rest: seq<Lexeme>)
    ensures var lexemes := Chars(Marker(index + 1)) + rest;
            lexemes != [] && IsMarker(lexemes, index) && lexemes[1 + |Render(index + 1)|..] == rest
  {
    hide Render;
    var lexemes := Chars(Marker(index + 1)) + rest;
    assert lexemes[0] == Lexeme("$", Plain, Plain);
    assert forall i :: 0 <= i < |Render(index + 1)| ==> lexemes[1..][i] == Lexeme([Render(index + 1)[i]], Plain, Plain);
  }

  /** From converted lexemes the text is recovered exactly when nothing was taken for a marker. */
  lemma {:induction false} NumberedIsRecoveredExactly(lexemes: seq<Lexeme>, index: nat)
    ensures Recovered(Numbered(lexemes, index), index) == TextOf(lexemes) <==> NoFalseMarker(lexemes, index)
  {
    hide Render, IsMarker;
    if lexemes == [] {
    } else if lexemes[0].Placeholder() {
      var rest := Numbered(lexemes[1..], index + 1);
      MarkerIsFound(index, rest);
      NumberedIsRecoveredExactly(lexemes[1..], index + 1);
      SameTail("?", Recovered(rest, index + 1), TextOf(lexemes[1..]));
    } else {
      var rest := Numbered(lexemes[1..], index);
      var numbered := Numbered(lexemes, index);
      assert numbered == [lexemes[0]] + rest && numbered[1..] == rest;
      MarkerAlike(lexemes, index);
      if IsMarker(lexemes, index) {
        FalseMarkerShows(lexemes, numbered, index);
      } else {
        NumberedIsRecoveredExactly(lexemes[1..], index);
        SameTail(lexemes[0].text, Recovered(rest, index), TextOf(lexemes[1..]));
      }
    }
  }

  lemma MarkerAlike(lexemes: seq<Lexeme>, index: nat)
    requires lexemes != [] && !lexemes[0].Placeholder()
    ensures Numbered(lexemes, index) != [] && (IsMarker(Numbered(lexemes, index), index) <==> IsMarker(lexemes, index))
  {
    hide Render, Spells;
    assert Numbered(lexemes, index)[1..] == Numbered(lexemes[1..], index);
    SpellsAlike(lexemes[1..], index, Render(index + 1));
  }

  lemma FalseMarkerShows(lexemes: seq<Lexeme>, numbered: seq<Lexeme>, index: nat)
    requires lexemes != [] && numbered != [] && IsMarker(lexemes, index) && IsMarker(numbered, index)
    ensures Recovered(numbered, index) != TextOf(lexemes)
  {
    hide Render;
    assert Recovered(numbered, index)[0] == '?' && TextOf(lexemes)[0] == '$';
  }

  lemma SameTail(head: string, a: string, b: string)
    ensures head + a == head + b <==> a == b
  {
    assert (head + a)[|head|..] == a && (head + b)[|head|..] == b;
  }

  /** A query can be recovered from its conversion if and only if none of its bare `$` is followed
      by the digits of the number the scanner would give next. */
  lemma QueryIsRecoveredExactly(query: string)
    ensures var lexemes := Lexemes(Plain, query);
            Recovered(Lexemes(Plain, Converted(lexemes, 0)), 0) == query <==>
            forall i :: 0 <= i < |lexemes| ==> !IsMarker(lexemes[i..], Placeholders(lexemes[..i]))
  {
    hide Recovered, Converted, Numbered, Lexemes, TextOf, IsMarker, NoFalseMarker;
    var lexemes := Lexemes(Plain, query);
    OutputMirrorsInput(Plain, query, 0);
    NumberedIsRecoveredExactly(lexemes, 0);
    LexemesKeepText(Plain, query);
    NoFalseMarkerMeans(lexemes, 0);
    assert lexemes[0..] == lexemes && lexemes[..0] == [];
  }

  predicate NoBareDollar(query: string) {
    var lexemes := Lexemes(Plain, query);
    forall i :: 0 <= i < |lexemes| ==> !IsBareDollar(lexemes[i])
  }

  /** In particular, a query without a bare `$` can. */
  lemma QueryCanBeRecovered(query: string)
    requires NoBareDollar(query)
    ensures Recovered(Lexemes(Plain, Converted(Lexemes(Plain, query), 0)), 0) == query
  {
    hide Recovered, Converted, Lexemes, Spells, Placeholders;
    QueryIsRecoveredExactly(query);
  }

  /** The shortest query that cannot: two queries become one. */
  lemma BareDollarIsAmbiguous()
    ensures Converted(Lexemes(Plain, "?"), 0) == Converted(Lexemes(Plain, "$1"), 0) == "$1"
  {
    assert "?"[..1] == "?" && "?"[1..] == "";
    assert Lexemes(Plain, "?") == [Lexeme("?", Plain, Plain)];
    OneConverted(Lexeme("?", Plain, Plain), [], 0);
    MarkerIsBare("$1", "");
    assert "$1" + "" == "$1";
    NothingToConvert(Lexemes(Plain, "$1"), 0);
    LexemesKeepText(Plain, "$1");
    assert Render(1) == "1";
  }
}
