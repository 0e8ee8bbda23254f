/** The label text of the metrics page: the three-pass escape of mizan-api, and reading it back. */
module Prometheus {
  import opened Decimal
  import opened Metrics

  /** `str::replace` of one character. */
  function Replace(text: string, c: char, substitute: string): string {
    if text == "" then "" else (if text[0] == c then substitute else [text[0]]) + Replace(text[1..], c, substitute)
  }

  function EscapeLabel(value: string): string {
    Replace(Replace(Replace(value, '\\', "\\\\"), '"', "\\\""), '\n', "\\n")
  }

  /** One label of the set, before the text `rest`. */
  function Field(name: string, value: string, rest: string): string {
    name + "=\"" + EscapeLabel(value) + "\"" + rest
  }

  function LabelText(labels: Labels): string {
    Field("route", labels.route,
      Field(",provider", labels.provider,
        Field(",model", labels.model,
          Field(",daemon_node", labels.daemonNode, StatusText(labels.status)))))
  }

  function StatusText(status: Status): string {
    ",status=\"" + Render(status) + "\""
  }

  // ----- One pass -----

  function EscapeChar(c: char): string {
    if c == '\\' then "\\\\" else if c == '"' then "\\\"" else if c == '\n' then "\\n" else [c]
  }

  function Escaped(value: string): string {
    if value == "" then "" else EscapeChar(value[0]) + Escaped(value[1..])
  }

  lemma {:induction false} ReplaceAppend(a: string, b: string, c: char, substitute: string)
    ensures Replace(a + b, c, substitute) == Replace(a, c, substitute) + Replace(b, c, substitute)
  {
    if a == "" {
      assert a + b == b;
    } else {
      assert (a + b)[1..] == a[1..] + b;
      ReplaceAppend(a[1..], b, c, substitute);
    }
  }

  lemma ReplaceOne(x: char, c: char, substitute: string)
    ensures Replace([x], c, substitute) == if x == c then substitute else [x]
  {
    assert [x][1..] == "" && Replace("", c, substitute) == "";
  }

  lemma ReplaceTwo(x: char, y: char, c: char, substitute: string)
    requires x != c && y != c
    ensures Replace([x, y], c, substitute) == [x, y]
  {
    ReplaceOne(y, c, substitute);
    assert [x, y][1..] == [y];
  }

  /** The passes do not undo each other on any character: later ones see no character that an
      earlier one put in. */
  lemma EscapeOne(c: char)
    ensures EscapeLabel([c]) == EscapeChar(c)
  {
    hide Replace;
    ReplaceOne(c, '\\', "\\\\");
    ReplaceOne(c, '"', "\\\"");
    ReplaceOne(c, '\n', "\\n");
    ReplaceTwo('\\', '\\', '"', "\\\"");
    ReplaceTwo('\\', '\\', '\n', "\\n");
    ReplaceTwo('\\', '"', '\n', "\\n");
  }

  /** Three passes are one. */
  lemma {:induction false} ThreePassesAreOne(value: string)
    ensures EscapeLabel(value) == Escaped(value)
  {
    if value != "" {
      hide Replace;
      var head, tail := [value[0]], value[1..];
      assert value == head + tail;
      ReplaceAppend(head, tail, '\\', "\\\\");
      var a, b := Replace(head, '\\', "\\\\"), Replace(tail, '\\', "\\\\");
      ReplaceAppend(a, b, '"', "\\\"");
      ReplaceAppend(Replace(a, '"', "\\\""), Replace(b, '"', "\\\""), '\n', "\\n");
      EscapeOne(value[0]);
      ThreePassesAreOne(tail);
    }
  }

  /** The escape of a character anywhere in a text. */
  lemma EscapeIs(before: string, c: char, after: string)
    ensures EscapeLabel(before + [c] + after) ==
            EscapeLabel(before) +
            (if c == '"' then ['\\', '"'] else if c == '\\' then ['\\', '\\'] else if c == '\n' then ['\\', 'n'] else [c]) +
            EscapeLabel(after)
    ensures EscapeLabel("") == ""
  {
    hide EscapeLabel;
    ThreePassesAreOne(before + [c] + after);
    ThreePassesAreOne(before);
    ThreePassesAreOne(after);
    ThreePassesAreOne("");
    EscapedAppend(before + [c], after);
    EscapedAppend(before, [c]);
    assert [c][1..] == "" && Escaped([c]) == EscapeChar(c) + Escaped("") == EscapeChar(c);
  }

  lemma {:induction false} EscapedAppend(a: string, b: string)
    ensures Escaped(a + b) == Escaped(a) + Escaped(b)
  {
    hide EscapeChar;
    if a == "" {
      assert a + b == b;
    } else {
      assert (a + b)[1..] == a[1..] + b;
      EscapedAppend(a[1..], b);
    }
  }

  lemma FieldIs(name: string, value: string, rest: string)
    ensures Field(name, value, rest) == (name + "=\"") + (EscapeLabel(value) + ("\"" + rest))
  {
    hide EscapeLabel;
  }

  /** The label text: five names, each with its value. */
  lemma LabelTextIs(labels: Labels) returns (provider: string, model: string, node: string, status: string)
    ensures LabelText(labels) == ("route" + "=\"") + (EscapeLabel(labels.route) + ("\"" + provider))
    ensures provider == (",provider" + "=\"") + (EscapeLabel(labels.provider) + ("\"" + model))
    ensures model == (",model" + "=\"") + (EscapeLabel(labels.model) + ("\"" + node))
    ensures node == (",daemon_node" + "=\"") + (EscapeLabel(labels.daemonNode) + ("\"" + status))
    ensures status == ",status=\"" + Render(labels.status) + "\""
  {
    hide EscapeLabel, Render, Field;
    status := StatusText(labels.status);
    node := Field(",daemon_node", labels.daemonNode, status);
    model := Field(",model", labels.model, node);
    provider := Field(",provider", labels.provider, model);
    FieldIs("route", labels.route, provider);
    FieldIs(",provider", labels.provider, model);
    FieldIs(",model", labels.model, node);
    FieldIs(",daemon_node", labels.daemonNode, status);
  }

  // ----- Reading back -----

  /** The value up to the closing quote, unescaped, and the text after it. */
  function ReadValue(text: string): (string, string) {
    if text == "" then ("", "")
    else if text[0] == '"' then ("", text[1..])
    else if text[0] == '\\' && |text| > 1 then
      var rest := ReadValue(text[2..]);
      ([if text[1] == 'n' then '\n' else text[1]] + rest.0, rest.1)
    else
      var rest := ReadValue(text[1..]);
      ([text[0]] + rest.0, rest.1)
  }

  lemma OneIsReadBack(c: char, tail: string)
    ensures ReadValue(EscapeChar(c) + tail) == ([c] + ReadValue(tail).0, ReadValue(tail).1)
  {
    var text := EscapeChar(c) + tail;
    assert text[|EscapeChar(c)|..] == tail;
  }

  lemma {:induction false} EscapedIsReadBack(value: string, rest: string)
    ensures ReadValue(Escaped(value) + "\"" + rest) == (value, rest)
  {
    hide EscapeChar;
    if value == "" {
      assert ("\"" + rest)[1..] == rest;
      assert Escaped(value) + "\"" + rest == "\"" + rest;
    } else {
      hide ReadValue;
      EscapedIsReadBack(value[1..], rest);
      var first, more := EscapeChar(value[0]), Escaped(value[1..]);
      OneIsReadBack(value[0], more + "\"" + rest);
      assert first + more + "\"" + rest == first + (more + "\"" + rest);
      assert value == [value[0]] + value[1..];
    }
  }

  /** An escaped label followed by its closing quote can be read back, whatever follows. */
  lemma EscapeCanBeUndone(value: string, rest: string)
    ensures ReadValue(EscapeLabel(value) + "\"" + rest) == (value, rest)
  {
    hide EscapeLabel, Escaped, ReadValue;
    ThreePassesAreOne(value);
    EscapedIsReadBack(value, rest);
  }

  /** No label breaks the line it is written on. */
  lemma {:induction false} EscapedHasNoNewline(value: string)
    ensures '\n' !in EscapeLabel(value)
  {
    ThreePassesAreOne(value);
    if value != "" {
      ThreePassesAreOne(value[1..]);
      EscapedHasNoNewline(value[1..]);
    }
  }

  lemma FieldIsReadBack(name: string, a: string, restA: string, b: string, restB: string)
    requires Field(name, a, restA) == Field(name, b, restB)
    ensures a == b && restA == restB
  {
    hide EscapeLabel, ReadValue;
    EscapeCanBeUndone(a, restA);
    EscapeCanBeUndone(b, restB);
    assert Field(name, a, restA)[|name| + 2..] == EscapeLabel(a) + "\"" + restA;
    assert Field(name, b, restB)[|name| + 2..] == EscapeLabel(b) + "\"" + restB;
  }

  lemma StatusIsReadBack(a: Status, b: Status)
    requires StatusText(a) == StatusText(b)
    ensures a == b
  {
    hide Render;
    assert StatusText(a)[9..|StatusText(a)| - 1] == Render(a);
    assert StatusText(b)[9..|StatusText(b)| - 1] == Render(b);
    RenderOrder(a, b);
  }

  /** Different label sets are never written the same, whatever characters they hold. */
  lemma LabelTextIsUnique(a: Labels, b: Labels)
    requires LabelText(a) == LabelText(b)
    ensures a == b
  {
    hide Field, StatusText;
    var nodeA := Field(",daemon_node", a.daemonNode, StatusText(a.status));
    var nodeB := Field(",daemon_node", b.daemonNode, StatusText(b.status));
    var modelA, modelB := Field(",model", a.model, nodeA), Field(",model", b.model, nodeB);
    var providerA, providerB := Field(",provider", a.provider, modelA), Field(",provider", b.provider, modelB);
    FieldIsReadBack("route", a.route, providerA, b.route, providerB);
    FieldIsReadBack(",provider", a.provider, modelA, b.provider, modelB);
    FieldIsReadBack(",model", a.model, nodeA, b.model, nodeB);
    FieldIsReadBack(",daemon_node", a.daemonNode, StatusText(a.status), b.daemonNode, StatusText(b.status));
    StatusIsReadBack(a.status, b.status);
  }
}
