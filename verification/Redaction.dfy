/** The log redactor of mizan-core. */
module Redaction {
  import opened Core
  import opened Text

  const REDACTED := "[REDACTED]"
  const SENSITIVE_PREFIXES := ["mizan_sk_", "mizan_sess_", "sk-", "Bearer"]

  function MatchingSensitivePrefix(value: string): Option<string> {
    if SENSITIVE_PREFIXES[0] <= value then Some(SENSITIVE_PREFIXES[0])
    else if SENSITIVE_PREFIXES[1] <= value then Some(SENSITIVE_PREFIXES[1])
    else if SENSITIVE_PREFIXES[2] <= value then Some(SENSITIVE_PREFIXES[2])
    else if SENSITIVE_PREFIXES[3] <= value then Some(SENSITIVE_PREFIXES[3])
    else None
  }

  predicate IsSecretBoundary(c: char) {
    c in ",;\"')]}"
  }

  predicate EndsSecret(c: char) {
    IsSecretBoundary(c) || IsWhitespace(c)
  }

  /** What follows a secret that `ends` delimits. */
  function AfterSecret(text: string, ends: char -> bool): (rest: string)
    ensures |rest| <= |text|
  {
    if text == "" || ends(text[0]) then text else AfterSecret(text[1..], ends)
  }

  /** One pass: each secret, from its prefix to the next end, becomes the marker. */
  function Redact(text: string, ends: char -> bool): string
    decreases |text|
  {
    if text == "" then ""
    else
      match MatchingSensitivePrefix(text)
      case Some(prefix) => REDACTED + Redact(AfterSecret(text[|prefix|..], ends), ends)
      case None => [text[0]] + Redact(text[1..], ends)
  }

  function RedactText(text: string): string {
    Redact(text, EndsSecret)
  }

  // ----- The code -----

  method RedactSegment(segment: string) returns (output: string)
    ensures output == Redact(segment, IsSecretBoundary)
  {
    hide *;
    if segment == "" {
      RedactStep("");
      return "";
    }
    output := "";
    var index := 0;
    assert segment[0..] == segment;
    while index < |segment|
      invariant 0 <= index <= |segment|
      invariant Redact(segment, IsSecretBoundary) == output + Redact(segment[index..], IsSecretBoundary)
    {
      ghost var rest := segment[index..];
      RedactStep(rest);
      match MatchingSensitivePrefix(segment[index..]) {
        case Some(prefix) =>
          assert rest[|prefix|..] == segment[index + |prefix|..];
          ghost var after := AfterSecret(rest[|prefix|..], IsSecretBoundary);
          assert output + (REDACTED + Redact(after, IsSecretBoundary)) == output + REDACTED + Redact(after, IsSecretBoundary);
          output := output + REDACTED;
          index := index + |prefix|;
          AfterSecretStep(segment, index);
          while index < |segment| && !IsSecretBoundary(segment[index])
            invariant 0 <= index <= |segment| && |segment[index..]| < |rest|
            invariant AfterSecret(segment[index..], IsSecretBoundary) == after
            invariant index == |segment| || IsSecretBoundary(segment[index]) ==> segment[index..] == after
          {
            AfterSecretStep(segment, index);
            index := index + 1;
            AfterSecretStep(segment, index);
          }
        case None =>
          assert rest[1..] == segment[index + 1..];
          ghost var tail := Redact(rest[1..], IsSecretBoundary);
          assert output + ([segment[index]] + tail) == output + [segment[index]] + tail;
          output := output + [segment[index]];
          index := index + 1;
      }
    }
    assert segment[index..] == "";
    RedactStep("");
  }

  lemma RedactStep(text: string)
    ensures Redact("", IsSecretBoundary) == ""
    ensures var found := MatchingSensitivePrefix(text);
            && (found.Some? ==>
                  && 0 < |found.value| <= |text|
                  && Redact(text, IsSecretBoundary) ==
                     REDACTED + Redact(AfterSecret(text[|found.value|..], IsSecretBoundary), IsSecretBoundary))
            && (found.None? && text != "" ==>
                  Redact(text, IsSecretBoundary) == [text[0]] + Redact(text[1..], IsSecretBoundary))
  {
    MatchIsListed(text);
  }

  lemma AfterSecretStep(segment: string, index: nat)
    requires index <= |segment|
    ensures var after := AfterSecret(segment[index..], IsSecretBoundary);
            if index == |segment| || IsSecretBoundary(segment[index]) then after == segment[index..]
            else after == AfterSecret(segment[index + 1..], IsSecretBoundary)
  {
    if index < |segment| {
      assert segment[index..][1..] == segment[index + 1..];
    }
  }

  /** Redacting white-space separated segments one by one is one pass over the text. */
  method RedactForLogs(value: string) returns (redacted: string)
    ensures redacted == RedactText(value)
  {
    hide *;
    redacted := "";
    var segment := "";
    assert segment + value[0..] == value;
    NoWhitespaceEmpty();
    for i := 0 to |value|
      invariant NoWhitespace(segment)
      invariant RedactText(value) == redacted + RedactText(segment + value[i..])
    {
      var character := value[i];
      if IsWhitespace(character) {
        assert segment + value[i..] == segment + ([character] + value[i + 1..]);
        RedactSplit(segment, character, value[i + 1..]);
        RedactSegmentIsText(segment);
        var piece := RedactSegment(segment);
        assert redacted + (piece + ([character] + RedactText(value[i + 1..])))
            == redacted + piece + [character] + RedactText(value[i + 1..]);
        redacted := redacted + piece;
        segment := "";
        redacted := redacted + [character];
        assert "" + value[i + 1..] == value[i + 1..];
        NoWhitespaceEmpty();
      } else {
        assert segment + value[i..] == segment + [character] + value[i + 1..];
        NoWhitespaceSnoc(segment, character);
        segment := segment + [character];
      }
    }
    assert segment + value[|value|..] == segment;
    RedactSegmentIsText(segment);
    var piece := RedactSegment(segment);
    redacted := redacted + piece;
  }

  predicate NoWhitespace(text: string) {
    forall k :: 0 <= k < |text| ==> !IsWhitespace(text[k])
  }

  lemma NoWhitespaceEmpty()
    ensures NoWhitespace("")
  {
  }

  lemma NoWhitespaceSnoc(text: string, c: char)
    requires NoWhitespace(text) && !IsWhitespace(c)
    ensures NoWhitespace(text + [c])
  {
  }

  lemma PrefixesVisible(prefix: string)
    requires prefix in SENSITIVE_PREFIXES
    ensures NoWhitespace(prefix) && prefix != "" && prefix[0] !in REDACTED && '[' !in prefix
  {
  }

  lemma MatchIsListed(text: string)
    ensures var found := MatchingSensitivePrefix(text);
            && (found.Some? ==> found.value in SENSITIVE_PREFIXES && found.value <= text && found.value != "")
            && (found.None? ==> forall prefix :: prefix in SENSITIVE_PREFIXES ==> !(prefix <= text))
  {
    assert forall prefix :: prefix in SENSITIVE_PREFIXES ==>
      exists k :: 0 <= k < 4 && prefix == SENSITIVE_PREFIXES[k];
  }

  lemma PrefixSplit(prefix: string, segment: string, c: char, rest: string)
    requires prefix in SENSITIVE_PREFIXES && IsWhitespace(c)
    ensures prefix <= segment + ([c] + rest) <==> prefix <= segment
  {
    hide IsWhitespace;
    var text := segment + ([c] + rest);
    PrefixesVisible(prefix);
    assert text[..|segment|] == segment;
    assert text[|segment|] == c;
  }

  /** A match never reaches across white space. */
  lemma MatchSplit(segment: string, c: char, rest: string)
    requires IsWhitespace(c)
    ensures MatchingSensitivePrefix(segment + ([c] + rest)) == MatchingSensitivePrefix(segment)
  {
    hide IsWhitespace;
    PrefixSplit(SENSITIVE_PREFIXES[0], segment, c, rest);
    PrefixSplit(SENSITIVE_PREFIXES[1], segment, c, rest);
    PrefixSplit(SENSITIVE_PREFIXES[2], segment, c, rest);
    PrefixSplit(SENSITIVE_PREFIXES[3], segment, c, rest);
  }

  lemma {:induction false} AfterSecretSplit(segment: string, c: char, rest: string)
    requires IsWhitespace(c)
    ensures AfterSecret(segment + ([c] + rest), EndsSecret) == AfterSecret(segment, EndsSecret) + ([c] + rest)
  {
    hide IsWhitespace, IsSecretBoundary;
    var text := segment + ([c] + rest);
    if segment == "" {
      assert text == [c] + rest;
    } else if !EndsSecret(segment[0]) {
      assert text[1..] == segment[1..] + ([c] + rest);
      AfterSecretSplit(segment[1..], c, rest);
    }
  }

  lemma {:induction false} AfterSecretKeeps(text: string, ends: char -> bool)
    requires NoWhitespace(text)
    ensures NoWhitespace(AfterSecret(text, ends))
  {
    if text != "" && !ends(text[0]) {
      assert NoWhitespace(text[1..]);
      AfterSecretKeeps(text[1..], ends);
    }
  }

  lemma {:induction false} RedactSplit(segment: string, c: char, rest: string)
    requires NoWhitespace(segment) && IsWhitespace(c)
    ensures RedactText(segment + ([c] + rest)) == RedactText(segment) + ([c] + RedactText(rest))
    decreases |segment|
  {
    hide MatchingSensitivePrefix, EndsSecret, AfterSecret, IsWhitespace;
    var text := segment + ([c] + rest);
    MatchSplit(segment, c, rest);
    MatchIsListed(segment);
    var found := MatchingSensitivePrefix(segment);
    if segment == "" {
      assert found.None? && text == [c] + rest && text[1..] == rest;
    } else if found.Some? {
      var tail := segment[|found.value|..];
      assert text[|found.value|..] == tail + ([c] + rest);
      AfterSecretSplit(tail, c, rest);
      AfterSecretKeeps(tail, EndsSecret);
      RedactSplit(AfterSecret(tail, EndsSecret), c, rest);
    } else {
      assert text[1..] == segment[1..] + ([c] + rest) && text[0] == segment[0];
      RedactSplit(segment[1..], c, rest);
    }
  }

  lemma {:induction false} AfterSecretIsText(segment: string)
    requires NoWhitespace(segment)
    ensures AfterSecret(segment, IsSecretBoundary) == AfterSecret(segment, EndsSecret)
  {
    hide IsWhitespace, IsSecretBoundary;
    if segment != "" {
      AfterSecretIsText(segment[1..]);
    }
  }

  lemma {:induction false} RedactSegmentIsText(segment: string)
    requires NoWhitespace(segment)
    ensures Redact(segment, IsSecretBoundary) == RedactText(segment)
    decreases |segment|
  {
    hide MatchingSensitivePrefix, IsSecretBoundary, EndsSecret, AfterSecret, IsWhitespace;
    MatchIsListed(segment);
    var found := MatchingSensitivePrefix(segment);
    if segment == "" {
    } else if found.Some? {
      var tail := segment[|found.value|..];
      AfterSecretIsText(tail);
      AfterSecretKeeps(tail, EndsSecret);
      RedactSegmentIsText(AfterSecret(tail, EndsSecret));
    } else {
      RedactSegmentIsText(segment[1..]);
    }
  }

  // ----- What redaction guarantees -----

  predicate Contains(text: string, part: string) {
    exists i :: 0 <= i <= |text| && part <= text[i..]
  }

  /** No sensitive prefix occurs anywhere. */
  predicate Clean(text: string) {
    forall prefix :: prefix in SENSITIVE_PREFIXES ==> !Contains(text, prefix)
  }

  lemma CleanCons(text: string)
    requires text != "" && Clean(text[1..]) && MatchingSensitivePrefix(text).None?
    ensures Clean(text)
  {
    hide MatchingSensitivePrefix;
    MatchIsListed(text);
    forall prefix, i | prefix in SENSITIVE_PREFIXES && 0 <= i <= |text|
      ensures !(prefix <= text[i..])
    {
      if i > 0 {
        assert text[i..] == text[1..][i - 1..];
        assert !Contains(text[1..], prefix);
      } else {
        assert text[i..] == text;
      }
    }
  }

  lemma CleanTail(text: string)
    requires text != "" && Clean(text)
    ensures Clean(text[1..]) && MatchingSensitivePrefix(text).None?
  {
    hide MatchingSensitivePrefix;
    MatchIsListed(text);
    assert text[0..] == text;
    forall prefix | prefix in SENSITIVE_PREFIXES
      ensures !Contains(text[1..], prefix) && !(prefix <= text)
    {
      assert !Contains(text, prefix);
      forall i | 0 <= i <= |text[1..]|
        ensures !(prefix <= text[1..][i..])
      {
        assert text[1..][i..] == text[i + 1..];
      }
    }
  }

  /** Text without '[' that starts the output starts the input. */
  lemma {:induction false} RedactStarts(text: string, ends: char -> bool, start: string)
    requires start <= Redact(text, ends) && '[' !in start
    ensures start <= text
    decreases |text|
  {
    hide MatchingSensitivePrefix, AfterSecret;
    if start != "" {
      assert start[0] == Redact(text, ends)[0];
      MatchIsListed(text);
      if MatchingSensitivePrefix(text).None? {
        assert start[1..] <= Redact(text[1..], ends) by {
          assert Redact(text, ends)[1..] == Redact(text[1..], ends);
        }
        RedactStarts(text[1..], ends, start[1..]);
        assert text == [text[0]] + text[1..];
      }
    }
  }

  /** In front of clean text the marker creates no sensitive prefix. */
  lemma {:induction false} MarkerClean(marker: string, text: string)
    requires forall k :: 0 <= k < |marker| ==> marker[k] in REDACTED
    requires Clean(text)
    ensures Clean(marker + text)
  {
    hide MatchingSensitivePrefix, Clean;
    var all := marker + text;
    if marker == "" {
      assert all == text;
    } else {
      assert all[1..] == marker[1..] + text;
      MarkerClean(marker[1..], text);
      MatchIsListed(all);
      var found := MatchingSensitivePrefix(all);
      if found.Some? {
        assert found.value[0] == all[0] == marker[0];
        PrefixesVisible(found.value);
      }
      CleanCons(all);
    }
  }

  /** The output contains none of the sensitive prefixes. */
  lemma {:induction false} RedactClean(text: string, ends: char -> bool)
    ensures Clean(Redact(text, ends))
    decreases |text|
  {
    hide MatchingSensitivePrefix, AfterSecret, Clean;
    var output := Redact(text, ends);
    if text == "" {
      EmptyClean();
    } else {
      MatchIsListed(text);
      var found := MatchingSensitivePrefix(text);
      if found.Some? {
        var after := AfterSecret(text[|found.value|..], ends);
        RedactClean(after, ends);
        MarkerClean(REDACTED, Redact(after, ends));
      } else {
        RedactClean(text[1..], ends);
        MatchIsListed(output);
        var bad := MatchingSensitivePrefix(output);
        if bad.Some? {
          PrefixesVisible(bad.value);
          RedactStarts(text, ends, bad.value);
        }
        assert output[1..] == Redact(text[1..], ends);
        CleanCons(output);
      }
    }
  }

  lemma EmptyClean()
    ensures Clean("")
  {
    forall prefix | prefix in SENSITIVE_PREFIXES
      ensures !Contains("", prefix)
    {
      PrefixesVisible(prefix);
    }
  }

  lemma {:induction false} CleanUnchanged(text: string, ends: char -> bool)
    requires Clean(text)
    ensures Redact(text, ends) == text
  {
    hide MatchingSensitivePrefix, AfterSecret, Clean;
    if text != "" {
      CleanTail(text);
      CleanUnchanged(text[1..], ends);
      assert text == [text[0]] + text[1..];
    }
  }

  /** Redacting is idempotent, and changes exactly the texts that hold a sensitive prefix. */
  lemma RedactTwice(text: string)
    ensures RedactText(RedactText(text)) == RedactText(text)
    ensures RedactText(text) == text <==> Clean(text)
  {
    hide Redact, Clean;
    RedactClean(text, EndsSecret);
    CleanUnchanged(RedactText(text), EndsSecret);
    if Clean(text) {
      CleanUnchanged(text, EndsSecret);
    }
  }

  // ----- What becomes of a secret -----

  /** None of the four prefixes starts at the front of the text. */
  predicate NoPrefix(text: string) {
    !("mizan_sk_" <= text) && !("mizan_sess_" <= text) && !("sk-" <= text) && !("Bearer" <= text)
  }

  lemma NoPrefixMeans(text: string)
    ensures NoPrefix(text) <==> MatchingSensitivePrefix(text).None?
  {
  }

  /** Clean texts are those without any of the four prefixes. */
  lemma CleanMeans(text: string)
    ensures Clean(text) <==>
            forall i :: 0 <= i <= |text| ==>
              !("mizan_sk_" <= text[i..]) && !("mizan_sess_" <= text[i..]) && !("sk-" <= text[i..]) && !("Bearer" <= text[i..])
  {
    hide MatchingSensitivePrefix;
    assert SENSITIVE_PREFIXES[0] == "mizan_sk_" && SENSITIVE_PREFIXES[1] == "mizan_sess_";
    assert SENSITIVE_PREFIXES[2] == "sk-" && SENSITIVE_PREFIXES[3] == "Bearer";
    if Clean(text) {
      forall i | 0 <= i <= |text|
        ensures !("mizan_sk_" <= text[i..]) && !("mizan_sess_" <= text[i..]) && !("sk-" <= text[i..]) && !("Bearer" <= text[i..])
      {
        assert forall k :: 0 <= k < 4 ==> SENSITIVE_PREFIXES[k] in SENSITIVE_PREFIXES && !Contains(text, SENSITIVE_PREFIXES[k]);
      }
    }
  }

  lemma MatchIs(prefix: string, after: string)
    requires prefix in {"mizan_sk_", "mizan_sess_", "sk-", "Bearer"}
    ensures MatchingSensitivePrefix(prefix + after) == Some(prefix)
  {
    var text := prefix + after;
    assert text[..|prefix|] == prefix;
    assert text[0] == prefix[0] && text[1] == prefix[1];
    assert prefix[0] == 'm' ==> |text| > 8 && text[8] == prefix[8];
  }

  lemma {:induction false} SecretEnds(secret: string, rest: string)
    requires forall k :: 0 <= k < |secret| ==>
               !IsWhitespace(secret[k]) && secret[k] !in {',', ';', '"', '\'', ')', ']', '}'}
    requires rest == "" || IsWhitespace(rest[0]) || rest[0] in {',', ';', '"', '\'', ')', ']', '}'}
    ensures AfterSecret(secret + rest, EndsSecret) == rest
  {
    hide IsWhitespace;
    if secret == "" {
      assert secret + rest == rest;
    } else {
      assert (secret + rest)[1..] == secret[1..] + rest;
      SecretEnds(secret[1..], rest);
    }
  }

  lemma SecretAtFront(prefix: string, secret: string, rest: string)
    requires prefix in {"mizan_sk_", "mizan_sess_", "sk-", "Bearer"} && AfterSecret(secret + rest, EndsSecret) == rest
    ensures RedactText(prefix + secret + rest) == "[REDACTED]" + RedactText(rest)
  {
    hide MatchingSensitivePrefix, AfterSecret;
    var text := prefix + secret + rest;
    assert text == prefix + (secret + rest) && text[|prefix|..] == secret + rest;
    MatchIs(prefix, secret + rest);
  }

  lemma PlainAtFront(text: string)
    requires text != "" && NoPrefix(text)
    ensures RedactText(text) == [text[0]] + RedactText(text[1..])
  {
    NoPrefixMeans(text);
    hide MatchingSensitivePrefix, NoPrefix;
  }

  lemma {:induction false} PlainStays(before: string, after: string)
    requires forall i :: 0 <= i < |before| ==> NoPrefix(before[i..] + after)
    ensures RedactText(before + after) == before + RedactText(after)
  {
    hide RedactText, NoPrefix;
    if before == "" {
      assert before + after == after && "" + RedactText(after) == RedactText(after);
    } else {
      var tail := before[1..];
      assert (before + after)[1..] == tail + after && before[0..] == before;
      PlainAtFront(before + after);
      forall i | 0 <= i < |tail| ensures NoPrefix(tail[i..] + after) {
        assert tail[i..] == before[i + 1..];
      }
      PlainStays(tail, after);
      assert [before[0]] + (tail + RedactText(after)) == before + RedactText(after);
    }
  }

  /** A secret, from its prefix to the next white space or one of the seven characters that delimit
      it, becomes the marker, whatever it consists of; what comes before it stays. */
  lemma SecretIsReplaced(before: string, prefix: string, secret: string, rest: string)
    requires prefix in {"mizan_sk_", "mizan_sess_", "sk-", "Bearer"}
    requires forall i :: 0 <= i < |before| ==> NoPrefix(before[i..] + prefix + secret + rest)
    requires forall k :: 0 <= k < |secret| ==>
               !IsWhitespace(secret[k]) && secret[k] !in {',', ';', '"', '\'', ')', ']', '}'}
    requires rest == "" || IsWhitespace(rest[0]) || rest[0] in {',', ';', '"', '\'', ')', ']', '}'}
    ensures RedactText(before + prefix + secret + rest) == before + "[REDACTED]" + RedactText(rest)
  {
    hide IsWhitespace, RedactText, EndsSecret, NoPrefix, AfterSecret;
    var after := prefix + secret + rest;
    forall i | 0 <= i < |before| ensures NoPrefix(before[i..] + after) {
      assert before[i..] + prefix + secret + rest == before[i..] + after;
    }
    assert before + prefix + secret + rest == before + after;
    PlainStays(before, after);
    SecretEnds(secret, rest);
    SecretAtFront(prefix, secret, rest);
    assert before + ("[REDACTED]" + RedactText(rest)) == before + "[REDACTED]" + RedactText(rest);
  }

  /** The white space of a text, in order. */
  function Spaces(text: string): string {
    if text == "" then ""
    else (if IsWhitespace(text[0]) then [text[0]] else "") + Spaces(text[1..])
  }

  lemma {:induction false} SpacesAppend(a: string, b: string)
    ensures Spaces(a + b) == Spaces(a) + Spaces(b)
  {
    hide IsWhitespace;
    if a == "" {
      assert a + b == b;
    } else {
      assert (a + b)[1..] == a[1..] + b;
      SpacesAppend(a[1..], b);
    }
  }

  lemma {:induction false} NoSpaces(text: string)
    requires NoWhitespace(text)
    ensures Spaces(text) == ""
  {
    hide IsWhitespace;
    if text != "" {
      NoSpaces(text[1..]);
    }
  }

  lemma {:induction false} AfterSecretSpaces(text: string)
    ensures Spaces(AfterSecret(text, EndsSecret)) == Spaces(text)
  {
    hide IsWhitespace, IsSecretBoundary;
    if text != "" && !EndsSecret(text[0]) {
      AfterSecretSpaces(text[1..]);
    }
  }

  /** White space survives, in order. */
  lemma {:induction false} RedactKeepsSpaces(text: string)
    ensures Spaces(RedactText(text)) == Spaces(text)
    decreases |text|
  {
    hide MatchingSensitivePrefix, AfterSecret, IsWhitespace, EndsSecret;
    if text != "" {
      MatchIsListed(text);
      var found := MatchingSensitivePrefix(text);
      if found.Some? {
        var tail := text[|found.value|..];
        var after := AfterSecret(tail, EndsSecret);
        PrefixesVisible(found.value);
        NoSpaces(found.value);
        assert text == found.value + tail;
        SpacesAppend(found.value, tail);
        AfterSecretSpaces(tail);
        RedactKeepsSpaces(after);
        MarkerVisible();
        NoSpaces(REDACTED);
        SpacesAppend(REDACTED, RedactText(after));
      } else {
        RedactKeepsSpaces(text[1..]);
        assert ([text[0]] + RedactText(text[1..]))[1..] == RedactText(text[1..]);
      }
    }
  }

  lemma MarkerVisible()
    ensures NoWhitespace(REDACTED)
  {
  }
}
