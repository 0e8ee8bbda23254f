/** The `str` operations the components use: Unicode white space, trimming, prefixes. */
module Text {
  /** `char::is_whitespace`: the Unicode White_Space property. */
  predicate IsWhitespace(c: char) {
    var n := c as int;
    || 0x09 <= n <= 0x0D || n == 0x20 || n == 0x85 || n == 0xA0 || n == 0x1680
    || 0x2000 <= n <= 0x200A || n == 0x2028 || n == 0x2029 || n == 0x202F || n == 0x205F || n == 0x3000
  }

  predicate IsBlank(text: string) {
    forall k :: 0 <= k < |text| ==> IsWhitespace(text[k])
  }

  function TrimStart(text: string): (trimmed: string)
    ensures trimmed != "" ==> !IsWhitespace(trimmed[0])
  {
    if text != "" && IsWhitespace(text[0]) then TrimStart(text[1..]) else text
  }

  function TrimEnd(text: string): (trimmed: string)
    ensures trimmed != "" ==> !IsWhitespace(trimmed[|trimmed| - 1])
  {
    if text != "" && IsWhitespace(text[|text| - 1]) then TrimEnd(text[..|text| - 1]) else text
  }

  function Trim(text: string): string {
    TrimEnd(TrimStart(text))
  }

  /** Trimming takes white space off an end, and leaves nothing of blank text only. */
  lemma {:induction false} TrimStartSuffix(text: string)
    ensures var trimmed := TrimStart(text);
            |trimmed| <= |text| && trimmed == text[|text| - |trimmed|..] && (trimmed == "" <==> IsBlank(text))
  {
    if text != "" && IsWhitespace(text[0]) {
      TrimStartSuffix(text[1..]);
      if IsBlank(text[1..]) {
        assert forall k :: 0 < k < |text| ==> text[k] == text[1..][k - 1];
      }
    }
  }

  lemma {:induction false} TrimEndPrefix(text: string)
    ensures TrimEnd(text) <= text && (TrimEnd(text) == "" <==> IsBlank(text))
  {
    if text != "" && IsWhitespace(text[|text| - 1]) {
      TrimEndPrefix(text[..|text| - 1]);
    }
  }

  /** `trim().is_empty()` holds exactly of the blank texts. */
  lemma TrimEmpty(text: string)
    ensures Trim(text) == "" <==> IsBlank(text)
  {
    TrimStartSuffix(text);
    TrimEndPrefix(TrimStart(text));
  }

  lemma TrimVisible(text: string)
    requires text != "" && !IsWhitespace(text[0]) && !IsWhitespace(text[|text| - 1])
    ensures TrimStart(text) == TrimEnd(text) == Trim(text) == text
  {
  }

  /** The code points of the property, one by one. */
  lemma WhitespaceIs(c: char)
    ensures IsWhitespace(c) <==>
            c as int in {0x09, 0x0A, 0x0B, 0x0C, 0x0D, 0x20, 0x85, 0xA0, 0x1680, 0x2000, 0x2001, 0x2002, 0x2003, 0x2004, 0x2005,
                         0x2006, 0x2007, 0x2008, 0x2009, 0x200A, 0x2028, 0x2029, 0x202F, 0x205F, 0x3000}
  {
  }

  /** Not empty, and no white space at either end. */
  predicate IsTrimmed(text: string) {
    text != "" && !IsWhitespace(text[0]) && !IsWhitespace(text[|text| - 1])
  }

  /** `word` with white space on both sides, if any. */
  ghost predicate Padded(text: string, word: string) {
    exists before, after :: IsBlank(before) && IsBlank(after) && text == before + word + after
  }

  lemma {:induction false} TrimStartSkips(before: string, text: string)
    requires IsBlank(before)
    ensures TrimStart(before + text) == TrimStart(text)
  {
    hide IsWhitespace;
    if before == "" {
      assert before + text == text;
    } else {
      assert (before + text)[1..] == before[1..] + text;
      TrimStartSkips(before[1..], text);
    }
  }

  lemma {:induction false} TrimEndSkips(text: string, after: string)
    requires IsBlank(after)
    ensures TrimEnd(text + after) == TrimEnd(text)
  {
    hide IsWhitespace;
    if after == "" {
      assert text + after == text;
    } else {
      var k := |after| - 1;
      assert (text + after)[..|text| + k] == text + after[..k];
      TrimEndSkips(text, after[..k]);
    }
  }

  lemma TrimStartKeeps(text: string, more: string)
    requires text != "" && !IsWhitespace(text[0])
    ensures TrimStart(text + more) == text + more
  {
  }

  lemma TrimPadded(before: string, word: string, after: string)
    requires IsBlank(before) && IsTrimmed(word) && IsBlank(after)
    ensures Trim(before + word + after) == word
  {
    hide IsWhitespace, IsBlank;
    assert before + word + after == before + (word + after);
    TrimStartSkips(before, word + after);
    TrimStartKeeps(word, after);
    TrimEndSkips(word, after);
    TrimVisible(word);
  }

  /** What trimming is: the one text without white space at its ends that stands in the text with
      nothing but white space around it. */
  lemma TrimMeans(text: string, word: string)
    requires IsTrimmed(word)
    ensures Trim(text) == word <==> Padded(text, word)
  {
    hide IsWhitespace, IsTrimmed;
    if Trim(text) == word {
      var before, after := TrimSplits(text);
      assert Padded(text, word);
    }
    if Padded(text, word) {
      var before, after :| IsBlank(before) && IsBlank(after) && text == before + word + after;
      TrimPadded(before, word, after);
    }
  }

  lemma TrimSplits(text: string) returns (before: string, after: string)
    ensures IsBlank(before) && IsBlank(after) && text == before + Trim(text) + after
    ensures Trim(text) == "" || IsTrimmed(Trim(text))
  {
    before := StartSplits(text);
    after := EndSplits(TrimStart(text));
    TrimStartSuffix(text);
    TrimEndPrefix(TrimStart(text));
    assert text == before + TrimStart(text);
  }

  lemma {:induction false} StartSplits(text: string) returns (before: string)
    ensures IsBlank(before) && text == before + TrimStart(text)
  {
    before := "";
    if text != "" && IsWhitespace(text[0]) {
      before := StartSplits(text[1..]);
      before := [text[0]] + before;
      assert text == [text[0]] + text[1..];
    }
  }

  lemma {:induction false} EndSplits(text: string) returns (after: string)
    ensures IsBlank(after) && text == TrimEnd(text) + after
  {
    after := "";
    if text != "" && IsWhitespace(text[|text| - 1]) {
      var init := text[..|text| - 1];
      after := EndSplits(init);
      after := after + [text[|text| - 1]];
      assert text == init + [text[|text| - 1]];
    }
  }

  /** The first position of `x`, or the length when it does not occur. */
  function IndexOf<T(==)>(s: seq<T>, x: T): (p: nat)
    ensures p <= |s| && x !in s[..p]
    ensures p < |s| ==> s[p] == x
  {
    if s == [] || s[0] == x then 0
    else
      var p := 1 + IndexOf(s[1..], x);
      assert s[..p] == [s[0]] + s[1..][..p - 1];
      p
  }

  lemma {:induction false} IndexOfIs<T>(s: seq<T>, x: T, p: nat)
    requires p <= |s| && x !in s[..p]
    requires p < |s| ==> s[p] == x
    ensures IndexOf(s, x) == p
  {
    if p > 0 {
      assert s[..p][0] == s[0];
      assert s[1..][..p - 1] == s[..p][1..];
      IndexOfIs(s[1..], x, p - 1);
    }
  }

  lemma IndexOfAppend<T>(a: seq<T>, b: seq<T>, x: T)
    requires IndexOf(a, x) < |a|
    ensures IndexOf(a + b, x) == IndexOf(a, x)
  {
    IndexOfIs(a + b, x, IndexOf(a, x));
  }
}
