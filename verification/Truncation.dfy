/** The output filter of mizan-rtk: long output loses its middle, and a marker says how much of
    each end is left. The marker counts against the limit it helps to keep. */
module Truncation {
  import opened Decimal

  datatype FilterPolicy = FilterPolicy(maxOutputChars: nat, retainedHeadChars: nat, retainedTailChars: nat)
  datatype FilterResult = FilterResult(originalChars: nat, outputChars: nat, body: string, filtered: bool)

  function TruncationMarker(headChars: nat, tailChars: nat): string {
    "\n\n[output truncated by mizan-rtk: " + Render(headChars) + " chars retained from head and " + Render(tailChars) + " from tail]\n"
  }

  function Min(a: nat, b: nat): nat {
    if a <= b then a else b
  }

  function TruncateMiddle(chars: string, headChars: nat, tailChars: nat): (string, string) {
    var head := Min(headChars, |chars|);
    var tail := Min(tailChars, |chars| - head);
    (chars[..head], chars[|chars| - tail..])
  }

  // ----- The reference -----

  /** What to keep before the marker is looked at. */
  datatype Retained = Retained(head: nat, tail: nat)

  function Initial(length: nat, policy: FilterPolicy): Retained {
    var head := Min(policy.retainedHeadChars, length);
    Retained(head, Min(policy.retainedTailChars, length - head))
  }

  /** The pair of `n` characters that remains when the tail is given up first, then the head. */
  function Shrunk(initial: Retained, n: nat): Retained {
    if n >= initial.head then Retained(initial.head, n - initial.head) else Retained(n, 0)
  }

  function LengthWithMarker(initial: Retained, n: nat): nat {
    n + |TruncationMarker(Shrunk(initial, n).head, Shrunk(initial, n).tail)|
  }

  predicate Fits(initial: Retained, n: nat, limit: nat) {
    LengthWithMarker(initial, n) <= limit
  }

  /** The largest number of characters, at most `n`, that fits with its marker; zero if none. */
  function Kept(initial: Retained, n: nat, limit: nat): nat {
    if n == 0 || Fits(initial, n, limit) then n else Kept(initial, n - 1, limit)
  }

  function Assembled(output: string, retained: Retained): string {
    var ends := TruncateMiddle(output, retained.head, retained.tail);
    ends.0 + TruncationMarker(retained.head, retained.tail) + ends.1
  }

  function Cut(body: string, limit: nat): (cut: string)
    ensures |cut| <= limit
  {
    if |body| > limit then body[..limit] else body
  }

  function Filtered(output: string, policy: FilterPolicy): FilterResult {
    if |output| <= policy.maxOutputChars then FilterResult(|output|, |output|, output, false)
    else
      var initial := Initial(|output|, policy);
      var body := Assembled(output, Shrunk(initial, Kept(initial, initial.head + initial.tail, policy.maxOutputChars)));
      var cut := Cut(body, policy.maxOutputChars);
      FilterResult(|output|, |cut|, cut, true)
  }

  // ----- The two loops -----

  method FilterOutput(output: string, policy: FilterPolicy) returns (r: FilterResult)
    ensures r == Filtered(output, policy)
  {
    hide Fits, TruncationMarker, Kept;
    var bodyLen := |output|;
    if bodyLen <= policy.maxOutputChars {
      return FilterResult(bodyLen, bodyLen, output, false);
    }
    var head: nat := Min(policy.retainedHeadChars, bodyLen);
    var tail: nat := Min(policy.retainedTailChars, bodyLen - head);
    ghost var initial := Retained(head, tail);
    ghost var total := Kept(initial, head + tail, policy.maxOutputChars);
    while head + tail > policy.maxOutputChars
      invariant Retained(head, tail) == Shrunk(initial, head + tail)
      invariant head <= initial.head && tail <= initial.tail
      invariant Kept(initial, head + tail, policy.maxOutputChars) == total
      decreases head + tail
    {
      TooLong(initial, head + tail, policy.maxOutputChars);
      if tail > 0 {
        tail := tail - 1;
        continue;
      }
      if head > 0 {
        head := head - 1;
      } else {
        break;
      }
    }
    while true
      invariant Retained(head, tail) == Shrunk(initial, head + tail)
      invariant head <= initial.head && tail <= initial.tail
      invariant Kept(initial, head + tail, policy.maxOutputChars) == total
      decreases head + tail
    {
      var marker := TruncationMarker(head, tail);
      var outputLen := head + tail + |marker|;
      KeptStep(initial, head + tail, policy.maxOutputChars);
      if outputLen <= policy.maxOutputChars {
        break;
      }
      if tail > 0 {
        tail := tail - 1;
        continue;
      }
      if head > 0 {
        head := head - 1;
        continue;
      }
      break;
    }
    var marker := TruncationMarker(head, tail);
    var truncated := TruncateMiddle(output, head, tail);
    var body := truncated.0 + marker + truncated.1;
    var outputLen := |body|;
    if outputLen > policy.maxOutputChars {
      body := body[..policy.maxOutputChars];
      outputLen := |body|;
    }
    return FilterResult(bodyLen, outputLen, body, true);
  }

  lemma TooLong(initial: Retained, n: nat, limit: nat)
    requires n > limit
    ensures n > 0 && Kept(initial, n, limit) == Kept(initial, n - 1, limit)
  {
    hide TruncationMarker;
  }

  lemma KeptStep(initial: Retained, n: nat, limit: nat)
    ensures Fits(initial, n, limit) <==> n + |TruncationMarker(Shrunk(initial, n).head, Shrunk(initial, n).tail)| <= limit
    ensures Kept(initial, n, limit) == if n == 0 || Fits(initial, n, limit) then n else Kept(initial, n - 1, limit)
  {
    hide TruncationMarker;
  }

  // ----- What the result is -----

  /** More kept characters never make a shorter marker. */
  lemma LongerMarker(initial: Retained, m: nat, n: nat)
    requires m <= n
    ensures LengthWithMarker(initial, m) + (n - m) <= LengthWithMarker(initial, n)
  {
    hide Render;
    var a, b := Shrunk(initial, m), Shrunk(initial, n);
    RenderLength(a.head, b.head);
    RenderLength(a.tail, b.tail);
  }

  /** The kept count is the largest that fits, and all smaller ones fit too. */
  lemma {:induction false} KeptIsLargest(initial: Retained, n: nat, limit: nat, m: nat)
    requires m <= n
    ensures Kept(initial, n, limit) <= n
    ensures Fits(initial, 0, limit) ==> (Fits(initial, m, limit) <==> m <= Kept(initial, n, limit))
    ensures !Fits(initial, 0, limit) ==> Kept(initial, n, limit) == 0 && !Fits(initial, m, limit)
  {
    hide TruncationMarker, LengthWithMarker, Shrunk;
    if n > 0 && !Fits(initial, n, limit) {
      if m < n {
        KeptIsLargest(initial, n - 1, limit, m);
      } else {
        KeptIsLargest(initial, n - 1, limit, n - 1);
      }
      LongerMarker(initial, 0, m);
    } else {
      LongerMarker(initial, m, n);
      LongerMarker(initial, 0, n);
    }
  }

  /** A prefix and a suffix of the output around the marker that counts them. */
  predicate EndsAroundMarker(output: string, body: string, retained: Retained) {
    && retained.head + retained.tail <= |output|
    && body == output[..retained.head] + TruncationMarker(retained.head, retained.tail) + output[|output| - retained.tail..]
  }

  lemma AssembledBody(output: string, initial: Retained, n: nat, limit: nat)
    requires initial.head + initial.tail <= |output| && n <= initial.head + initial.tail
    ensures var ends := Shrunk(initial, n);
            var body := Assembled(output, ends);
            && ends.head + ends.tail == n
            && |body| == LengthWithMarker(initial, n)
            && EndsAroundMarker(output, body, ends)
            && (Fits(initial, n, limit) ==> Cut(body, limit) == body)
            && (n == 0 && !Fits(initial, n, limit) ==> Cut(body, limit) == Cut(TruncationMarker(0, 0), limit))
  {
    hide TruncationMarker;
    if n == 0 {
      assert output[..0] == "" && output[|output|..] == "";
      assert Assembled(output, Retained(0, 0)) == "" + TruncationMarker(0, 0) + "" == TruncationMarker(0, 0);
    }
  }

  /** Filtered output is within the limit and counted right. When even the marker for nothing is
      too long, its beginning is the output; otherwise the output is a prefix and a suffix of the
      input around a marker that counts them, the largest such pair in shrinking order. */
  lemma FilterKeepsLargestEnds(output: string, policy: FilterPolicy)
    requires |output| > policy.maxOutputChars
    ensures var r, initial := Filtered(output, policy), Initial(|output|, policy);
            var kept := Kept(initial, initial.head + initial.tail, policy.maxOutputChars);
            && r.filtered && r.originalChars == |output| && r.outputChars == |r.body| <= policy.maxOutputChars
            && (if Fits(initial, 0, policy.maxOutputChars)
                then EndsAroundMarker(output, r.body, Shrunk(initial, kept)) && Largest(initial, kept, policy.maxOutputChars)
                else r.body == Cut(TruncationMarker(0, 0), policy.maxOutputChars))
  {
    hide TruncationMarker, Kept, Fits, Assembled, Shrunk, Cut, EndsAroundMarker;
    var initial, limit := Initial(|output|, policy), policy.maxOutputChars;
    var total := initial.head + initial.tail;
    var kept := Kept(initial, total, limit);
    KeptIsLargest(initial, total, limit, 0);
    KeptIsLargest(initial, total, limit, kept);
    AssembledBody(output, initial, kept, limit);
    forall n | kept < n <= total ensures !Fits(initial, n, limit) {
      KeptIsLargest(initial, total, limit, n);
    }
  }

  /** The output in full: head, marker and tail of the input, with the two numerals in that order; the
      tail is given up before the head, which is the whole one while there is any tail; and one
      character more of what was asked for would not fit. */
  ghost predicate IsFiltered(output: string, policy: FilterPolicy, body: string, head: nat, tail: nat) {
    && head + tail <= |output| && head <= policy.retainedHeadChars && tail <= policy.retainedTailChars
    && (tail > 0 ==> head == policy.retainedHeadChars)
    && body ==
       output[..head] +
       ("\n\n[output truncated by mizan-rtk: " + Render(head) + " chars retained from head and " + Render(tail) + " from tail]\n") +
       output[|output| - tail..]
    && (head < policy.retainedHeadChars && head < |output| ==>
          head + 1 + |"\n\n[output truncated by mizan-rtk: " + Render(head + 1) +
                      " chars retained from head and " + Render(0) + " from tail]\n"| > policy.maxOutputChars)
    && (head == policy.retainedHeadChars && tail < policy.retainedTailChars && head + tail < |output| ==>
          head + tail + 1 + |"\n\n[output truncated by mizan-rtk: " + Render(head) +
                             " chars retained from head and " + Render(tail + 1) + " from tail]\n"| > policy.maxOutputChars)
  }

  lemma FilteredText(output: string, policy: FilterPolicy) returns (head: nat, tail: nat)
    requires |output| > policy.maxOutputChars
    ensures var marker := "\n\n[output truncated by mizan-rtk: " + Render(0) +
                          " chars retained from head and " + Render(0) + " from tail]\n";
            if |marker| > policy.maxOutputChars then Filtered(output, policy).body == marker[..policy.maxOutputChars]
            else IsFiltered(output, policy, Filtered(output, policy).body, head, tail)
  {
    hide Kept, EndsAroundMarker, Largest, Filtered, Shrunk, Render, IsFiltered;
    var initial, limit := Initial(|output|, policy), policy.maxOutputChars;
    var kept := Kept(initial, initial.head + initial.tail, limit);
    FilterKeepsLargestEnds(output, policy);
    KeptIsLargest(initial, initial.head + initial.tail, limit, 0);
    NoneKept(initial);
    head, tail := 0, 0;
    if Fits(initial, 0, limit) {
      head, tail := Shrunk(initial, kept).head, Shrunk(initial, kept).tail;
      EndsAre(output, policy, Filtered(output, policy).body, initial, kept);
    }
  }

  lemma EndsAre(output: string, policy: FilterPolicy, body: string, initial: Retained, n: nat)
    requires initial == Initial(|output|, policy) && n <= initial.head + initial.tail
    requires EndsAroundMarker(output, body, Shrunk(initial, n)) && Largest(initial, n, policy.maxOutputChars)
    ensures IsFiltered(output, policy, body, Shrunk(initial, n).head, Shrunk(initial, n).tail)
  {
    hide Render;
    if n < initial.head + initial.tail {
      assert !Fits(initial, n + 1, policy.maxOutputChars);
    }
  }

  lemma NoneKept(initial: Retained)
    ensures Shrunk(initial, 0) == Retained(0, 0)
  {
  }

  /** No longer pair on the way from `initial` fits. */
  ghost predicate Largest(initial: Retained, kept: nat, limit: nat) {
    Fits(initial, kept, limit) && forall n :: kept < n <= initial.head + initial.tail ==> !Fits(initial, n, limit)
  }

  /** Short output is left alone, so filtering twice is filtering once. */
  lemma FilterTwice(output: string, policy: FilterPolicy)
    ensures |output| <= policy.maxOutputChars ==> Filtered(output, policy) == FilterResult(|output|, |output|, output, false)
    ensures var once := Filtered(output, policy).body;
            Filtered(once, policy) == FilterResult(|once|, |once|, once, false)
  {
    hide TruncationMarker, Kept, Assembled;
  }
}
