/** Decimal renderings, and the order SQL and `str` compare text in. */
module Decimal {
  function Digit(d: nat): char
    requires d < 10
  {
    (('0' as int) + d) as char
  }

  predicate IsDigit(c: char) {
    '0' <= c <= '9'
  }

  function Render(n: nat): (text: string)
    ensures text != ""
    ensures forall i :: 0 <= i < |text| ==> IsDigit(text[i])
  {
    if n < 10 then [Digit(n)] else Render(n / 10) + [Digit(n % 10)]
  }

  /** The number a text of digits stands for. */
  function Read(text: string): int {
    if text == "" then 0 else 10 * Read(text[..|text| - 1]) + (text[|text| - 1] as int - '0' as int)
  }

  /** A rendering reads back as its number and has no zero in front. */
  lemma {:induction false} RenderReads(n: nat)
    ensures Read(Render(n)) == n && (Render(n)[0] == '0' <==> n == 0)
  {
    if n >= 10 {
      RenderReads(n / 10);
      var text := Render(n);
      assert text[..|text| - 1] == Render(n / 10) && text[0] == Render(n / 10)[0];
    } else {
      assert Render(n)[..0] == "";
    }
  }

  /** Text order: by the first difference; a prefix comes first. */
  predicate TextLeq(a: string, b: string) {
    a == "" || (b != "" && (a[0] < b[0] || (a[0] == b[0] && TextLeq(a[1..], b[1..]))))
  }

  predicate TextLess(a: string, b: string) {
    !TextLeq(b, a)
  }

  lemma {:induction false} TextLeqTotal(a: string, b: string)
    ensures TextLeq(a, b) || TextLeq(b, a)
    ensures TextLeq(a, b) && TextLeq(b, a) <==> a == b
  {
    if a != "" && b != "" {
      TextLeqTotal(a[1..], b[1..]);
      assert a == [a[0]] + a[1..] && b == [b[0]] + b[1..];
    } else {
      assert TextLeq("", a) && TextLeq("", b);
    }
  }

  lemma {:induction false} TextLeqTransitive(a: string, b: string, c: string)
    requires TextLeq(a, b) && TextLeq(b, c)
    ensures TextLeq(a, c)
  {
    if a != "" && b != "" && c != "" && a[0] == b[0] == c[0] {
      TextLeqTransitive(a[1..], b[1..], c[1..]);
    }
  }

  lemma {:induction false} TextLeqSnoc(a: string, c: char, b: string, d: char)
    requires |a| == |b|
    ensures TextLeq(a + [c], b + [d]) <==> if a == b then c <= d else TextLeq(a, b)
  {
    if a != "" {
      assert (a + [c])[1..] == a[1..] + [c] && (b + [d])[1..] == b[1..] + [d];
      assert a == [a[0]] + a[1..] && b == [b[0]] + b[1..];
      TextLeqSnoc(a[1..], c, b[1..], d);
    }
  }

  /** Renderings of the same length compare as the numbers do. */
  lemma {:induction false} RenderOrder(m: nat, n: nat)
    requires |Render(m)| == |Render(n)|
    ensures TextLeq(Render(m), Render(n)) <==> m <= n
    ensures Render(m) == Render(n) <==> m == n
  {
    if m >= 10 && n >= 10 {
      RenderOrder(m / 10, n / 10);
      TextLeqSnoc(Render(m / 10), Digit(m % 10), Render(n / 10), Digit(n % 10));
      var a, b := Render(m / 10), Render(n / 10);
      assert (a + [Digit(m % 10)])[..|a|] == a && (b + [Digit(n % 10)])[..|b|] == b;
      assert (a + [Digit(m % 10)])[|a|] == Digit(m % 10) && (b + [Digit(n % 10)])[|b|] == Digit(n % 10);
    }
  }

  /** A larger number never has a shorter rendering. */
  lemma {:induction false} RenderLength(m: nat, n: nat)
    requires m <= n
    ensures |Render(m)| <= |Render(n)|
  {
    if m >= 10 {
      RenderLength(m / 10, n / 10);
    }
  }

  /** `i64::to_string`. */
  function RenderSigned(n: int): string {
    if n < 0 then "-" + Render(-n) else Render(n)
  }

  /** A negative number comes before every other one. */
  lemma NegativeFirst(m: int, n: nat)
    requires m < 0
    ensures TextLeq(RenderSigned(m), Render(n))
  {
    hide Render;
    assert IsDigit(Render(n)[0]);
  }

  // ----- The order of texts of any lengths -----

  function Digits(n: nat): (k: nat)
    ensures k >= 1
  {
    if n < 10 then 1 else Digits(n / 10) + 1
  }

  function Pow10(k: nat): (p: nat)
    ensures p >= 1
  {
    if k == 0 then 1 else 10 * Pow10(k - 1)
  }

  /** The numbers with `k` digits. */
  lemma {:induction false} DigitCount(n: nat, k: nat)
    requires k >= 1
    ensures Digits(n) == k <==> n < Pow10(k) && (k == 1 || Pow10(k - 1) <= n)
  {
    if k > 1 {
      assert Pow10(k) == 10 * Pow10(k - 1) && Pow10(k - 1) == 10 * Pow10(k - 2);
      if n >= 10 {
        DigitCount(n / 10, k - 1);
      }
    } else {
      assert Pow10(1) == 10;
    }
  }

  lemma {:induction false} RenderHasDigits(n: nat)
    ensures |Render(n)| == Digits(n)
  {
    if n >= 10 {
      RenderHasDigits(n / 10);
    }
  }

  /** A number without its last `k` digits. */
  function Leading(n: nat, k: nat): nat {
    if k == 0 then n else Leading(n / 10, k - 1)
  }

  lemma {:induction false} RenderPrefix(n: nat, k: nat)
    requires k < |Render(n)|
    ensures Render(n)[..|Render(n)| - k] == Render(Leading(n, k))
  {
    if k == 0 {
      assert Render(n)[..|Render(n)|] == Render(n);
    } else {
      RenderPrefix(n / 10, k - 1);
      assert Render(n)[..|Render(n)| - k] == Render(n / 10)[..|Render(n / 10)| - (k - 1)];
    }
  }

  /** Against a text that is no shorter, only its beginning of the same length counts. */
  lemma {:induction false} TextLeqPrefix(a: string, b: string)
    requires |a| <= |b|
    ensures TextLeq(a, b) <==> TextLeq(a, b[..|a|])
    ensures TextLeq(b, a) <==> (b[..|a|] != a && TextLeq(b[..|a|], a)) || b == a
  {
    if a == "" {
      assert b[..0] == "";
    } else {
      TextLeqPrefix(a[1..], b[1..]);
      var c := b[..|a|];
      assert c[1..] == b[1..][..|a| - 1] && c[0] == b[0];
      assert a == [a[0]] + a[1..] && b == [b[0]] + b[1..] && c == [c[0]] + c[1..];
    }
  }

  /** The order of decimal texts, in numbers: the longer number counts by its leading digits, and
      comes after the shorter one when those are equal. */
  predicate DecimalLeq(m: nat, n: nat) {
    if Digits(m) <= Digits(n) then m <= Leading(n, Digits(n) - Digits(m))
    else Leading(m, Digits(m) - Digits(n)) < n
  }

  lemma TextOrderIsDecimal(m: nat, n: nat)
    ensures TextLeq(Render(m), Render(n)) <==> DecimalLeq(m, n)
  {
    hide Render, TextLeq, Pow10, Digits;
    RenderHasDigits(m);
    RenderHasDigits(n);
    if Digits(m) <= Digits(n) {
      var k := Digits(n) - Digits(m);
      RenderPrefix(n, k);
      RenderHasDigits(Leading(n, k));
      TextLeqPrefix(Render(m), Render(n));
      RenderOrder(m, Leading(n, k));
    } else {
      var k := Digits(m) - Digits(n);
      RenderPrefix(m, k);
      RenderHasDigits(Leading(m, k));
      TextLeqPrefix(Render(n), Render(m));
      RenderOrder(Leading(m, k), n);
    }
  }

  /** The two orders agree on a pair exactly when the digit counts are the same or the leading
      digits of the longer number are not below the shorter one. */
  predicate SameOrder(m: nat, n: nat) {
    || Digits(m) == Digits(n)
    || (Digits(m) < Digits(n) && m <= Leading(n, Digits(n) - Digits(m)))
    || (Digits(m) > Digits(n) && n <= Leading(m, Digits(m) - Digits(n)))
  }

  lemma {:induction false} MoreDigits(m: nat, n: nat)
    requires Digits(m) < Digits(n)
    ensures m < n
  {
    if m >= 10 {
      MoreDigits(m / 10, n / 10);
    }
  }

  /** For all numbers: when comparing the texts means comparing the numbers. */
  lemma TextOrderIsNumeric(m: nat, n: nat)
    ensures (TextLeq(Render(m), Render(n)) <==> m <= n) <==> SameOrder(m, n)
  {
    hide Render, TextLeq, Digits;
    TextOrderIsDecimal(m, n);
    if Digits(m) < Digits(n) {
      MoreDigits(m, n);
    } else if Digits(m) > Digits(n) {
      MoreDigits(n, m);
    } else {
      assert Leading(n, 0) == n;
    }
  }

  /** The order of texts turns a pair around exactly when the smaller number exceeds the leading
      digits of the larger one. */
  lemma SmallerAfterLarger(m: nat, n: nat)
    requires m < n
    ensures TextLess(Render(n), Render(m)) <==> Digits(m) < Digits(n) && m > Leading(n, Digits(n) - Digits(m))
  {
    hide Render, TextLeq, Digits, Pow10;
    TextOrderIsNumeric(m, n);
    if Digits(m) > Digits(n) {
      MoreDigits(n, m);
    }
  }

  /** The times from September 2001 to November 2286. */
  predicate TenDigits(n: nat) {
    1_000_000_000 <= n < 10_000_000_000
  }

  /** For those times the two orders are the same. */
  lemma TenDigitsInOrder(m: nat, n: nat)
    requires TenDigits(m) && TenDigits(n)
    ensures SameOrder(m, n) && (TextLeq(Render(m), Render(n)) <==> m <= n) && (DecimalLeq(m, n) <==> m <= n)
  {
    hide Render, TextLeq, Digits;
    assert Pow10(9) == 1_000_000_000 && Pow10(10) == 10_000_000_000;
    DigitCount(m, 10);
    DigitCount(n, 10);
    TextOrderIsNumeric(m, n);
    TextOrderIsDecimal(m, n);
  }
}
