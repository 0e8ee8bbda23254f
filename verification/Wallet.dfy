/** Usage charges: mizan-wallet's 128-bit ceiling division, cut to 64 bits. */
module Wallet {
  import opened Core

  const I128_MAX := 0x7FFF_FFFF_FFFF_FFFF_FFFF_FFFF_FFFF_FFFF
  const I128_MIN := -0x8000_0000_0000_0000_0000_0000_0000_0000
  const TOKENS_PER_PRICE := 1_000_000

  datatype RoutePrice = RoutePrice(input: I64, output: I64)
  datatype UsageCharge = UsageCharge(input: I64, output: I64, total: I64)

  /** `as i64`: the low 64 bits, as a signed number. */
  function AsI64(n: int): I64 {
    (n - I64_MIN) % 0x1_0000_0000_0000_0000 + I64_MIN
  }

  /** Division that truncates toward zero. */
  function TruncatedDiv(n: int, divisor: int): int
    requires divisor > 0
  {
    if n >= 0 then n / divisor else -(-n / divisor)
  }

  function CeilDiv(value: int, divisor: int): int
    requires divisor > 0
  {
    if value == 0 then 0 else TruncatedDiv(value + divisor - 1, divisor)
  }

  /** The charge of one part before it is cut to 64 bits. */
  function PartCharge(tokens: U64, price: I64): int {
    CeilDiv(tokens * price, TOKENS_PER_PRICE)
  }

  /** The whole charge before it is cut to 64 bits. */
  function ExactCharge(usage: TokenUsage, price: RoutePrice): int {
    PartCharge(usage.promptTokens, price.input) + PartCharge(usage.completionTokens, price.output)
  }

  function CalculateUsageCharge(usage: TokenUsage, price: RoutePrice): UsageCharge {
    UsageCharge(
      AsI64(PartCharge(usage.promptTokens, price.input)),
      AsI64(PartCharge(usage.completionTokens, price.output)),
      AsI64(ExactCharge(usage, price)))
  }

  /** The least number of whole microcredits that covers `value / divisor`. */
  predicate IsCeiling(quotient: int, value: int, divisor: int) {
    quotient * divisor >= value && (quotient - 1) * divisor < value
  }

  predicate FitsI128(n: int) {
    I128_MIN <= n <= I128_MAX
  }

  predicate NonNegativePrice(price: RoutePrice) {
    price.input >= 0 && price.output >= 0
  }

  // ----- Ceiling division -----

  /** The division is a ceiling for every non-negative value, and for a negative one exactly
      when it lies within one divisor of zero or leaves remainder one; for the others it is one more. */
  lemma CeilDivIsCeiling(value: int, divisor: int)
    requires divisor > 0
    ensures IsCeiling(CeilDiv(value, divisor), value, divisor) <==>
            value >= 0 || value > -divisor || value % divisor == 1 % divisor
    ensures IsCeiling(CeilDiv(value, divisor), value, divisor) || IsCeiling(CeilDiv(value, divisor) - 1, value, divisor)
  {
    var n := value + divisor - 1;
    if value > 0 {
      DivBounds(n, divisor);
    } else if value < 0 && n >= 0 {
      DivBounds(n, divisor);
      assert n / divisor == 0 by { SmallDiv(n, divisor); }
    } else if value < 0 {
      var q, r := -n / divisor, -n % divisor;
      assert -n == q * divisor + r;
      assert value == -(q + 1) * divisor + (1 - r) by { Distribute(q, divisor); }
      assert CeilDiv(value, divisor) == -q;
      assert -q * divisor >= value by { Distribute(q, divisor); }
      Remainder(value, -(q + 1), 1 - r, divisor);
      Distribute(q, divisor);
    }
  }

  lemma Distribute(q: int, divisor: int)
    ensures -(q + 1) * divisor == -(q * divisor) - divisor
    ensures (-q - 1) * divisor == -(q * divisor) - divisor
    ensures -q * divisor == -(q * divisor)
  {
  }

  lemma SmallDiv(n: int, divisor: int)
    requires 0 <= n < divisor
    ensures n / divisor == 0
  {
  }

  lemma DivBounds(n: int, divisor: int)
    requires divisor > 0
    ensures n / divisor * divisor <= n < n / divisor * divisor + divisor
    ensures (n / divisor - 1) * divisor == n / divisor * divisor - divisor
  {
  }

  /** The remainder of `k * divisor + s` where `s` is at most one and above `1 - divisor`. */
  lemma Remainder(value: int, k: int, s: int, divisor: int)
    requires divisor > 0 && value == k * divisor + s && 1 - divisor < s <= 1
    ensures value % divisor == 1 % divisor <==> s == 1
  {
    if divisor == 1 {
    } else if s >= 0 {
      ModUnique(value, k, s, divisor);
    } else {
      assert value == (k - 1) * divisor + (s + divisor);
      ModUnique(value, k - 1, s + divisor, divisor);
    }
  }

  lemma ModUnique(value: int, k: int, s: int, divisor: int)
    requires divisor > 0 && value == k * divisor + s && 0 <= s < divisor
    ensures value % divisor == s
  {
    var d := value / divisor - k;
    assert value == value / divisor * divisor + value % divisor;
    assert d * divisor == s - value % divisor;
    assert d >= 1 ==> d * divisor >= divisor;
    assert d <= -1 ==> d * divisor <= -divisor;
  }

  // ----- The charge -----

  /** No product, sum or charge leaves 128 bits, whatever the tokens and the price. */
  lemma NoOverflow(tokens: U64, price: I64)
    ensures FitsI128(tokens * price) && FitsI128(tokens * price + TOKENS_PER_PRICE - 1)
    ensures -I128_MAX / 2 <= PartCharge(tokens, price) <= I128_MAX / 2
  {
    assert 0 <= tokens <= U64_MAX;
    if price >= 0 {
      assert 0 <= tokens * price <= U64_MAX * I64_MAX by { Products(tokens, U64_MAX, price, I64_MAX); }
    } else {
      var discount: int := 0 - price;
      Products(tokens, U64_MAX, discount, 0x8000_0000_0000_0000);
      assert tokens * price == -(tokens * discount);
    }
  }

  lemma Products(a: int, b: int, c: int, d: int)
    requires 0 <= a <= b && 0 <= c <= d
    ensures 0 <= a * c <= b * d
  {
    assert a * c <= b * c <= b * d;
  }

  lemma CeilDivNonNegative(value: int)
    requires value >= 0
    ensures CeilDiv(value, TOKENS_PER_PRICE) >= 0
  {
  }

  /** Each part is the exact ceiling of its price. */
  lemma PartIsCeiling(tokens: U64, price: I64)
    requires price >= 0
    ensures PartCharge(tokens, price) >= 0
    ensures IsCeiling(PartCharge(tokens, price), tokens * price, TOKENS_PER_PRICE)
  {
    hide CeilDiv;
    Products(0, tokens, price, price);
    CeilDivNonNegative(tokens * price);
    CeilDivIsCeiling(tokens * price, TOKENS_PER_PRICE);
  }

  lemma CeilingIsUnique(p: int, q: int, value: int)
    requires (p - 1) * 1_000_000 < value <= p * 1_000_000 && (q - 1) * 1_000_000 < value <= q * 1_000_000
    ensures p == q
  {
  }

  /** The charge in numbers: prompt tokens at the input price and completion tokens at the output
      price, both per million, each rounded up by itself. */
  lemma ChargeIsCeilings(usage: TokenUsage, price: RoutePrice, p: nat, q: nat)
    requires price.input >= 0 && price.output >= 0
    requires (p - 1) * 1_000_000 < usage.promptTokens * price.input <= p * 1_000_000
    requires (q - 1) * 1_000_000 < usage.completionTokens * price.output <= q * 1_000_000
    ensures ExactCharge(usage, price) == p + q
    ensures p + q <= I64_MAX ==> CalculateUsageCharge(usage, price) == UsageCharge(p, q, p + q)
  {
    hide PartCharge;
    PartIsCeiling(usage.promptTokens, price.input);
    PartIsCeiling(usage.completionTokens, price.output);
    CeilingIsUnique(p, PartCharge(usage.promptTokens, price.input), usage.promptTokens * price.input);
    CeilingIsUnique(q, PartCharge(usage.completionTokens, price.output), usage.completionTokens * price.output);
  }

  /** The same with the divisions written out. */
  lemma ChargeInNumbers(usage: TokenUsage, price: RoutePrice)
    requires price.input >= 0 && price.output >= 0
    ensures var p, q := (usage.promptTokens * price.input + 999_999) / 1_000_000,
                        (usage.completionTokens * price.output + 999_999) / 1_000_000;
            && p >= 0 && q >= 0 && ExactCharge(usage, price) == p + q
            && (p + q <= I64_MAX ==> CalculateUsageCharge(usage, price) == UsageCharge(p, q, p + q))
  {
    hide ExactCharge, CalculateUsageCharge;
    var a, b := usage.promptTokens * price.input, usage.completionTokens * price.output;
    Products(0, usage.promptTokens, price.input, price.input);
    Products(0, usage.completionTokens, price.output, price.output);
    RoundedUp(a);
    RoundedUp(b);
    ChargeIsCeilings(usage, price, (a + 999_999) / 1_000_000, (b + 999_999) / 1_000_000);
  }

  lemma RoundedUp(value: int)
    requires value >= 0
    ensures var p := (value + 999_999) / 1_000_000; p >= 0 && (p - 1) * 1_000_000 < value <= p * 1_000_000
  {
  }

  /** The charged total is the exact one if and only if that fits 64 bits, and it always has its low 64
      bits. */
  lemma TotalIsExact(usage: TokenUsage, price: RoutePrice)
    ensures CalculateUsageCharge(usage, price).total == ExactCharge(usage, price) <==>
            I64_MIN <= ExactCharge(usage, price) <= I64_MAX
    ensures (ExactCharge(usage, price) - CalculateUsageCharge(usage, price).total) % 0x1_0000_0000_0000_0000 == 0
  {
    hide PartCharge;
  }

  lemma PartMonotone(fewer: U64, more: U64, price: I64)
    requires fewer <= more && price >= 0
    ensures PartCharge(fewer, price) <= PartCharge(more, price)
  {
    hide PartCharge;
    PartIsCeiling(fewer, price);
    PartIsCeiling(more, price);
    Products(fewer, more, price, price);
  }

  predicate Within(usage: TokenUsage, bound: TokenUsage) {
    usage.promptTokens <= bound.promptTokens && usage.completionTokens <= bound.completionTokens
  }

  lemma ChargeMonotone(usage: TokenUsage, bound: TokenUsage, price: RoutePrice)
    requires Within(usage, bound) && NonNegativePrice(price)
    ensures 0 <= ExactCharge(usage, price) <= ExactCharge(bound, price)
  {
    hide PartCharge;
    PartIsCeiling(usage.promptTokens, price.input);
    PartIsCeiling(usage.completionTokens, price.output);
    PartMonotone(usage.promptTokens, bound.promptTokens, price.input);
    PartMonotone(usage.completionTokens, bound.completionTokens, price.output);
  }

  /** Splitting usage never costs less, and costs at most one microcredit more a part. */
  lemma PartSplit(a: U64, b: U64, price: I64)
    requires a + b <= U64_MAX && price >= 0
    ensures PartCharge(a + b, price) <= PartCharge(a, price) + PartCharge(b, price) <= PartCharge(a + b, price) + 1
  {
    hide PartCharge;
    PartIsCeiling(a, price);
    PartIsCeiling(b, price);
    PartIsCeiling(a + b, price);
    assert (a + b) * price == a * price + b * price;
  }

  // ----- The preflight check and the later charge -----

  /** `ensure_sufficient_credit` lets a request through. */
  predicate PreflightPasses(balance: I64, usage: TokenUsage, price: RoutePrice) {
    var total := CalculateUsageCharge(usage, price).total;
    total <= 0 || balance >= total
  }

  /** `record_usage` reports insufficient credit. */
  predicate ChargeRefused(balance: I64, usage: TokenUsage, price: RoutePrice) {
    var total := CalculateUsageCharge(usage, price).total;
    total > 0 && balance < total
  }

  /** What the preflight check is for: having passed, no usage within the estimate can be
      refused while the balance does not fall. */
  ghost predicate Guarantees(estimate: TokenUsage, price: RoutePrice) {
    forall before: I64, after: I64, usage ::
      0 <= before <= after && PreflightPasses(before, estimate, price) && Within(usage, estimate)
      ==> !ChargeRefused(after, usage, price)
  }

  /** The most that one more token can cost. */
  function OneToken(price: RoutePrice): int {
    if PartCharge(1, price.input) >= PartCharge(1, price.output) then PartCharge(1, price.input) else PartCharge(1, price.output)
  }

  /** The preflight check keeps its promise whenever the exact charge of the estimate fits 64 bits. */
  lemma PreflightGuarantees(estimate: TokenUsage, price: RoutePrice)
    requires NonNegativePrice(price) && ExactCharge(estimate, price) <= I64_MAX
    ensures Guarantees(estimate, price)
  {
    forall before: I64, after: I64, usage |
      0 <= before <= after && PreflightPasses(before, estimate, price) && Within(usage, estimate)
      ensures !ChargeRefused(after, usage, price)
    {
      ChargeMonotone(usage, estimate, price);
      TotalIsExact(usage, price);
      TotalIsExact(estimate, price);
    }
  }

  /** Past 64 bits the promise breaks: the estimate is cut to a small total that passes. (The
      cut total must leave room for one token's charge below the largest amount.) */
  lemma PreflightBreaks(estimate: TokenUsage, price: RoutePrice)
    requires NonNegativePrice(price) && ExactCharge(estimate, price) > I64_MAX
    requires CalculateUsageCharge(estimate, price).total <= I64_MAX - OneToken(price)
    ensures !Guarantees(estimate, price)
  {
    var usage := Crossing(estimate, price);
    var total := CalculateUsageCharge(estimate, price).total;
    var balance: I64 := if total > 0 then total else 0;
    TotalIsExact(usage, price);
    assert PreflightPasses(balance, estimate, price) && ChargeRefused(balance, usage, price);
  }

  /** For prices of at most one microcredit a token the condition is exact: the promise is kept if
      and only if the estimate's charge fits 64 bits, or is cut to the largest amount itself. */
  lemma PreflightExactly(estimate: TokenUsage, price: RoutePrice)
    requires NonNegativePrice(price) && price.input <= TOKENS_PER_PRICE && price.output <= TOKENS_PER_PRICE
    ensures Guarantees(estimate, price) <==>
            ExactCharge(estimate, price) <= I64_MAX || CalculateUsageCharge(estimate, price).total == I64_MAX
  {
    hide ExactCharge, CalculateUsageCharge;
    if ExactCharge(estimate, price) <= I64_MAX {
      PreflightGuarantees(estimate, price);
    } else if CalculateUsageCharge(estimate, price).total < I64_MAX {
      assert OneToken(price) <= 1;
      PreflightBreaks(estimate, price);
    }
  }

  lemma OneTokenLess(tokens: U64, price: I64)
    requires tokens > 0 && price >= 0
    ensures PartCharge(tokens, price) - PartCharge(1, price) <= PartCharge(tokens - 1, price)
  {
    PartSplit(tokens - 1, 1, price);
    PartIsCeiling(1, price);
  }

  /** Some usage within an estimate past 64 bits costs the largest amount, short of less than a token. */
  lemma Crossing(estimate: TokenUsage, price: RoutePrice) returns (usage: TokenUsage)
    requires NonNegativePrice(price) && ExactCharge(estimate, price) > I64_MAX
    ensures Within(usage, estimate) && I64_MAX - OneToken(price) < ExactCharge(usage, price) <= I64_MAX
    decreases estimate.promptTokens + estimate.completionTokens
  {
    var less := estimate;
    if estimate.completionTokens > 0 {
      less := estimate.(completionTokens := estimate.completionTokens - 1);
      OneTokenLess(estimate.completionTokens, price.output);
    } else {
      assert estimate.promptTokens > 0;
      less := estimate.(promptTokens := estimate.promptTokens - 1);
      OneTokenLess(estimate.promptTokens, price.input);
    }
    if ExactCharge(less, price) <= I64_MAX {
      return less;
    }
    usage := Crossing(less, price);
  }
}
