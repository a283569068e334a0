/** The search for the clock divisor of the I2C bus. */
module ClockDivisor {
  import opened Options

  /** Unsigned 32-bit arithmetic is modulo this. */
  const U32: nat := 0x1_0000_0000

  function Pow(b: nat, e: nat): nat {
    if e == 0 then 1 else Pow(b, e - 1) * b
  }

  lemma ModMul(a: nat, b: nat)
    ensures ((a % U32) * b) % U32 == (a * b) % U32
  {
    var q, r := a / U32, a % U32;
    assert a * b == (q * b) * U32 + r * b;
    assert (r * b + (q * b) * U32) % U32 == (r * b) % U32;
  }

  method Power(base: nat, exp: nat) returns (val: nat)
    requires base < U32 && exp < U32
    ensures val == Pow(base, exp) % U32
  {
    val := 1;
    if exp == 0 {
      return;
    }
    var i := 0;
    while i < exp
      invariant 0 <= i <= exp && val == Pow(base, i) % U32
    {
      ModMul(Pow(base, i), base);
      val := (val * base) % U32;
      i := i + 1;
    }
  }

  // ---------- codes ----------

  /** The divisor that the two fields of the register stand for. */
  function Divisor(high: nat, low: nat): nat {
    (high + 1) * Pow(2, low + 1)
  }

  /** Bitwise or. */
  function Or(a: nat, b: nat): nat {
    if a == 0 && b == 0 then 0 else (if a % 2 == 1 || b % 2 == 1 then 1 else 0) + 2 * Or(a / 2, b / 2)
  }

  /** The byte (high << 3) | low. */
  function Encode(high: nat, low: nat): nat {
    Or(high * 8, low) % 256
  }

  /** The fields of a register value: bits 5 to 3 and bits 2 to 0. */
  function High(code: nat): nat { code / 8 % 8 }
  function Low(code: nat): nat { code % 8 }

  lemma {:induction false} OrZero(a: nat)
    ensures Or(a, 0) == a
  {
    if a > 0 { OrZero(a / 2); }
  }

  lemma OrDouble(a: nat, b: nat, x: nat)
    requires b < 2
    ensures Or(2 * a, b + 2 * x) == b + 2 * Or(a, x)
  {
    assert 2 * a / 2 == a && 2 * a % 2 == 0;
    assert (b + 2 * x) / 2 == x && (b + 2 * x) % 2 == b;
  }

  lemma OrFields(high: nat, b0: nat, b1: nat, b2: nat)
    requires b0 < 2 && b1 < 2 && b2 < 2
    ensures Or(8 * high, b0 + 2 * b1 + 4 * b2) == 8 * high + b0 + 2 * b1 + 4 * b2
  {
    OrDouble(4 * high, b0, b1 + 2 * b2);
    OrDouble(2 * high, b1, b2);
    OrDouble(high, b2, 0);
    OrZero(high);
    assert 8 * high == 2 * (4 * high) && 4 * high == 2 * (2 * high);
  }

  /** Fields of three bits are read back as they were written. */
  lemma EncodeExact(high: nat, low: nat)
    requires high < 8 && low < 8
    ensures var code := Encode(high, low); code < 64 && High(code) == high && Low(code) == low
  {
    var b0, b1, b2 := Bits(low);
    OrFields(high, b0, b1, b2);
    FieldsOf(high, low);
    assert high * 8 == 8 * high;
  }

  lemma Bits(n: nat) returns (b0: nat, b1: nat, b2: nat)
    requires n < 8
    ensures n == b0 + 2 * b1 + 4 * b2 && b0 < 2 && b1 < 2 && b2 < 2
  {
    b2 := if n < 4 then 0 else 1;
    b1 := if n - 4 * b2 < 2 then 0 else 1;
    b0 := n - 4 * b2 - 2 * b1;
  }

  lemma FieldsOf(high: nat, low: nat)
    requires high < 8 && low < 8
    ensures var code := 8 * high + low; code % 256 == code && code < 64 && High(code) == high && Low(code) == low
  {
  }

  lemma {:induction false} PowGrows(a: nat, b: nat)
    requires a <= b
    ensures 1 <= Pow(2, a) <= Pow(2, b)
    decreases b
  {
    if b > 0 { PowGrows(if a < b then a else b - 1, b - 1); }
  }

  lemma {:induction false} PowSplit(a: nat, b: nat)
    ensures Pow(2, a + b) == Pow(2, a) * Pow(2, b)
  {
    if b > 0 { PowSplit(a, b - 1); }
  }

  lemma PowValues()
    ensures Pow(2, 8) == 256 && Pow(2, 26) == 67108864 && Pow(2, 27) == 134217728 && Pow(2, 28) == 268435456
    ensures Pow(2, 29) == 536870912
  {
    assert Pow(2, 4) == 16;
    PowSplit(4, 4);
    PowSplit(8, 8);
    PowSplit(16, 8);
    assert Pow(2, 24) == 16777216;
    PowSplit(24, 2);
    PowSplit(24, 3);
    PowSplit(24, 4);
    PowSplit(26, 3);
  }

  // ---------- the search ----------

  /** What the program divides the peripheral clock by, which for large fields has lost its upper bits. */
  function Wrapped(high: nat, low: nat): nat {
    (5 * (((high + 1) * (Pow(2, low + 1) % U32)) % U32)) % U32
  }

  lemma WrappedSmall(high: nat, low: nat)
    requires high < 8 && low <= 25
    ensures Wrapped(high, low) == 5 * Divisor(high, low) <= 2684354560 && Divisor(high, low) >= 2
  {
    PowGrows(low + 1, 26);
    PowGrows(1, low + 1);
    PowValues();
    var p := Pow(2, low + 1);
    assert p % U32 == p;
    assert 1 * p <= (high + 1) * p <= 8 * p;
  }

  lemma WrappedLarge(high: nat, low: nat)
    requires high < 8 && 26 <= low <= 28
    ensures Wrapped(high, low) <= 4026531840 && (Wrapped(high, low) == 0 <==> high == 7 && low == 28)
  {
    PowValues();
  }

  /** The search went past these fields: the clock they give is not below the target. */
  ghost predicate Fails(pclk: nat, clk: nat, high: nat, low: nat) {
    Wrapped(high, low) != 0 && pclk / Wrapped(high, low) >= clk
  }

  ghost predicate FailsBefore(pclk: nat, clk: nat, high: nat, low: nat) {
    && (forall l, h :: 0 <= l < low && 0 <= h < 8 ==> Fails(pclk, clk, h, l))
    && forall h :: 0 <= h < high ==> Fails(pclk, clk, h, low)
  }

  /** The bus clock a divisor gives is below the target. */
  predicate Below(pclk: nat, clk: nat, divisor: nat)
    requires divisor > 0
  {
    pclk / (5 * divisor) < clk
  }

  /** No target is met by any divisor the program can form. */
  predicate Hopeless(pclk: nat, clk: nat) {
    clk == 0 || (clk == 1 && pclk >= 4026531840)
  }

  /** The search ends in a division by zero, here None, or gives the register value. */
  method Calculate(pclk: nat, clk: nat) returns (code: Option<nat>)
    requires pclk < U32 && clk < U32
    ensures code.None? <==> Hopeless(pclk, clk)
    ensures code.Some? ==> Answers(pclk, clk, code.value)
  {
    var divHigh, divLow := 0, 0;
    while true
      invariant 0 <= divLow <= 28 && FailsBefore(pclk, clk, 0, divLow)
      decreases 29 - divLow
    {
      var power := Power(2, divLow + 1);
      divHigh := 0;
      while divHigh < 8
        invariant 0 <= divHigh <= 8 && FailsBefore(pclk, clk, divHigh, divLow)
        invariant divLow == 28 ==> divHigh <= 7
      {
        var divisor := ((divHigh + 1) * power) % U32;
        FieldsBounded(divHigh, divLow);
        if (5 * divisor) % U32 == 0 {
          FailsHopeless(pclk, clk);
          return None;
        }
        var sclk := pclk / ((5 * divisor) % U32);
        if sclk < clk {
          NotHopeless(pclk, clk, divHigh, divLow);
          FoundAnswers(pclk, clk, divHigh, divLow);
          return Some(Encode(divHigh, divLow));
        }
        divHigh := divHigh + 1;
      }
      divLow := divLow + 1;
    }
  }

  /**
   * The register value gives a clock below the target exactly if the largest divisor of six bits does; and then no
   * fields whatever give a smaller divisor that does, so that no clock below the target is faster.
   */
  ghost predicate Answers(pclk: nat, clk: nat, code: nat) {
    && 0 < Divisor(High(code), Low(code)) <= 2048
    && (Below(pclk, clk, Divisor(High(code), Low(code))) <==> Below(pclk, clk, 2048))
    && (Below(pclk, clk, 2048) ==> code < 64 && Smallest(pclk, clk, Divisor(High(code), Low(code))))
  }

  ghost predicate Smallest(pclk: nat, clk: nat, divisor: nat) {
    forall h, l {:trigger Divisor(h, l)} ::
      0 <= h < 8 && 0 <= l && 0 < Divisor(h, l) && Below(pclk, clk, Divisor(h, l)) ==> divisor <= Divisor(h, l)
  }

  lemma FieldsBounded(high: nat, low: nat)
    requires high < 8 && low <= 28
    ensures Wrapped(high, low) <= 4026531840 && (Wrapped(high, low) == 0 <==> high == 7 && low == 28)
  {
    if low <= 25 { WrappedSmall(high, low); } else { WrappedLarge(high, low); }
  }

  lemma FailsHopeless(pclk: nat, clk: nat)
    requires pclk < U32 && FailsBefore(pclk, clk, 7, 28)
    ensures Hopeless(pclk, clk)
  {
    assert Fails(pclk, clk, 5, 26);
    PowValues();
    assert Wrapped(5, 26) == 4026531840;
  }

  lemma NotHopeless(pclk: nat, clk: nat, high: nat, low: nat)
    requires high < 8 && low <= 28 && Wrapped(high, low) != 0 && pclk / Wrapped(high, low) < clk
    ensures !Hopeless(pclk, clk)
  {
    FieldsBounded(high, low);
  }

  lemma CodeBounded(code: nat)
    ensures 0 < Divisor(High(code), Low(code)) <= 2048
  {
    PowGrows(Low(code) + 1, 8);
    PowValues();
    var p := Pow(2, Low(code) + 1);
    assert 1 * p <= (High(code) + 1) * p <= 8 * p;
  }

  /** A larger divisor gives a slower clock. */
  lemma BelowGrows(pclk: nat, clk: nat, d: nat, d': nat)
    requires 0 < d <= d' && Below(pclk, clk, d)
    ensures Below(pclk, clk, d')
  {
    DivGrows(pclk, 5 * d, 5 * d');
  }

  lemma DivGrows(x: nat, m: nat, n: nat)
    requires 0 < m <= n
    ensures x / n <= x / m
  {
    var q, r := x / n, x / m;
    assert q * n <= x && x < (r + 1) * m;
    assert q * m <= q * n;
    assert q >= r + 1 ==> (r + 1) * m <= q * m;
  }

  lemma FoundAnswers(pclk: nat, clk: nat, high: nat, low: nat)
    requires high < 8 && low <= 28 && FailsBefore(pclk, clk, high, low)
    requires Wrapped(high, low) != 0 && pclk / Wrapped(high, low) < clk
    ensures Answers(pclk, clk, Encode(high, low))
  {
    var code := Encode(high, low);
    CodeBounded(code);
    if Below(pclk, clk, Divisor(High(code), Low(code))) {
      BelowGrows(pclk, clk, Divisor(High(code), Low(code)), 2048);
    }
    PowValues();
    if low > 7 {
      WrappedSmall(7, 7);
      assert Fails(pclk, clk, 7, 7);
    } else {
      EncodeExact(high, low);
      WrappedSmall(high, low);
      FoundSmallest(pclk, clk, high, low);
      BelowGrows(pclk, clk, Divisor(high, low), 2048);
    }
  }

  lemma FoundSmallest(pclk: nat, clk: nat, high: nat, low: nat)
    requires high < 8 && low <= 7 && FailsBefore(pclk, clk, high, low)
    ensures Smallest(pclk, clk, Divisor(high, low))
  {
    forall h: nat, l: nat | h < 8 && 0 < Divisor(h, l) && Below(pclk, clk, Divisor(h, l))
      ensures Divisor(high, low) <= Divisor(h, l)
    {
      if l <= low {
        EarlierFails(pclk, clk, high, low, h, l);
      } else {
        var k := SameDivisor(h, l, low);
        if k < high {
          EarlierFails(pclk, clk, high, low, k, low);
        } else {
          DivisorGrows(high, k, low);
        }
      }
    }
  }

  /** With a smaller second field the same divisor takes a larger first one, which may need more than three bits. */
  lemma SameDivisor(h: nat, l: nat, low: nat) returns (k: nat)
    requires l > low
    ensures Divisor(k, low) == Divisor(h, l)
  {
    PowGrows(0, l - low);
    PowSplit(low + 1, l - low);
    var a, b := Pow(2, low + 1), Pow(2, l - low);
    assert (h + 1) * b >= 1;
    k := (h + 1) * b - 1;
    assert Pow(2, l + 1) == a * b;
    assert (k + 1) * a == (h + 1) * (a * b);
  }

  lemma DivisorGrows(h: nat, k: nat, low: nat)
    requires h <= k
    ensures Divisor(h, low) <= Divisor(k, low)
  {
  }

  /** Fields that give a clock below the target come no earlier than those found, and so have no smaller divisor. */
  lemma EarlierFails(pclk: nat, clk: nat, high: nat, low: nat, h: nat, l: nat)
    requires high < 8 && h < 8 && l <= low <= 7 && FailsBefore(pclk, clk, high, low)
    requires Divisor(h, l) > 0 && Below(pclk, clk, Divisor(h, l))
    ensures l == low && high <= h && Divisor(high, low) <= Divisor(h, l)
  {
    WrappedSmall(h, l);
    assert !Fails(pclk, clk, h, l);
    assert l == low && high <= h;
    DivisorGrows(high, h, low);
  }
}
