/** 64-bit division built from the x86 `divl` instruction, which divides a 64-bit number by a
    32-bit one and traps when the quotient needs more than 32 bits (pintos/src/lib/arithmetic.c).

    Every C operator is written with its machine width: a `u64` product, sum or difference is
    reduced modulo 2^64 where the source computes it, so the theorems say that wrap-around,
    where it could happen, does not disturb the result. */
module Arithmetic {
  import opened Nonlinear

  const TWO_31: int := 0x8000_0000
  const TWO_32: int := 0x1_0000_0000
  const TWO_63: int := 0x8000_0000_0000_0000
  const TWO_64: int := 0x1_0000_0000_0000_0000

  type u32 = x: int | 0 <= x < TWO_32
  type u64 = x: int | 0 <= x < TWO_64
  type i32 = x: int | -TWO_31 <= x < TWO_31
  type i64 = x: int | -TWO_63 <= x < TWO_63

  const INT64_MIN: i64 := -TWO_63

  // ---------- Machine operators ----------

  function Wrap32(x: int): u32 { x % TWO_32 }

  function Wrap64(x: int): u64 { x % TWO_64 }

  function ToI64(x: u64): i64 { if x < TWO_63 then x else x - TWO_64 }

  function ToI32(x: u32): i32 { if x < TWO_31 then x else x - TWO_32 }

  function Pow2(n: nat): (p: nat)
    ensures p >= 1
  {
    if n == 0 then 1 else 2 * Pow2(n - 1)
  }

  /** The `divl` instruction. Its precondition is the absence of the divide-error trap, so every
      call below proves that the instruction does not trap. */
  function Divl(n: u64, d: u32): u32
    requires d != 0 && n / d < TWO_32
  {
    DivNonNeg(n, d);
    n / d
  }

  // ---------- Powers of two ----------

  lemma Pow2Values()
    ensures Pow2(2) == 4 && Pow2(4) == 0x10 && Pow2(8) == 0x100 && Pow2(16) == 0x1_0000
    ensures Pow2(31) == TWO_31 && Pow2(32) == TWO_32
  {
    assert Pow2(8) == 0x100;
    Pow2Sum(8, 8);
    Pow2Sum(16, 8);
    Pow2Sum(24, 7);
    assert Pow2(7) == 0x80;
  }

  lemma {:induction false} Pow2Sum(a: nat, b: nat)
    ensures Pow2(a + b) == Pow2(a) * Pow2(b)
  {
    if a > 0 {
      Pow2Sum(a - 1, b);
      MulAssoc(2, Pow2(a - 1), Pow2(b));
    }
  }

  // ---------- Leading zeros ----------

  /** How many times a 32-bit number can be doubled before its top bit is set. */
  function LeadingZeros(x: u32): (n: nat)
    requires x != 0
    decreases TWO_32 - x
  {
    if x >= TWO_31 then 0 else 1 + LeadingZeros(2 * x)
  }

  /** Doubling k times without losing a bit uses up k leading zeros. */
  lemma {:induction false} LeadingZerosShift(x: u32, k: nat)
    requires x != 0 && x * Pow2(k) < TWO_32
    ensures x * Pow2(k) >= x && LeadingZeros(x) == k + LeadingZeros(x * Pow2(k))
    decreases k
  {
    MulMono(1, Pow2(k), x);
    if k > 0 {
      MulAssoc(x, 2, Pow2(k - 1));
      MulMono(1, Pow2(k - 1), 2 * x);
      LeadingZerosShift(2 * x, k - 1);
    }
  }

  /** What makes the count useful: shifting by it normalises the number. */
  lemma {:induction false} LeadingZerosNormalises(x: u32)
    requires x != 0
    ensures TWO_31 <= x * Pow2(LeadingZeros(x)) < TWO_32
    ensures LeadingZeros(x) <= 31
    decreases TWO_32 - x
  {
    if x < TWO_31 {
      LeadingZerosNormalises(2 * x);
      MulAssoc(x, 2, Pow2(LeadingZeros(2 * x)));
    }
    ShiftIsSmall(x, LeadingZeros(x));
  }

  lemma {:induction false} ShiftIsSmall(x: nat, n: nat)
    requires x > 0 && x * Pow2(n) < TWO_32
    ensures n <= 31
  {
    if n > 31 {
      Pow2Sum(32, n - 32);
      Pow2Values();
      MulMono(1, Pow2(n - 32), TWO_32);
      MulMono(1, x, Pow2(n));
    }
  }

  /** Shifting left by k, a multiplication by p, keeps the number nonzero below 2^32 / p. */
  lemma ShiftStep(x: u32, k: nat, p: int)
    requires p == Pow2(k) && x != 0 && x * p < TWO_32
    ensures Wrap32(x * p) == x * p >= p && LeadingZeros(x) == k + LeadingZeros(x * p)
  {
    LeadingZerosShift(x, k);
    MulMono(1, x, p);
  }

  /** The binary search of the source: halve the window five times, shifting `x` in 32 bits. */
  method Nlz(x: u32) returns (n: nat)
    requires x != 0
    ensures n == LeadingZeros(x)
  {
    var y: u32;
    n, y := 0, x;
    Pow2Values();
    if y <= 0x0000FFFF { ShiftStep(y, 16, 0x1_0000); n, y := n + 16, Wrap32(y * 0x1_0000); }
    assert y >= 0x1_0000 && LeadingZeros(x) == n + LeadingZeros(y);
    if y <= 0x00FFFFFF { ShiftStep(y, 8, 0x100); n, y := n + 8, Wrap32(y * 0x100); }
    assert y >= 0x100_0000 && LeadingZeros(x) == n + LeadingZeros(y);
    if y <= 0x0FFFFFFF { ShiftStep(y, 4, 0x10); n, y := n + 4, Wrap32(y * 0x10); }
    assert y >= 0x1000_0000 && LeadingZeros(x) == n + LeadingZeros(y);
    if y <= 0x3FFFFFFF { ShiftStep(y, 2, 4); n, y := n + 2, Wrap32(y * 4); }
    assert y >= 0x4000_0000 && LeadingZeros(x) == n + LeadingZeros(y);
    if y <= 0x7FFFFFFF { n := n + 1; }
  }

  // ---------- The wide divisor ----------

  function HighWord(d: u64): (h: u32)
    requires d >= TWO_32
    ensures h != 0
  {
    d / TWO_32
  }

  /** The 32-bit divisor the estimate uses: the top 32 bits of the normalised 64-bit one. */
  function TopBits(d: u64): (v: u32)
    requires d >= TWO_32
  {
    Wrap64(d * Pow2(LeadingZeros(HighWord(d)))) / TWO_32
  }

  /** The shift loses no bit of d and leaves the top bit set. */
  lemma TopBitsBounds(d: u64)
    requires d >= TWO_32
    ensures var s := LeadingZeros(HighWord(d));
            && s <= 31
            && TopBits(d) * TWO_32 <= d * Pow2(s) < TopBits(d) * TWO_32 + TWO_32
            && TopBits(d) >= TWO_31
  {
    var h := HighWord(d);
    LeadingZerosNormalises(h);
    var s := LeadingZeros(h);
    ShiftKeepsLowBits(d, h, s);
    Normalised(d * Pow2(s));
  }

  lemma Normalised(x: int)
    requires TWO_63 <= x < TWO_64
    ensures Wrap64(x) == x && TWO_31 <= x / TWO_32 && x / TWO_32 * TWO_32 <= x < x / TWO_32 * TWO_32 + TWO_32
  {
  }

  /** With h * 2^s normalised in 32 bits, every d whose high word is h is normalised in 64. */
  lemma ShiftKeepsLowBits(d: u64, h: u32, s: nat)
    requires s <= 31 && h * TWO_32 <= d < h * TWO_32 + TWO_32
    requires TWO_31 <= h * Pow2(s) < TWO_32
    ensures TWO_63 <= d * Pow2(s) < TWO_64
  {
    var p, c := Pow2(s), Pow2(32 - s);
    Pow2Sum(32 - s, s);
    Pow2Values();
    assert c * p == TWO_32;
    MulCancelLess(h, c, p);
    MulMono(h + 1, c, p);
    assert (h + 1) * p <= TWO_32;
    MulLess(d, (h + 1) * TWO_32, p);
    Regroup(h + 1, p);
    MulMono(h * TWO_32, d, p);
    Regroup(h, p);
  }

  lemma Regroup(h: int, p: int)
    ensures (h * TWO_32) * p == (h * p) * TWO_32
  {
  }

  /** The first `divl` of the wide path never traps. */
  lemma HalfFits(n: u64, v: u32)
    requires v >= TWO_31
    ensures n / 2 / v < TWO_32
  {
    MulMono(TWO_31, v, TWO_32);
    DivLess(n / 2, v, TWO_32);
  }

  /** The quotient estimate: half the dividend by the top bits of the normalised divisor, shifted back. */
  function Estimate(n: u64, d: u64): (q: u64)
    requires d >= TWO_32
  {
    TopBitsBounds(d);
    HalfFits(n, TopBits(d));
    var s := LeadingZeros(HighWord(d));
    var half: u64 := n / 2;
    var q := Divl(half, TopBits(d));
    DivNonNeg(q, Pow2(31 - s));
    q / Pow2(31 - s)
  }

  /** The estimate is the floor quotient by a divisor rounded down to its top 32 bits. */
  lemma EstimateIsRoundedQuotient(n: u64, d: u64) returns (c: nat, w: nat)
    requires d >= TWO_32
    ensures c >= 2 && w >= TWO_31 * c
    ensures w <= d < w + c
    ensures Estimate(n, d) == n / w
  {
    c, w := DivisorRoundedDown(d);
    EstimateIsQuotient(n, d);
  }

  lemma DivisorRoundedDown(d: u64) returns (c: nat, w: nat)
    requires d >= TWO_32
    ensures c >= 2 && w >= TWO_31 * c && w <= d < w + c
    ensures LeadingZeros(HighWord(d)) <= 31 && w == TopBits(d) * Pow2(32 - LeadingZeros(HighWord(d)))
  {
    TopBitsBounds(d);
    c, w := RoundedDown(d, TopBits(d), LeadingZeros(HighWord(d)));
  }

  lemma RoundedDown(d: u64, v: u32, s: nat) returns (c: nat, w: nat)
    requires s <= 31 && TWO_31 <= v && v * TWO_32 <= d * Pow2(s) < v * TWO_32 + TWO_32
    ensures c >= 2 && w >= TWO_31 * c && w <= d < w + c && w == v * Pow2(32 - s)
  {
    c := Pow2(32 - s);
    assert c == 2 * Pow2(31 - s);
    w := v * c;
    MulMono(TWO_31, v, c);
    RoundedDivisor(d, v, s);
  }

  lemma EstimateIsQuotient(n: u64, d: u64)
    requires d >= TWO_32
    ensures LeadingZeros(HighWord(d)) <= 31
    ensures TopBits(d) * Pow2(32 - LeadingZeros(HighWord(d))) > 0
    ensures Estimate(n, d) == n / (TopBits(d) * Pow2(32 - LeadingZeros(HighWord(d))))
  {
    TopBitsBounds(d);
    HalfFits(n, TopBits(d));
    HalfThenShift(n, TopBits(d), 31 - LeadingZeros(HighWord(d)));
  }

  /** Halving, dividing and shifting right is one division. */
  lemma HalfThenShift(n: u64, v: u32, k: nat)
    requires v >= TWO_31
    ensures v * Pow2(k + 1) > 0 && n / 2 / v / Pow2(k) == n / (v * Pow2(k + 1))
  {
    DivDiv(n, 2, v);
    DivDiv(n, 2 * v, Pow2(k));
    EvenFactor(v, Pow2(k));
    MulMono(1, v, Pow2(k + 1));
  }

  lemma EvenFactor(v: int, p: int)
    ensures (2 * v) * p == v * (2 * p)
  {
  }

  lemma RoundedDivisor(d: u64, v: u32, s: nat)
    requires s <= 31 && v * TWO_32 <= d * Pow2(s) < v * TWO_32 + TWO_32
    ensures v * Pow2(32 - s) <= d < v * Pow2(32 - s) + Pow2(32 - s)
  {
    var p, c := Pow2(s), Pow2(32 - s);
    Pow2Sum(32 - s, s);
    Pow2Values();
    MulAssoc(v, c, p);
    MulDist(v * c, c, p);
    MulCancelLessEq(v * c, d, p);
    MulCancelLess(d, v * c + c, p);
  }

  /** The heart of the estimate: w * d exceeds what the rounding can cost. */
  lemma RoundingCost(n: u64, d: u64, c: nat, w: nat)
    requires c >= 2 && w >= TWO_31 * c && w <= d < w + c
    ensures n * (d - w) < w * d
  {
    var m := TWO_31 * c;
    MulMono(n, TWO_64 - 1, d - w);
    MulMono(d - w, c - 1, TWO_64 - 1);
    MulMono(m, w, d);
    MulMono(m, d, m);
    SquareDominates(c, m);
  }

  lemma SquareDominates(c: nat, m: nat)
    requires c >= 2 && m == TWO_31 * c
    ensures (TWO_64 - 1) * (c - 1) < m * m
  {
    assert m * m == TWO_31 * TWO_31 * (c * c);
    assert c * c == (c - 2) * (c - 2) + 4 * (c - 1);
    assert (c - 2) * (c - 2) >= 0;
  }

  /** A divisor rounded down by less than c, and at least 2^31 * c, overshoots by at most one. */
  lemma RoundedQuotientOvershoot(n: u64, d: u64, c: nat, w: nat)
    requires c >= 2 && w >= TWO_31 * c && w <= d < w + c
    ensures n / d <= n / w <= n / d + 1
  {
    var q := n / d;
    DivBounds(n, d);
    DivNonNeg(n, d);
    MulMono(w, d, q);
    DivAtLeast(n, w, q);
    RoundingCost(n, d, c, w);
    Overshoot(n, d, w, q);
    DivLess(n, w, q + 2);
  }

  lemma Overshoot(n: nat, d: nat, w: nat, q: nat)
    requires 0 < w <= d && n < q * d + d && n * (d - w) < w * d
    ensures n < (q + 2) * w
  {
    MulDist(d, w, n);
    assert n * d == n * w + n * (d - w);
    MulLess(n, q * d + d, w);
    assert (q * d + d) * w == ((q + 1) * w) * d;
    MulDist((q + 1) * w, w, d);
    assert (q + 1) * w + w == (q + 2) * w;
    MulCancelLess(n, (q + 2) * w, d);
  }

  /** The estimate is the true quotient or one more. */
  lemma EstimateOffByAtMostOne(n: u64, d: u64)
    requires d >= TWO_32
    ensures n / d <= Estimate(n, d) <= n / d + 1
  {
    var c, w := EstimateIsRoundedQuotient(n, d);
    RoundedQuotientOvershoot(n, d, c, w);
  }

  /** The last line of the wide path: one less than the estimate if that leaves a remainder below the
      divisor, in 64-bit arithmetic. */
  function Correct(n: u64, d: u64, q: u64): u64
  {
    if Wrap64(n - Wrap64(Wrap64(q - 1) * d)) < d then Wrap64(q - 1) else q
  }

  /** The correction step does not wrap, and picks the true quotient. */
  lemma CorrectionIsExact(n: u64, d: u64, q: u64)
    requires d >= TWO_32 && n >= d && n / d <= q <= n / d + 1
    ensures 1 <= q && 0 <= (q - 1) * d <= n
    ensures Correct(n, d, q) == n / d
  {
    DivBounds(n, d);
    DivAtLeast(n, d, 1);
    MulDist(n / d, 1, d);
    MulMono(0, q - 1, d);
    var m := (q - 1) * d;
    assert q == n / d ==> m == n / d * d - d;
    WrapId(q - 1);
    WrapId(m);
    WrapId(n - m);
  }

  lemma WrapId(x: u64)
    ensures Wrap64(x) == x
  {
  }

  // ---------- The four routines ----------

  /** Unsigned 64/64 division, as the source computes it: the schoolbook two-digit division when
      the divisor fits in 32 bits, otherwise an estimate corrected by at most one. The contract is
      that all of it amounts to the floor of the quotient. */
  function Udiv64(n: u64, d: u64): (q: u64)
    requires d != 0
    ensures q == n / d
  {
    if d / TWO_32 == 0 then
      TwoDigitDivision(n, d);
      NarrowDivide(n, d)
    else if n < d then
      QuotientIs(n, d, 0);
      0
    else
      EstimateOffByAtMostOne(n, d);
      CorrectionIsExact(n, d, Estimate(n, d));
      Correct(n, d, Estimate(n, d))
  }

  /** The narrow path, digit by digit: the high word first, then its remainder with the low word. */
  function NarrowDivide(n: u64, d0: u32): u64
    requires d0 != 0
  {
    DigitwiseQuotient(n, d0);
    var n1: u32 := n / TWO_32;
    var n0: u32 := n % TWO_32;
    Wrap64(Divl(Wrap64(TWO_32 * (n1 % d0) + n0), d0) + Wrap64(TWO_32 * (n1 / d0)))
  }

  /** Dividing the digits n1, n0 in base 2^32 by a one-digit divisor, most significant first. */
  lemma TwoDigitDivision(n: u64, d: u32)
    requires 0 < d
    ensures NarrowDivide(n, d) == n / d
  {
    DigitwiseQuotient(n, d);
    WrapId(TWO_32 * (n / TWO_32 % d) + n % TWO_32);
    WrapId(TWO_32 * (n / TWO_32 / d));
    WrapId(n / d);
  }

  lemma DigitwiseQuotient(n: u64, d: u32)
    requires 0 < d
    ensures var n1, n0 := n / TWO_32, n % TWO_32;
            && 0 <= TWO_32 * (n1 / d) < TWO_64
            && 0 <= TWO_32 * (n1 % d) + n0 < TWO_64
            && Wrap64(TWO_32 * (n1 % d) + n0) == TWO_32 * (n1 % d) + n0
            && 0 <= (TWO_32 * (n1 % d) + n0) / d < TWO_32
            && (TWO_32 * (n1 % d) + n0) / d + TWO_32 * (n1 / d) == n / d < TWO_64
  {
    var n1, n0 := n / TWO_32, n % TWO_32;
    var m := TWO_32 * (n1 % d) + n0;
    DivNonNeg(n, d);
    DivNonNeg(n1, d);
    DivBounds(n1, d);
    DivNonNeg(m, d);
    DivLess(m, d, TWO_32);
    DivBounds(m, d);
    Digits(m / d, n1 / d, d);
    QuotientIs(n, d, m / d + TWO_32 * (n1 / d));
  }

  lemma Digits(r: int, t: int, d: int)
    ensures (r + TWO_32 * t) * d == r * d + TWO_32 * (t * d)
  {
  }

  /** The remainder routine is declared to return 32 bits, so it truncates. */
  function Umod64(n: u64, d: u64): u32
    requires d != 0
  {
    var product: int := Wrap64(d * Udiv64(n, d));
    Wrap32(Wrap64(n - product))
  }

  /** The absolute value as an unsigned number. */
  function Magnitude(n: i64): (m: u64)
    ensures m == Abs(n)
  {
    if n >= 0 then Wrap64(n) else var negated: int := Wrap64(n); Wrap64(-negated)
  }

  function Abs(n: int): int { if n < 0 then -n else n }

  function Sdiv64(n: i64, d: i64): i64
    requires d != 0
  {
    var qAbs := ToI64(Udiv64(Magnitude(n), Magnitude(d)));
    if (n < 0) == (d < 0) then qAbs else Negate64(qAbs)
  }

  /** Signed negation as the machine does it: -INT64_MIN is INT64_MIN. */
  function Negate64(x: int): i64 { ToI64(Wrap64(-x)) }

  function Smod64(n: i64, d: i64): i32
    requires d != 0
  {
    RemainderBits(n, d * Sdiv64(n, d))
  }

  // ---------- What the routines compute ----------

  /** Division that truncates toward zero, as section 6.5.5 of ISO C99 defines it: q * d + r == n,
      the remainder smaller than the divisor and never of the opposite sign to the dividend. */
  ghost predicate TruncatedDivision(n: int, d: int, q: int, r: int) {
    && n == q * d + r
    && (if d < 0 then d < r < -d else -d < r < d)
    && (n >= 0 ==> r >= 0)
    && (n <= 0 ==> r <= 0)
  }

  lemma TruncatedDivisionUnique(n: int, d: int, q: int, r: int, q': int, r': int)
    requires d != 0 && TruncatedDivision(n, d, q, r) && TruncatedDivision(n, d, q', r')
    ensures q == q' && r == r'
  {
    MulDist(q, q', d);
    SmallMultiple(q - q', d);
  }

  lemma SmallMultiple(e: int, d: int)
    requires d != 0 && Abs(e * d) < Abs(d)
    ensures e == 0
  {
    assert Abs(e * d) == Abs(e) * Abs(d);
    MulCancelLess(Abs(e), 1, Abs(d));
  }

  /** Truncated division divides the magnitudes and puts the sign back. */
  lemma TruncatedBySigns(n: int, d: int)
    requires d != 0
    ensures var q := Abs(n) / Abs(d);
            var t := if (n < 0) == (d < 0) then q else -q;
            TruncatedDivision(n, d, t, n - t * d)
  {
    var a, b := Abs(n), Abs(d);
    DivBounds(a, b);
    assert d < 0 ==> -(a / b) * d == a / b * b && a / b * d == -(a / b * b);
    assert d > 0 ==> -(a / b) * d == -(a / b * b);
  }

  /** The one dividend and divisor whose quotient, 2^63, is not a signed 64-bit number. */
  predicate QuotientOverflows(n: i64, d: i64) { n == INT64_MIN && d == -1 }

  lemma QuotientMagnitude(n: i64, d: i64)
    requires d != 0
    ensures 0 <= Abs(n) / Abs(d) <= TWO_63
    ensures Abs(n) / Abs(d) == TWO_63 <==> n == INT64_MIN && Abs(d) == 1
  {
    DivNonNeg(Abs(n), Abs(d));
    if Abs(d) >= 2 { MulMono(2, Abs(d), TWO_63); DivLess(Abs(n), Abs(d), TWO_63); }
  }

  /** Signed division truncates toward zero for every operand pair but INT64_MIN / -1. */
  lemma Sdiv64Truncates(n: i64, d: i64)
    requires d != 0
    ensures TruncatedDivision(n, d, Sdiv64(n, d), n - Sdiv64(n, d) * d) <==> !QuotientOverflows(n, d)
  {
    Sdiv64Signs(n, d);
    TruncatedBySigns(n, d);
  }

  lemma Sdiv64Signs(n: i64, d: i64)
    requires d != 0
    ensures Sdiv64(n, d) == if QuotientOverflows(n, d) then INT64_MIN
                            else if (n < 0) == (d < 0) then Abs(n) / Abs(d) else -(Abs(n) / Abs(d))
  {
    QuotientMagnitude(n, d);
    SignedQuotient(Abs(n) / Abs(d));
  }

  lemma SignedQuotient(q: int)
    requires 0 <= q <= TWO_63
    ensures q < TWO_63 ==> ToI64(q) == q && Negate64(ToI64(q)) == -q
    ensures q == TWO_63 ==> ToI64(q) == -q && Negate64(ToI64(q)) == -q
  {
  }

  /** The unsigned remainder is the true one modulo 2^32, hence exact when that fits 32 bits. */
  lemma Umod64IsTruncatedRemainder(n: u64, d: u64)
    requires d != 0
    ensures Umod64(n, d) == (n % d) % TWO_32
    ensures Umod64(n, d) == n % d <==> n % d < TWO_32
  {
    DivBounds(n, d);
    DivNonNeg(n, d);
    MulMono(0, n / d, d);
    var m := d * (n / d);
    assert m == n / d * d;
    assert Umod64(n, d) == Wrap32(Wrap64(n - Wrap64(m)));
    WrapId(m);
    WrapId(n - m);
    Low32(n % d);
  }

  lemma Low32(r: u64)
    ensures r % TWO_32 == r <==> r < TWO_32
  {
  }

  /** The divisors for which the unsigned remainder is right for every dividend. */
  lemma Umod64ExactDivisors(d: u64)
    requires d != 0
    ensures (forall n: u64 :: Umod64(n, d) == n % d) <==> d <= TWO_32
  {
    if d <= TWO_32 {
      forall n: u64 ensures Umod64(n, d) == n % d { Umod64IsTruncatedRemainder(n, d); }
    } else {
      var n: u64 := TWO_32;
      Umod64IsTruncatedRemainder(n, d);
      QuotientIs(n, d, 0);
    }
  }

  /** The signed remainder is the truncated-division remainder reduced to 32 bits, whatever the
      operands: even INT64_MIN by -1 leaves the right remainder, zero. */
  lemma Smod64IsTruncatedRemainder(n: i64, d: i64, q: int, r: int)
    requires d != 0 && TruncatedDivision(n, d, q, r)
    ensures Smod64(n, d) == ToI32(Wrap32(r))
    ensures Smod64(n, d) == r <==> -TWO_31 <= r < TWO_31
  {
    if QuotientOverflows(n, d) {
      OverflowRemainder();
      TruncatedDivisionUnique(n, d, q, r, TWO_63, 0);
    } else {
      Sdiv64IsTheQuotient(n, d, q, r);
      RemainderFits(n, d * q);
    }
    LowSigned32(r);
  }

  lemma Sdiv64IsTheQuotient(n: i64, d: i64, q: int, r: int)
    requires d != 0 && TruncatedDivision(n, d, q, r) && !QuotientOverflows(n, d)
    ensures Sdiv64(n, d) == q && d * q == n - r && -TWO_63 <= d * q < TWO_63
  {
    var q', r' := Sdiv64Divides(n, d);
    TruncatedDivisionUnique(n, d, q, r, q', r');
    ProductFits(n, d, q, r);
  }

  lemma Sdiv64Divides(n: i64, d: i64) returns (q: int, r: int)
    requires d != 0 && !QuotientOverflows(n, d)
    ensures q == Sdiv64(n, d) && TruncatedDivision(n, d, q, r)
  {
    Sdiv64Truncates(n, d);
    q := Sdiv64(n, d);
    r := n - q * d;
  }

  lemma ProductFits(n: i64, d: i64, q: int, r: int)
    requires d != 0 && TruncatedDivision(n, d, q, r)
    ensures d * q == n - r && -TWO_63 <= d * q < TWO_63
  {
    assert d * q == q * d;
  }

  lemma OverflowRemainder()
    ensures Smod64(INT64_MIN, -1) == 0
  {
    Sdiv64Signs(INT64_MIN, -1);
    assert RemainderBits(INT64_MIN, TWO_63) == 0;
  }

  /** What the signed remainder computes from the product d * q. */
  function RemainderBits(n: i64, product: int): i32 {
    var wrapped: int := ToI64(Wrap64(product));
    ToI32(Wrap32(ToI64(Wrap64(n - wrapped))))
  }

  lemma RemainderFits(n: i64, product: int)
    requires -TWO_63 <= product < TWO_63 && -TWO_63 <= n - product < TWO_63
    ensures RemainderBits(n, product) == ToI32(Wrap32(n - product))
  {
    LowBits(product);
    LowBits(n - product);
  }

  lemma LowBits(r: i64)
    ensures ToI64(Wrap64(r)) == r
  {
  }

  lemma LowSigned32(r: int)
    ensures ToI32(Wrap32(r)) == r <==> -TWO_31 <= r < TWO_31
  {
  }

  /** The divisors for which the signed remainder is right for every dividend. */
  lemma Smod64ExactDivisors(d: i64)
    requires d != 0
    ensures (forall n: i64, q: int, r: int :: TruncatedDivision(n, d, q, r) ==> Smod64(n, d) == r)
            <==> -TWO_31 <= d <= TWO_31
  {
    if -TWO_31 <= d <= TWO_31 {
      forall n: i64, q: int, r: int | TruncatedDivision(n, d, q, r) ensures Smod64(n, d) == r {
        Smod64IsTruncatedRemainder(n, d, q, r);
      }
    } else {
      var n: i64 := TWO_31;
      assert TruncatedDivision(n, d, 0, n);
      Smod64IsTruncatedRemainder(n, d, 0, n);
    }
  }
}
