/**
 The two divisions of include/fpu/softfloat-macros.h: the exact schoolbook
 division in the portable branch of udiv_qrnnd, and the estimate of
 estimateDiv128To64.
 */
module SoftFloatDiv {
  import opened Words
  import opened SoftFloatMul

  // ----- division facts

  /** A product that stays below another bounds the factor. */
  lemma {:induction false} FactorBelow(q: int, n: int, d: nat)
    requires d > 0 && q * d < n * d
    ensures q < n
  {
    if q >= n { MulMono(d, n, q); }
  }

  lemma {:induction false} DivAtLeast(x: nat, y: nat, q: int)
    requires y > 0 && q * y <= x
    ensures q <= x / y
  {
    DivMod(x, y);
    assert (x / y) * y + y == (x / y + 1) * y;
    FactorBelow(q, x / y + 1, y);
  }

  // ----- one digit of udiv_qrnnd

  /** The trial quotient of a digit is at most two too large, and nothing overflows. */
  lemma {:induction false} TrialDigit(n: u64, low: nat, d: u64)
    requires HALF <= d && n < d && low < B32
    ensures var d0, d1 := d % B32, d / B32;
      var q, r := n / d1, n % d1;
      && 0 < d1 < B32 && q <= B32 + 1 && 0 <= q * d0 < B64
      && r * B32 + low < d && r < B32
      && n * B32 + low == q * d + (r * B32 + low) - q * d0
  {
    var d0, d1 := d % B32, d / B32;
    var q, r := n / d1, n % d1;
    DivMod(n, d1);
    assert (B32 + 2) * d1 > n;
    FactorBelow(q, B32 + 2, d1);
    MulMono(q, d0, B32 - 1);
    MulMono(B32 - 1, q, B32 + 1);
    assert r * B32 + low < d1 * B32 by { MulMono(B32, r + 1, d1); }
    assert q * d == q * d1 * B32 + q * d0;
  }

  lemma {:induction false} DigitBelow(n: u64, low: nat, d: u64, q: int, r: int)
    requires n < d && low < B32 && n * B32 + low == q * d + r && r >= 0
    ensures q < B32
  {
    MulMono(B32, n + 1, d);
    FactorBelow(q, B32, d);
  }

  lemma {:induction false} ShiftIn(r: u64, low: u64)
    requires r < B32 && low < B32
    ensures Shl(r, 32) == r * B32 && Or(Shl(r, 32), low) == r * B32 + low
  {
    Pow2Values();
    DivUnique(r * B32, B64, 0, r * B32);
    OrDisjoint(r, low, 32);
  }

  lemma {:induction false} MulSmall(a: u64, b: u64)
    requires a * b < B64
    ensures Mul(a, b) == a * b
  {
    MulMono(a, 0, b);
    DivUnique(a * b, B64, 0, a * b);
  }

  /** One of the two identical halves of udiv_qrnnd: an exact 96-by-64-bit step. */
  method DivideDigit(n: u64, low: u64, d: u64) returns (q: u64, r: u64)
    requires HALF <= d && n < d && low < B32
    ensures n * B32 + low == q * d + r && r < d && q < B32
  {
    HalfWords(d);
    TrialDigit(n, low, d);
    var d0, d1 := d % B32, Shr(d, 32);
    r, q := Split(n, d1);
    MulSmall(q, d0);
    var m := Mul(q, d0);
    ShiftIn(r, low);
    r := Or(Shl(r, 32), low);
    CorrectionFits(q, r, m, d, n * B32 + low);
    ghost var k, q1, r1;
    q1, r1 := q, r;
    q, r, k := Correct(q, r, m, d);
    Corrected(n, low, d, q1, r1, m, q, r, k);
  }

  /** `n % d1` and `n / d1` */
  method Split(n: u64, d1: u64) returns (r: u64, q: u64)
    requires d1 > 0
    ensures r == n % d1 && q == n / d1
  {
    DivMod(n, d1);
    MulMono(n / d1, 1, d1);
    r, q := n % d1, n / d1;
  }

  lemma {:induction false} Corrected(n: u64, low: nat, d: u64, q1: int, r1: int, m: int, q: int, r: int, k: int)
    requires n < d && low < B32 && n * B32 + low == q1 * d + r1 - m
    requires q == q1 - k && r == r1 - m + k * d && r >= 0
    ensures n * B32 + low == q * d + r && q < B32
  {
    assert q * d == q1 * d - k * d;
    DigitBelow(n, low, d, q, r);
  }

  /** The correction steps: at most two, with additions that may wrap around. */
  method Correct(q0: u64, r0: u64, m: u64, d: u64) returns (q: u64, r: u64, ghost k: nat)
    requires HALF <= d && r0 < d && (r0 < m ==> q0 >= 1) && (r0 + d < m ==> q0 >= 2)
    ensures k <= 2 && q == q0 - k && r == r0 - m + k * d && r < d
  {
    q, r, k := q0, r0, 0;
    if r < m {
      Exact(q, 1);
      Wraps(r, d);
      q := Sub(q, 1);
      r := Add(r, d);
      k := 1;
      if r >= d {
        if r < m {
          Exact(q, 1);
          Wraps(r, d);
          q := Sub(q, 1);
          r := Add(r, d);
          k := 2;
        }
      }
    }
    Lowered(r0 + k * d, r, m);
    r := Sub(r, m);
  }

  lemma {:induction false} Exact(a: u64, b: u64)
    requires b <= a
    ensures Sub(a, b) == a - b
  {
  }

  lemma {:induction false} Wraps(a: u64, b: u64)
    ensures Add(a, b) == if a + b < B64 then a + b else a + b - B64
  {
  }

  /** A subtraction takes back a wrap-around. */
  lemma {:induction false} Lowered(x: int, r: u64, m: u64)
    requires 0 <= x - m < B64 && (r == x || r == x - B64)
    ensures Sub(r, m) == x - m
  {
  }

  /** A trial quotient that has to be lowered is large enough to be. */
  lemma {:induction false} CorrectionFits(q: u64, r: u64, m: u64, d: u64, num: nat)
    requires HALF <= d && r < d && num == q * d + r - m
    ensures r < m ==> q >= 1
    ensures r + d < m ==> q >= 2
  {
    if q == 0 { assert num == r - m; }
    if q == 1 { assert num == d + r - m; }
  }

  /** udiv_qrnnd, portable branch: the exact quotient and remainder. */
  method UdivQrnnd(n1: u64, n0: u64, d: u64) returns (q: u64, r: u64)
    requires HALF <= d && n1 < d
    ensures q == Val2(n1, n0) / d && r == Val2(n1, n0) % d
  {
    HalfWords(n0);
    var q1, r1 := DivideDigit(n1, Shr(n0, 32), d);
    var q0;
    q0, r := DivideDigit(r1, n0 % B32, d);
    ShiftIn(q1, q0);
    q := Or(Shl(q1, 32), q0);
    TwoDigits(n1, n0 / B32, n0 % B32, d, q1, r1, q0, r);
    DivUnique(Val2(n1, n0), d, q, r);
  }

  lemma {:induction false} TwoDigits(n1: int, nh: int, nl: int, d: int, q1: int, r1: int, q0: int, r: int)
    requires n1 * B32 + nh == q1 * d + r1 && r1 * B32 + nl == q0 * d + r
    ensures n1 * B64 + nh * B32 + nl == (q1 * B32 + q0) * d + r
  {
    assert (q1 * B32 + q0) * d == q1 * d * B32 + q0 * d;
  }

  // ----- estimateDiv128To64

  /** The estimate of one quotient digit from the leading half-words. */
  ghost function Estimate(u: nat, b: nat): nat
    requires b >= B32
  {
    var b0, uh := b / B32, u / B32;
    if b0 * B32 <= uh then B32 - 1 else uh / b0
  }

  /** The estimate is never too small and at most two too large. */
  lemma {:induction false} EstimateBounds(u: nat, b: u64)
    requires HALF <= b && u < b * B32
    ensures u / b <= Estimate(u, b) <= u / b + 2
    ensures Estimate(u, b) < B32
  {
    var b0, b1, uh, q, e := b / B32, b % B32, u / B32, u / b, Estimate(u, b);
    DivMod(u, b);
    FactorBelow(q, B32, b);
    EstimateLow(u, b, q);
    EstimateHigh(u, b, q);
    if !(b0 * B32 <= uh) {
      DivMod(uh, b0);
      FactorBelow(e, B32, b0);
    }
  }

  lemma {:induction false} EstimateLow(u: nat, b: u64, q: nat)
    requires HALF <= b && q < B32 && q * b <= u
    ensures q <= Estimate(u, b)
  {
    var b0, b1, uh := b / B32, b % B32, u / B32;
    assert q * b == q * b0 * B32 + q * b1;
    MulMono(q, 0, b1);
    assert q * b0 <= uh;
    DivAtLeast(uh, b0, q);
  }

  lemma {:induction false} HighGap(u: nat, uh: int, low: int, b0: int, b1: int, q: nat, e: nat)
    requires u == uh * B32 + low && 0 <= low && 0 <= b1 < B32 && b0 * B32 + b1 >= HALF && q < B32
    requires u < (q + 1) * (b0 * B32 + b1) && e * b0 <= uh
    ensures e <= q + 2
  {
    var p := b0 * B32;
    assert (q + 1) * (p + b1) == (q + 1) * p + (q + 1) * b1;
    MulMono(q + 1, b1, B32 - 1);
    MulMono(B32 - 1, q + 1, B32);
    assert e * p == e * b0 * B32;
    assert (e - q - 1) * p == e * p - (q + 1) * p;
    FactorBelow(e - q - 1, 2, p);
  }

  lemma {:induction false} EstimateHigh(u: nat, b: u64, q: nat)
    requires HALF <= b && q < B32 && u < q * b + b
    ensures Estimate(u, b) <= q + 2
  {
    var b0, b1, uh, e := b / B32, b % B32, u / B32, Estimate(u, b);
    EstimateFits(u, b);
    HighGap(u, uh, u % B32, b0, b1, q, e);
  }

  lemma {:induction false} EstimateFits(u: nat, b: u64)
    requires HALF <= b
    ensures Estimate(u, b) * (b / B32) <= u / B32 && Estimate(u, b) < B32
  {
    var b0, uh := b / B32, u / B32;
    if b0 * B32 <= uh {
      MulMono(b0, B32 - 1, B32);
    } else {
      DivMod(uh, b0);
      FactorBelow(uh / b0, B32, b0);
    }
  }

  /** The remainder of the first digit, as a number that may be negative. */
  ghost function Rest(a: nat, b: u64, zh: int): int { a - b * zh * B32 }

  lemma {:induction false} RestStep(a: nat, b: u64, zh: int, k: int, r: int, step: int)
    requires r == Rest(a, b, zh) && step == b * B32
    ensures Rest(a, b, zh - k) == r + k * step
    ensures r + zh * step == a
  {
    assert b * (zh - k) == b * zh - b * k;
    assert b * k * B32 == k * step && b * zh * B32 == zh * step;
  }

  /** The first estimate leaves a remainder between two divisors below zero and one above. */
  lemma {:induction false} FirstDigit(a0: u64, a1: u64, b: u64)
    requires HALF <= b && a0 < b
    ensures var u, a := Val2(a0, a1) / B32, Val2(a0, a1);
      && u / B32 == a0 && u < b * B32 && Estimate(u, b) < B32
      && -2 * b * B32 <= Rest(a, b, Estimate(u, b)) < b * B32
  {
    var u, a := Val2(a0, a1) / B32, Val2(a0, a1);
    UpperHalf(a0, a1);
    MulMono(B32, a0 + 1, b);
    EstimateBounds(u, b);
    DivMod(u, b);
    RestBounds(a, b, u, a1 % B32, u / b, u % b, Estimate(u, b));
  }

  lemma {:induction false} UpperHalf(a0: u64, a1: u64)
    ensures Val2(a0, a1) / B32 == a0 * B32 + a1 / B32 && Val2(a0, a1) % B32 == a1 % B32
    ensures Val2(a0, a1) / B32 / B32 == a0
  {
    DivMod(a1, B32);
    DivUnique(Val2(a0, a1), B32, a0 * B32 + a1 / B32, a1 % B32);
    DivUnique(a0 * B32 + a1 / B32, B32, a0, a1 / B32);
  }

  lemma {:induction false} RestBounds(a: nat, b: u64, u: int, low: int, q: int, r: int, e: int)
    requires a == u * B32 + low && 0 <= low < B32 && u == q * b + r && 0 <= r < b && q <= e <= q + 2
    ensures -2 * b * B32 <= Rest(a, b, e) < b * B32
  {
    MulMono(b, q, e);
    MulMono(b, e, q + 2);
    assert b * (q + 2) == b * q + 2 * b;
  }

  /** The sign bit of the upper word tells whether the true remainder is negative. */
  lemma {:induction false} SignBit(r: int, b: u64, rem0: u64, rem1: u64)
    requires -2 * b * B32 <= r < b * B32 && Val2(rem0, rem1) == r % B128
    ensures rem0 >= HALF <==> r < 0
    ensures r >= 0 ==> Val2(rem0, rem1) == r
  {
  }

  lemma {:induction false} ModShift(r: int, x: int, v: int)
    requires v == r % B128
    ensures (v + x) % B128 == (r + x) % B128
  {
    var k := r / B128;
    assert r == k * B128 + v;
    var j := (v + x) / B128;
    assert v + x == j * B128 + (v + x) % B128;
    assert r + x == (k + j) * B128 + (v + x) % B128;
  }

  /** One turn of the correcting loop adds the divisor back. */
  method AddBack(rem0: u64, rem1: u64, b: u64, b0: u64, ghost r: int) returns (t0: u64, t1: u64)
    requires b0 == b / B32 && -2 * b * B32 <= r < 0 && Val2(rem0, rem1) == r % B128
    ensures Val2(t0, t1) == (r + b * B32) % B128
    ensures t0 >= HALF <==> r + b * B32 < 0
    ensures r + b * B32 >= 0 ==> Val2(t0, t1) == r + b * B32
  {
    HalfWords(b);
    var b1 := Shl(b, 32);
    ModShift(r, b * B32, Val2(rem0, rem1));
    t0, t1 := Add128(rem0, rem1, b0, b1);
    SignBit(r + b * B32, b, t0, t1);
  }

  /** The correcting loop of estimateDiv128To64: it turns at most twice, and as often as the remainder needs. */
  method CorrectHigh(z0: u64, b: u64, rem0_: u64, rem1_: u64, ghost zh: nat, ghost r: int, ghost step: int)
    returns (z: u64, rem0: u64, rem1: u64, ghost turns: nat)
    requires HALF <= b && zh < B32 && z0 == zh * B32 && step == b * B32
    requires -2 * step <= r < step && r + zh * step >= 0 && Val2(rem0_, rem1_) == r % B128
    ensures turns <= 2 && turns <= zh && z == (zh - turns) * B32
    ensures 0 <= r + turns * step < step && Val2(rem0, rem1) == r + turns * step
  {
    HalfWords(b);
    var b0 := Shr(b, 32);
    z, rem0, rem1, turns := z0, rem0_, rem1_, 0;
    ghost var now := r;
    SignBit(r, b, rem0, rem1);
    while rem0 >= HALF
      invariant turns <= 2 && turns <= zh && z == (zh - turns) * B32
      invariant now == r + turns * step && -2 * step <= now < step && Val2(rem0, rem1) == now % B128
      invariant rem0 >= HALF <==> now < 0
      invariant now >= 0 ==> Val2(rem0, rem1) == now
      decreases zh - turns
    {
      TurnsLeft(r, step, zh, turns);
      Exact(z, B32);
      z := Sub(z, B32);
      rem0, rem1 := AddBack(rem0, rem1, b, b0, now);
      now, turns := now + step, turns + 1;
    }
  }

  lemma {:induction false} TurnsLeft(r: int, step: int, zh: nat, turns: nat)
    requires step > 0 && turns <= 2 && turns <= zh
    requires -2 * step <= r && r + zh * step >= 0 && r + turns * step < 0
    ensures turns <= 1 && turns < zh
    ensures (turns + 1) * step == turns * step + step
  {
    assert turns != zh;
  }

  /** `z |= …` on a word whose lower half is empty */
  lemma {:induction false} FillLow(zh: nat, e: nat)
    requires zh < B32 && e < B32
    ensures Or(zh * B32, e) == zh * B32 + e < B64
  {
    Pow2Values();
    OrDisjoint(zh, e, 32);
  }

  /** `(rem0 << 32) | (rem1 >> 32)` is the remainder without its lowest half-word. */
  lemma {:induction false} MiddleWord(rem0: u64, rem1: u64, b: u64)
    requires Val2(rem0, rem1) < b * B32
    ensures rem0 < B32 && Or(Shl(rem0, 32), Shr(rem1, 32)) == Val2(rem0, rem1) / B32 < B64
  {
    HalfWords(rem1);
    assert rem0 < B32;
    ShiftIn(rem0, rem1 / B32);
    assert Val2(rem0, rem1) == (rem0 * B32 + rem1 / B32) * B32 + rem1 % B32;
  }

  /** Quotient digits add up: the high digit exact, the low one estimated. */
  lemma {:induction false} DigitsAddUp(a: nat, b: u64, zh: nat, low: nat)
    requires HALF <= b && 0 <= Rest(a, b, zh) < b * B32
    requires var r: nat := Rest(a, b, zh); r / b <= low <= r / b + 2
    ensures a / b <= zh * B32 + low <= a / b + 2
  {
    var r: nat := Rest(a, b, zh);
    DivMod(r, b);
    assert b * zh * B32 == (zh * B32) * b;
    DivUnique(a, b, zh * B32 + r / b, r % b);
  }

  /** `(b0 << 32 <= x) ? most : x / b0`, one half-word digit */
  method HalfDigit(b0: u64, x: u64, ghost u: nat, ghost b: u64) returns (e: u64)
    requires HALF <= b && b0 == b / B32 && x == u / B32 && u < b * B32
    ensures e == Estimate(u, b) && e < B32
  {
    EstimateFits(u, b);
    ShiftIn(b0, 0);
    if Shl(b0, 32) <= x {
      e := B32 - 1;
    } else {
      e := x / b0;
    }
  }

  /**
   estimateDiv128To64.  The result is the quotient or one or two more, and the
   correcting loop turns at most twice.
   */
  method EstimateDiv128To64(a0: u64, a1: u64, b: u64) returns (z: u64, ghost turns: nat)
    requires HALF <= b
    ensures b <= a0 ==> z == B64 - 1 && Val2(a0, a1) / b >= B64
    ensures a0 < b ==> Val2(a0, a1) / b <= z <= Val2(a0, a1) / b + 2
    ensures turns <= 2
  {
    if b <= a0 {
      TooLarge(a0, a1, b);
      z, turns := B64 - 1, 0;
    } else {
      var rem0, rem1;
      z, rem0, rem1, turns := HighDigit(a0, a1, b);
      ghost var a := Val2(a0, a1);
      RestIs(a, b, z / B32, z);
      DivMod(a, b * B32);
      z := LowDigit(z, b, rem0, rem1, a, z / B32);
    }
  }

  lemma {:induction false} TooLarge(a0: u64, a1: u64, b: u64)
    requires 0 < b <= a0
    ensures Val2(a0, a1) / b >= B64
  {
    MulMono(B64, b, a0);
    DivAtLeast(Val2(a0, a1), b, B64);
  }

  /** The part of estimateDiv128To64 that finds the upper half of the quotient; it and what is left over are exact. */
  method HighDigit(a0: u64, a1: u64, b: u64) returns (z: u64, rem0: u64, rem1: u64, ghost turns: nat)
    requires HALF <= b && a0 < b
    ensures z == (Val2(a0, a1) / (b * B32)) * B32 && turns <= 2
    ensures Val2(rem0, rem1) == Val2(a0, a1) - b * z == Val2(a0, a1) % (b * B32)
  {
    ghost var a := Val2(a0, a1);
    ghost var zh;
    z, rem0, rem1, zh := TrialHigh(a0, a1, b);
    ghost var r := Rest(a, b, zh);
    RestStep(a, b, zh, 0, r, b * B32);
    z, rem0, rem1, turns := CorrectHigh(z, b, rem0, rem1, zh, r, b * B32);
    RestStep(a, b, zh, turns, r, b * B32);
    RestIs(a, b, zh - turns, z);
    ExactDigit(a, b, zh - turns);
  }

  /** The first estimate of the upper half, and what the wrapping subtraction leaves. */
  method TrialHigh(a0: u64, a1: u64, b: u64) returns (z: u64, rem0: u64, rem1: u64, ghost zh: nat)
    requires HALF <= b && a0 < b
    ensures zh < B32 && z == zh * B32
    ensures var r := Rest(Val2(a0, a1), b, zh); -2 * (b * B32) <= r < b * B32 && Val2(rem0, rem1) == r % B128
  {
    FirstDigit(a0, a1, b);
    HalfWords(b);
    var b0 := Shr(b, 32);
    var digit := HalfDigit(b0, a0, Val2(a0, a1) / B32, b);
    ShiftIn(digit, 0);
    z := Shl(digit, 32);
    var term0, term1 := Mul64To128(b, z);
    rem0, rem1 := Sub128(a0, a1, term0, term1);
    RestIs(Val2(a0, a1), b, digit, z);
    zh := digit;
  }

  /** A digit that leaves a remainder in range is the true digit. */
  lemma {:induction false} ExactDigit(a: nat, b: u64, zh: int)
    requires b > 0 && 0 <= Rest(a, b, zh) < b * B32
    ensures a / (b * B32) == zh && a % (b * B32) == Rest(a, b, zh)
  {
    assert zh * (b * B32) == b * zh * B32;
    DivUnique(a, b * B32, zh, Rest(a, b, zh));
  }

  lemma {:induction false} RestIs(a: nat, b: u64, zh: nat, z: nat)
    requires z == zh * B32
    ensures a - b * z == Rest(a, b, zh)
  {
  }

  /** The last two statements of estimateDiv128To64. */
  method LowDigit(z0: u64, b: u64, rem0: u64, rem1: u64, ghost a: nat, ghost zh: nat) returns (z: u64)
    requires HALF <= b && zh < B32 && z0 == zh * B32
    requires 0 <= Rest(a, b, zh) < b * B32 && Val2(rem0, rem1) == Rest(a, b, zh)
    ensures a / b <= z <= a / b + 2
  {
    HalfWords(b);
    MiddleWord(rem0, rem1, b);
    var x := Or(Shl(rem0, 32), Shr(rem1, 32));
    ghost var u := Val2(rem0, rem1);
    var e := HalfDigit(Shr(b, 32), x, u, b);
    EstimateBounds(u, b);
    FillLow(zh, e);
    z := Or(z0, e);
    DigitsAddUp(a, b, zh, e);
  }
}
