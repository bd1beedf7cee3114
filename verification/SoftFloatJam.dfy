/**
 The sticky right shifts of include/fpu/softfloat-macros.h.  Bits that are
 shifted off are "jammed": they leave a trace in the lowest bit of the result,
 or in an extra word, so that later rounding still knows about them.
 */
module SoftFloatJam {
  import opened Words

  /** Division by a power of two, the lowest bit set if anything was lost. */
  ghost function Jam(a: nat, n: nat): nat {
    var q := a / Pow2(n);
    if a % Pow2(n) != 0 && q % 2 == 0 then q + 1 else q
  }

  /** shift64RightJamming */
  function Shift64RightJamming(a: u64, count: nat): nat {
    if count == 0 then a
    else if count < 64 then Or(Shr(a, count), Bit(Shl(a, NegMod(count)) != 0))
    else Bit(a != 0)
  }

  // ----- arithmetic of shifts

  lemma {:induction false} Scaled(x: nat, y: nat, k: nat, q: int, r: int)
    requires y > 0 && k > 0 && x == q * y + r && 0 <= r < y
    ensures y * k > 0 && (x * k) % (y * k) == r * k
  {
    MulMono(k, r + 1, y);
    MulMono(k, 0, r);
    assert x * k == (q * y) * k + r * k == q * (y * k) + r * k;
    DivUnique(x * k, y * k, q, r * k);
  }

  /** What a left shift keeps of a word is what a right shift loses. */
  lemma {:induction false} ShlIs(a: u64, c: nat)
    requires 0 < c < 64
    ensures NegMod(c) == 64 - c && Pow2(c) * Pow2(64 - c) == B64 && Pow2(64 - c) == 2 * Pow2(63 - c)
    ensures Shl(a, 64 - c) == (a % Pow2(c)) * Pow2(64 - c)
  {
    SplitWord(c);
    var p := Pow2(c);
    DivMod(a, p);
    Scaled(a, p, Pow2(64 - c), a / p, a % p);
  }

  lemma {:induction false} SplitWord(c: nat)
    requires 0 < c < 64
    ensures Pow2(c) * Pow2(64 - c) == B64 && Pow2(64 - c) == 2 * Pow2(63 - c)
  {
    Pow2Values();
    Pow2Add(c, 64 - c);
  }

  lemma {:induction false} Zero(x: nat, k: nat)
    requires k > 0
    ensures x * k == 0 <==> x == 0
  {
    if x > 0 { MulMono(k, 1, x); }
  }

  lemma {:induction false} BelowPow2(a: u64, c: nat)
    requires c >= 64
    ensures a < Pow2(c) && a / Pow2(c) == 0 && a % Pow2(c) == a
  {
    Pow2Values();
    Pow2Add(64, c - 64);
    MulMono(B64, 1, Pow2(c - 64));
    DivUnique(a, Pow2(c), 0, a);
  }

  /** shift64RightJamming is division with a sticky bit, for every count. */
  lemma {:induction false} Shift64Jams(a: u64, count: nat)
    ensures Shift64RightJamming(a, count) == Jam(a, count)
  {
    if 0 < count < 64 {
      ShlIs(a, count);
      Zero(a % Pow2(count), Pow2(64 - count));
      OrBit(Shr(a, count), Shl(a, 64 - count) != 0);
    } else if count >= 64 {
      BelowPow2(a, count);
    }
  }

  // ----- two shifts are one

  lemma {:induction false} Nested(a: int, p: nat, k: nat, x: int, s: int, q: int, r: int)
    requires p > 0 && k > 0 && a == x * p + s && 0 <= s < p && x == q * k + r && 0 <= r < k
    ensures p * k > 0 && a / (p * k) == q && a % (p * k) == r * p + s
  {
    assert (q * k + r) * p == q * (p * k) + r * p;
    MulMono(p, r + 1, k);
    MulMono(p, 0, r);
    MulMono(p, 1, k);
    DivUnique(a, p * k, q, r * p + s);
  }

  lemma {:induction false} DivTwice(a: nat, m: nat, n: nat)
    ensures (a / Pow2(m)) / Pow2(n) == a / Pow2(m + n)
    ensures a % Pow2(m + n) == (a / Pow2(m)) % Pow2(n) * Pow2(m) + a % Pow2(m)
  {
    Pow2Add(m, n);
    var p, k := Pow2(m), Pow2(n);
    var x := a / p;
    DivMod(a, p);
    DivMod(x, k);
    Nested(a, p, k, x, a % p, x / k, x % k);
  }

  /** The sticky bit shows whether anything at all was lost. */
  lemma {:induction false} Sticky(q: nat, s: bool, n: nat)
    requires n > 0
    ensures var j := if s && q % 2 == 0 then q + 1 else q;
      j / Pow2(n) == q / Pow2(n) && (j % Pow2(n) != 0 <==> q % Pow2(n) != 0 || s)
  {
    DivMod(q, Pow2(n));
    RestParity(q, Pow2(n), Pow2(n - 1), q / Pow2(n), q % Pow2(n));
  }

  /** The rest is even when the number is, and then the next number has the next rest. */
  lemma {:induction false} RestParity(q: nat, p: nat, half: nat, d: int, r: int)
    requires p == 2 * half > 0 && q == d * p + r && 0 <= r < p
    ensures r % 2 == q % 2
    ensures q % 2 == 0 ==> (q + 1) / p == d && (q + 1) % p == r + 1
  {
    assert d * p == 2 * (d * half);
    SameParity(q, d * half, r);
    if q % 2 == 0 { DivUnique(q + 1, p, d, r + 1); }
  }

  lemma {:induction false} SameParity(q: int, x: int, r: int)
    requires q == 2 * x + r
    ensures r % 2 == q % 2
  {
  }

  /** Shifting by m and then by n loses exactly what shifting by m + n loses. */
  lemma {:induction false} JamCompose(a: nat, m: nat, n: nat)
    ensures Jam(Jam(a, m), n) == Jam(a, m + n)
  {
    if n == 0 {
      assert Jam(Jam(a, m), 0) == Jam(a, m);
    } else {
      var q, s := a / Pow2(m), a % Pow2(m) != 0;
      DivTwice(a, m, n);
      Sticky(q, s, n);
      DivMod(a, Pow2(m));
      DivMod(q, Pow2(n));
      Zero(q % Pow2(n), Pow2(m));
    }
  }

  lemma {:induction false} JamBound(a: u64, n: nat)
    ensures Jam(a, n) < B64
  {
    if n == 0 {
      assert Jam(a, 0) == a;
    } else {
      assert Pow2(n) >= 2;
      HalfAtMost(a, Pow2(n));
    }
  }

  lemma {:induction false} HalfAtMost(a: nat, p: nat)
    requires p >= 2
    ensures 2 * (a / p) <= a
  {
    DivMod(a, p);
    var q := a / p;
    assert q >= 0;
    MulMono(q, 2, p);
  }

  /** The same for the C function: two calls in a row are one call. */
  lemma {:induction false} Shift64Compose(a: u64, m: nat, n: nat)
    ensures Shift64RightJamming(a, m) < B64
    ensures Shift64RightJamming(Shift64RightJamming(a, m), n) == Shift64RightJamming(a, m + n)
  {
    Shift64Jams(a, m);
    JamBound(a, m);
    Shift64Jams(Shift64RightJamming(a, m), n);
    Shift64Jams(a, m + n);
    JamCompose(a, m, n);
  }

  // ----- two words

  /** shift128RightJamming */
  function Shift128RightJamming(a0: u64, a1: u64, count: nat): (nat, nat) {
    var neg := NegMod(count);
    if count == 0 then (a0, a1)
    else if count < 64 then
      (Shr(a0, count), Or(Or(Shl(a0, neg), Shr(a1, count)), Bit(Shl(a1, neg) != 0)))
    else if count == 64 then (0, Or(a0, Bit(a1 != 0)))
    else if count < 128 then (0, Or(Shr(a0, count % 64), Bit(Or(Shl(a0, neg), a1) != 0)))
    else (0, Bit(Or(a0, a1) != 0))
  }

  lemma {:induction false} ShlValue(a: u64, c: nat)
    requires 0 < c < 64
    ensures Shl(a, NegMod(c)) == (a % Pow2(c)) * Pow2(64 - c) && 0 <= a % Pow2(c) < Pow2(c)
  {
    ShlIs(a, c);
  }

  lemma {:induction false} ShrFits(a: u64, c: nat)
    requires 0 < c < 64
    ensures Shr(a, c) == a / Pow2(c) && 0 <= a / Pow2(c) < Pow2(64 - c)
  {
    SplitWord(c);
    Quotient(a, Pow2(c), Pow2(64 - c));
  }

  lemma {:induction false} JoinParts(hi: nat, lo: nat, c: nat)
    requires 0 < c < 64 && hi < Pow2(c) && lo < Pow2(64 - c)
    ensures Or(hi * Pow2(64 - c), lo) == hi * Pow2(64 - c) + lo < B64
  {
    SplitWord(c);
    OrDisjoint(hi, lo, 64 - c);
    Fits(hi, Pow2(c), Pow2(64 - c), lo);
  }

  lemma {:induction false} LowerOr(a0: u64, a1: u64, c: nat)
    requires 0 < c < 64
    ensures Or(Shl(a0, NegMod(c)), Shr(a1, c)) == (a0 % Pow2(c)) * Pow2(64 - c) + a1 / Pow2(c) < B64
  {
    ShlValue(a0, c);
    ShrFits(a1, c);
    JoinParts(a0 % Pow2(c), a1 / Pow2(c), c);
  }

  /** The lower word of a two-word value shifted by less than a word. */
  lemma {:induction false} LowerWord(a0: u64, a1: u64, c: nat)
    requires 0 < c < 64
    ensures var w := Or(Shl(a0, NegMod(c)), Shr(a1, c));
      && w < B64
      && Val2(a0, a1) / Pow2(c) == (a0 / Pow2(c)) * B64 + w
      && Val2(a0, a1) % Pow2(c) == a1 % Pow2(c)
  {
    var p := Pow2(c);
    LowerOr(a0, a1, c);
    SplitWord(c);
    DivMod(a0, p);
    DivMod(a1, p);
    ShiftedParts(a0, a1, p, Pow2(64 - c), a0 / p, a0 % p, a1 / p, a1 % p);
  }

  lemma {:induction false} Quotient(a: nat, p: nat, k: nat)
    requires p > 0 && a < p * k
    ensures a / p < k
  {
    DivMod(a, p);
    if a / p >= k { MulMono(p, k, a / p); }
  }

  lemma {:induction false} Fits(r: nat, p: nat, k: nat, h: nat)
    requires r < p && h < k
    ensures r * k + h < p * k
  {
    MulMono(k, r + 1, p);
  }

  lemma {:induction false} ShiftedParts(a0: int, a1: int, p: nat, k: nat, q: int, r: int, h: int, s: int)
    requires p > 0 && p * k == B64 && a0 == q * p + r && a1 == h * p + s && 0 <= s < p
    ensures (a0 * B64 + a1) / p == q * B64 + (r * k + h) && (a0 * B64 + a1) % p == s
  {
    assert r * B64 == (r * k) * p;
    assert (q * p) * B64 == (q * B64) * p;
    assert a0 * B64 + a1 == (q * B64 + (r * k + h)) * p + s;
    DivUnique(a0 * B64 + a1, p, q * B64 + (r * k + h), s);
  }

  lemma {:induction false} UpperWord(a0: u64, a1: u64, c: nat)
    requires 64 <= c
    ensures Val2(a0, a1) / Pow2(c) == a0 / Pow2(c - 64)
    ensures Val2(a0, a1) % Pow2(c) == (a0 % Pow2(c - 64)) * B64 + a1
  {
    Pow2Values();
    DivTwice(Val2(a0, a1), 64, c - 64);
    DivUnique(Val2(a0, a1), B64, a0, a1);
  }

  /** Jamming the lowest bit of the lower word jams the lowest bit of the value. */
  lemma {:induction false} JamLow(z0: u64, w: u64, s: bool)
    ensures var z1, v := Or(w, Bit(s)), z0 * B64 + w;
      z1 < B64 && z0 * B64 + z1 == if s && v % 2 == 0 then v + 1 else v
  {
    OrBit(w, s);
  }

  ghost predicate IsJam(z: (nat, nat), a: nat, count: nat) {
    z.0 < B64 && z.1 < B64 && z.0 * B64 + z.1 == Jam(a, count)
  }

  /** shift128RightJamming is division with a sticky bit, for every count. */
  lemma {:induction false} Shift128Jams(a0: u64, a1: u64, count: nat)
    ensures IsJam(Shift128RightJamming(a0, a1, count), Val2(a0, a1), count)
  {
    if count == 0 {
      assert Jam(Val2(a0, a1), 0) == Val2(a0, a1);
    } else if count < 64 {
      NearJams(a0, a1, count);
    } else if count == 64 {
      WordJams(a0, a1);
    } else if count < 128 {
      FarJams(a0, a1, count - 64);
    } else {
      AllJams(a0, a1, count);
    }
  }

  lemma {:induction false} WordJams(a0: u64, a1: u64)
    ensures IsJam(Shift128RightJamming(a0, a1, 64), Val2(a0, a1), 64)
  {
    UpperWord(a0, a1, 64);
    assert Pow2(0) == 1;
    JamOf(Val2(a0, a1), 64, a0, a1 != 0);
    JamLow(0, a0, a1 != 0);
  }

  lemma {:induction false} JamOf(a: nat, n: nat, q: int, s: bool)
    requires a / Pow2(n) == q && (a % Pow2(n) != 0) == s
    ensures Jam(a, n) == if s && q % 2 == 0 then q + 1 else q
  {
  }

  lemma {:induction false} AllJams(a0: u64, a1: u64, count: nat)
    requires count >= 128
    ensures IsJam(Shift128RightJamming(a0, a1, count), Val2(a0, a1), count)
  {
    UpperWord(a0, a1, count);
    BelowPow2(a0, count - 64);
    OrZero(a0, a1);
  }

  lemma {:induction false} NearJams(a0: u64, a1: u64, c: nat)
    requires 0 < c < 64
    ensures IsJam(Shift128RightJamming(a0, a1, c), Val2(a0, a1), c)
  {
    var w, s := Or(Shl(a0, NegMod(c)), Shr(a1, c)), Shl(a1, NegMod(c)) != 0;
    LowerWord(a0, a1, c);
    NearSticky(a1, c);
    JamLow(Shr(a0, c), w, s);
  }

  lemma {:induction false} NearSticky(a: u64, c: nat)
    requires 0 < c < 64
    ensures Shl(a, NegMod(c)) != 0 <==> a % Pow2(c) != 0
  {
    ShlIs(a, c);
    Zero(a % Pow2(c), Pow2(64 - c));
  }

  lemma {:induction false} FarJams(a0: u64, a1: u64, c: nat)
    requires 0 < c < 64
    ensures IsJam(Shift128RightJamming(a0, a1, 64 + c), Val2(a0, a1), 64 + c)
  {
    var s := Or(Shl(a0, NegMod(c)), a1) != 0;
    FarSticky(a0, a1, c);
    JamLow(0, Shr(a0, c), s);
    FarShape(a0, a1, c);
  }

  lemma {:induction false} FarShape(a0: u64, a1: u64, c: nat)
    requires 0 < c < 64
    ensures Shift128RightJamming(a0, a1, 64 + c) == (0, Or(Shr(a0, c), Bit(Or(Shl(a0, NegMod(c)), a1) != 0)))
  {
    assert (64 + c) % 64 == c && NegMod(64 + c) == NegMod(c);
  }

  lemma {:induction false} FarSticky(a0: u64, a1: u64, c: nat)
    requires 0 < c < 64
    ensures Or(Shl(a0, NegMod(c)), a1) != 0 <==> Val2(a0, a1) % Pow2(64 + c) != 0
    ensures Val2(a0, a1) / Pow2(64 + c) == Shr(a0, c)
  {
    UpperWord(a0, a1, 64 + c);
    ShlIs(a0, c);
    Zero(a0 % Pow2(c), Pow2(64 - c));
    OrZero(Shl(a0, 64 - c), a1);
  }

  lemma {:induction false} PairUnique(x: (nat, nat), y: (nat, nat))
    requires x.1 < B64 && y.1 < B64 && x.0 * B64 + x.1 == y.0 * B64 + y.1
    ensures x == y
  {
  }

  /** Two calls of shift128RightJamming in a row are one call. */
  lemma {:induction false} Shift128Compose(a0: u64, a1: u64, m: nat, n: nat)
    ensures var z := Shift128RightJamming(a0, a1, m);
      z.0 < B64 && z.1 < B64 && Shift128RightJamming(z.0, z.1, n) == Shift128RightJamming(a0, a1, m + n)
  {
    var z := Shift128RightJamming(a0, a1, m);
    Shift128Jams(a0, a1, m);
    ComposeFrom(Val2(a0, a1), a0, a1, z.0, z.1, m, n);
  }

  lemma {:induction false} ComposeFrom(a: nat, a0: u64, a1: u64, z0: u64, z1: u64, m: nat, n: nat)
    requires a == Val2(a0, a1) && Val2(z0, z1) == Jam(a, m)
    ensures Shift128RightJamming(z0, z1, n) == Shift128RightJamming(a0, a1, m + n)
  {
    Shift128Jams(z0, z1, n);
    Shift128Jams(a0, a1, m + n);
    JamCompose(a, m, n);
    PairUnique(Shift128RightJamming(z0, z1, n), Shift128RightJamming(a0, a1, m + n));
  }

  // ----- shifts with an extra word for the fraction

  /**
   The extra word `x` stands for the fraction `f / d`: it is zero exactly when
   the fraction is, and it lies below, at or above one half exactly when the
   fraction does.
   */
  ghost predicate StandsFor(x: nat, f: int, d: int) {
    && x < B64
    && (x == 0 <==> f == 0)
    && (x < HALF <==> 2 * f < d)
    && (x == HALF <==> 2 * f == d)
  }

  /** The rounding modes of include/fpu/softfloat-types.h. */
  datatype Mode = NearestEven | Down | Up | ToZero | TiesAway | ToOdd

  /** Whether a magnitude of `q` and `f / d` is rounded to q + 1. */
  predicate RoundsUp(mode: Mode, negative: bool, q: int, f: int, d: int) {
    match mode
    case NearestEven => 2 * f > d || (2 * f == d && q % 2 == 1)
    case Down => negative && f != 0
    case Up => !negative && f != 0
    case ToZero => false
    case TiesAway => 2 * f >= d
    case ToOdd => q % 2 == 0 && f != 0
  }

  /** The rounded magnitude. */
  function Rounded(mode: Mode, negative: bool, q: int, f: int, d: int): int {
    if RoundsUp(mode, negative, q, f, d) then q + 1 else q
  }

  function Signed(negative: bool, x: int): int { if negative then -x else x }

  /** The modes by what they mean for the number x / d, where x is q * d + f with its sign. */
  lemma {:induction false} RoundedIs(mode: Mode, negative: bool, q: int, f: int, d: int)
    requires 0 <= q && 0 <= f < d
    ensures var x, r := Signed(negative, q * d + f), Signed(negative, Rounded(mode, negative, q, f, d));
      && (f == 0 ==> r * d == x)
      && (mode == NearestEven || mode == TiesAway ==> -d <= 2 * (r * d - x) <= d)
      && (mode == NearestEven && 2 * f == d ==> r % 2 == 0)
      && (mode == TiesAway && 2 * f == d ==> r == Signed(negative, q + 1))
      && (mode == Down ==> r * d <= x < (r + 1) * d)
      && (mode == Up ==> (r - 1) * d < x <= r * d)
      && (mode == ToZero ==> r == Signed(negative, q))
      && (mode == ToOdd && f != 0 ==> r % 2 == 1 && -d < r * d - x < d)
  {
    assert (q + 1) * d == q * d + d;
    assert (-q) * d == -(q * d);
    assert (-q - 1) * d == -(q * d) - d;
    assert (-q - 2) * d == -(q * d) - 2 * d;
    assert (-q + 1) * d == -(q * d) + d;
    assert (q + 2) * d == q * d + 2 * d;
    assert (q - 1) * d == q * d - d;
  }

  /** shift64ExtraRightJamming */
  function Shift64ExtraRightJamming(a0: u64, a1: u64, count: nat): (nat, nat) {
    var neg := NegMod(count);
    if count == 0 then (a0, a1)
    else if count < 64 then (Shr(a0, count), Or(Shl(a0, neg), Bit(a1 != 0)))
    else if count == 64 then (0, Or(a0, Bit(a1 != 0)))
    else (0, Bit(Or(a0, a1) != 0))
  }

  /** Part of a word is shifted off: its lost bits lead the extra word, `rest` is jammed behind them. */
  lemma {:induction false} PartLost(a: u64, c: nat, rest: nat, m: nat)
    requires 0 < c < 64 && rest < m
    ensures StandsFor(Or(Shl(a, NegMod(c)), Bit(rest != 0)), (a % Pow2(c)) * m + rest, Pow2(c) * m)
  {
    ShlIs(a, c);
    SplitWord(c);
    var r, k, h := a % Pow2(c), Pow2(63 - c), Pow2(c - 1);
    assert Pow2(c) == 2 * h;
    HalfWord(h, k);
    OrEven(r, k, rest != 0);
    LostHalf(r, h, k, rest, m);
    LostBound(r, h, k, rest != 0);
  }

  lemma {:induction false} HalfWord(h: nat, k: nat)
    requires (2 * h) * (2 * k) == B64
    ensures h * (2 * k) == HALF
  {
    assert (2 * h) * (2 * k) == 2 * (h * (2 * k));
  }

  lemma {:induction false} OrEven(r: nat, k: nat, s: bool)
    ensures Or(r * (2 * k), Bit(s)) == r * (2 * k) + Bit(s)
  {
    assert r * (2 * k) == 2 * (r * k);
    OrBit(r * (2 * k), s);
  }

  lemma {:induction false} LostBound(r: nat, h: nat, k: nat, s: bool)
    requires r < 2 * h && k > 0 && h * (2 * k) == HALF
    ensures r * (2 * k) + Bit(s) < B64
  {
    MulMono(2 * k, r + 1, 2 * h);
  }

  lemma {:induction false} LostHalf(r: nat, h: nat, k: nat, rest: nat, m: nat)
    requires r < 2 * h && k > 0 && h * (2 * k) == HALF && rest < m
    ensures var x, f, d := r * (2 * k) + Bit(rest != 0), r * m + rest, (2 * h) * m;
      && (x == 0 <==> f == 0) && (x < HALF <==> 2 * f < d) && (x == HALF <==> 2 * f == d)
  {
    DoubleProduct(h, m);
    Compared(r, h, 2 * k, Bit(rest != 0));
    Compared(r, h, m, rest);
  }

  lemma {:induction false} Compared(r: nat, h: nat, m: nat, rest: nat)
    requires rest < m
    ensures r * m + rest == 0 <==> r == 0 && rest == 0
    ensures r * m + rest < h * m <==> r < h
    ensures r * m + rest == h * m <==> r == h && rest == 0
  {
    Digits(r, h, m, rest);
    Zero(r, m);
  }

  /** A two-digit number compares with a round one by its upper digit first. */
  lemma {:induction false} Digits(r: nat, h: nat, m: nat, rest: nat)
    requires rest < m
    ensures r < h ==> r * m + rest < h * m
    ensures r > h ==> r * m + rest > h * m
  {
    if r < h {
      MulMono(m, r + 1, h);
    } else if r > h {
      MulMono(m, h + 1, r);
    }
  }

  /** A whole word is shifted off: it becomes the extra word, `rest` is jammed into it. */
  lemma {:induction false} WordLost(a: u64, rest: nat, m: nat)
    requires rest < m
    ensures StandsFor(Or(a, Bit(rest != 0)), a * m + rest, B64 * m)
  {
    OrBit(a, rest != 0);
    StickyHalf(a, HALF, m, rest);
    assert B64 * m == 2 * (HALF * m);
  }

  /** More than that is shifted off: only a trace is left, and it is below one half. */
  lemma {:induction false} TraceLeft(f: nat, d: nat)
    requires 2 * f < d
    ensures StandsFor(Bit(f != 0), f, d)
  {
  }

  /** The 64-bit word and its extra word after shift64ExtraRightJamming. */
  lemma {:induction false} Shift64ExtraJams(a0: u64, a1: u64, count: nat)
    ensures var z, a, d := Shift64ExtraRightJamming(a0, a1, count), Val2(a0, a1), Pow2(count) * B64;
      d > 0 && z.0 == a / d && StandsFor(z.1, a % d, d)
  {
    TwoWords(a0, a1, count);
    if 0 < count < 64 {
      PartLost(a0, count, a1, B64);
    } else if count >= 64 {
      BelowPow2(a0, count);
      AllLost(a0, a1, count);
    }
  }

  lemma {:induction false} AllLost(a0: u64, a1: u64, count: nat)
    requires count >= 64
    ensures StandsFor(Shift64ExtraRightJamming(a0, a1, count).1, a0 * B64 + a1, Pow2(count) * B64)
  {
    if count == 64 {
      Pow2Values();
      WordLost(a0, a1, B64);
    } else {
      OrZero(a0, a1);
      TraceBeyond(a0, count, a1, B64);
    }
  }

  /** Two words over a divisor of at least one word: quotient and remainder by their upper word. */
  lemma {:induction false} TwoWords(a0: u64, a1: u64, count: nat)
    ensures var a, d := Val2(a0, a1), Pow2(count) * B64;
      d > 0 && a / d == a0 / Pow2(count) && a % d == (a0 % Pow2(count)) * B64 + a1
  {
    DivMod(a0, Pow2(count));
    Nested(Val2(a0, a1), B64, Pow2(count), a0, a1, a0 / Pow2(count), a0 % Pow2(count));
  }

  lemma {:induction false} FarBelow(a: u64, count: nat)
    requires count > 64
    ensures 2 * (a + 1) <= Pow2(count)
  {
    BelowPow2(a, count - 1);
  }

  /** shift128ExtraRightJamming */
  function Shift128ExtraRightJamming(a0: u64, a1: u64, a2: u64, count: nat): (nat, nat, nat) {
    var neg := NegMod(count);
    if count == 0 then (a0, a1, a2)
    else if count < 64 then
      (Shr(a0, count), Or(Shl(a0, neg), Shr(a1, count)), Or(Shl(a1, neg), Bit(a2 != 0)))
    else if count == 64 then (0, a0, Or(a1, Bit(a2 != 0)))
    else
      var jam := Bit(Or(a2, a1) != 0);
      if count < 128 then (0, Shr(a0, count % 64), Or(Shl(a0, neg), jam))
      else (0, 0, Or(if count == 128 then a0 else Bit(a0 != 0), jam))
  }

  ghost predicate IsExtra(z: (nat, nat, nat), a: nat, count: nat) {
    var d := Pow2(count) * B64;
    d > 0 && z.0 < B64 && z.1 < B64 && z.0 * B64 + z.1 == a / d && StandsFor(z.2, a % d, d)
  }

  /** Three words over a divisor of at least one word: quotient and remainder by their upper two words. */
  lemma {:induction false} ThreeWords(a0: u64, a1: u64, a2: u64, count: nat)
    ensures var h, d := Val2(a0, a1), Pow2(count) * B64;
      d > 0 && Val3(a0, a1, a2) / d == h / Pow2(count) && Val3(a0, a1, a2) % d == (h % Pow2(count)) * B64 + a2
  {
    var h := Val2(a0, a1);
    DivMod(h, Pow2(count));
    Nested(Val3(a0, a1, a2), B64, Pow2(count), h, a2, h / Pow2(count), h % Pow2(count));
  }

  /** The two-word result and its extra word after shift128ExtraRightJamming, for every count. */
  lemma {:induction false} Shift128ExtraJams(a0: u64, a1: u64, a2: u64, count: nat)
    ensures IsExtra(Shift128ExtraRightJamming(a0, a1, a2, count), Val3(a0, a1, a2), count)
  {
    if count == 0 {
      ThreeWords(a0, a1, a2, 0);
    } else if count < 64 {
      ThreeWords(a0, a1, a2, count);
      LowerWord(a0, a1, count);
      PartLost(a1, count, a2, B64);
    } else if count == 64 {
      ExtraAtWord(a0, a1, a2);
    } else if count < 128 {
      ExtraBeyondWord(a0, a1, a2, count - 64);
    } else {
      ExtraBeyondTwo(a0, a1, a2, count);
    }
  }

  lemma {:induction false} ExtraAtWord(a0: u64, a1: u64, a2: u64)
    ensures IsExtra(Shift128ExtraRightJamming(a0, a1, a2, 64), Val3(a0, a1, a2), 64)
  {
    Pow2Values();
    ThreeWords(a0, a1, a2, 64);
    DivUnique(Val2(a0, a1), B64, a0, a1);
    WordLost(a1, a2, B64);
  }

  /** Two lower words as one rest. */
  lemma {:induction false} LowerRest(a0: u64, a1: u64, a2: u64, c: nat)
    ensures var h, p := Val2(a0, a1), Pow2(c);
      && h / Pow2(64 + c) == a0 / p
      && (h % Pow2(64 + c)) * B64 + a2 == (a0 % p) * B128 + Val2(a1, a2)
      && Pow2(64 + c) * B64 == p * B128
  {
    UpperWord(a0, a1, 64 + c);
    Pow2Values();
    Pow2Add(64, c);
  }

  lemma {:induction false} JamOfRest(a1: u64, a2: u64)
    ensures Or(a2, a1) != 0 <==> Val2(a1, a2) != 0
  {
    OrZero(a2, a1);
  }

  lemma {:induction false} ExtraShape(a0: u64, a1: u64, a2: u64, c: nat)
    requires 0 < c < 64
    ensures Shift128ExtraRightJamming(a0, a1, a2, 64 + c)
         == (0, Shr(a0, c), Or(Shl(a0, NegMod(c)), Bit(Or(a2, a1) != 0)))
  {
    assert (64 + c) % 64 == c && NegMod(64 + c) == NegMod(c);
  }

  lemma {:induction false} ExtraBeyondWord(a0: u64, a1: u64, a2: u64, c: nat)
    requires 0 < c < 64
    ensures IsExtra(Shift128ExtraRightJamming(a0, a1, a2, 64 + c), Val3(a0, a1, a2), 64 + c)
  {
    ExtraShape(a0, a1, a2, c);
    ThreeWords(a0, a1, a2, 64 + c);
    LowerRest(a0, a1, a2, c);
    JamOfRest(a1, a2);
    PartLost(a0, c, Val2(a1, a2), B128);
  }

  /** Everything is shifted off, and more than a word lies above it. */
  lemma {:induction false} TraceBeyond(a: u64, c: nat, rest: nat, m: nat)
    requires c > 64 && rest < m
    ensures StandsFor(Bit(a * m + rest != 0), a * m + rest, Pow2(c) * m)
  {
    FarBelow(a, c);
    MulMono(m, 2 * (a + 1), Pow2(c));
    assert m * (2 * (a + 1)) == 2 * (a * m) + 2 * m;
    TraceLeft(a * m + rest, Pow2(c) * m);
  }

  lemma {:induction false} ExtraBeyondTwo(a0: u64, a1: u64, a2: u64, count: nat)
    requires count >= 128
    ensures IsExtra(Shift128ExtraRightJamming(a0, a1, a2, count), Val3(a0, a1, a2), count)
  {
    var c := count - 64;
    ThreeWords(a0, a1, a2, count);
    LowerRest(a0, a1, a2, c);
    JamOfRest(a1, a2);
    BelowPow2(a0, c);
    if c == 64 {
      Pow2Values();
      WordLost(a0, Val2(a1, a2), B128);
    } else {
      TraceBeyond(a0, c, Val2(a1, a2), B128);
    }
  }

  // ----- rounding

  /** Rounding the result of shift64ExtraRightJamming by its extra word is rounding the exact quotient. */
  lemma {:induction false} Shift64Rounds(a0: u64, a1: u64, count: nat, mode: Mode, negative: bool)
    ensures var z, a, d := Shift64ExtraRightJamming(a0, a1, count), Val2(a0, a1), Pow2(count) * B64;
      d > 0 && Rounded(mode, negative, z.0, z.1, B64) == Rounded(mode, negative, a / d, a % d, d)
  {
    Shift64ExtraJams(a0, a1, count);
  }

  /** The same for shift128ExtraRightJamming. */
  lemma {:induction false} Shift128Rounds(a0: u64, a1: u64, a2: u64, count: nat, mode: Mode, negative: bool)
    ensures var z, a, d := Shift128ExtraRightJamming(a0, a1, a2, count), Val3(a0, a1, a2), Pow2(count) * B64;
      d > 0 && Rounded(mode, negative, z.0 * B64 + z.1, z.2, B64) == Rounded(mode, negative, a / d, a % d, d)
  {
    Shift128ExtraJams(a0, a1, a2, count);
  }

  /** A rest with a sticky bit lies below, at or above an even half exactly when the exact rest does. */
  lemma {:induction false} StickyHalf(r: nat, h: nat, m: nat, t: nat)
    requires h % 2 == 0 && t < m
    ensures var j, f, d := if t != 0 && r % 2 == 0 then r + 1 else r, r * m + t, h * m;
      && (j == 0 <==> f == 0) && (j < h <==> f < d) && (j == h <==> f == d)
  {
    Digits(r, h, m, t);
    Zero(r, m);
  }

  /** A quotient with a sticky bit, divided further: `t` of `m` parts was lost before, and p is a multiple of four. */
  lemma {:induction false} StickyRest(q: nat, t: nat, m: nat, p: nat, h: nat)
    requires t < m && p == 2 * h > 0 && h % 2 == 0
    ensures var j, f := if t != 0 && q % 2 == 0 then q + 1 else q, (q % p) * m + t;
      && j / p == q / p && (j % p == 0 <==> f == 0)
      && (2 * (j % p) < p <==> 2 * f < 2 * (h * m)) && (2 * (j % p) == p <==> 2 * f == 2 * (h * m))
  {
    DivMod(q, p);
    RestParity(q, p, h, q / p, q % p);
    StickyHalf(q % p, h, m, t);
  }

  lemma {:induction false} ModBelow(a: int, p: int)
    requires p > 0
    ensures 0 <= a % p < p
  {
  }

  /** The rest of a jammed number, when two bits or more are left to round away. */
  lemma {:induction false} JamRest(a: nat, m: nat, n: nat)
    requires n >= 2
    ensures var j, p, d := Jam(a, m), Pow2(n), Pow2(m + n);
      && j / p == a / d && (j % p == 0 <==> a % d == 0)
      && (2 * (j % p) < p <==> 2 * (a % d) < d) && (2 * (j % p) == p <==> 2 * (a % d) == d)
  {
    ShrBound(a, m);
    ModBelow(a, Pow2(m));
    DivTwice(a, m, n);
    FourfoldPow2(m, n);
    StickyRest(a / Pow2(m), a % Pow2(m), Pow2(m), Pow2(n), Pow2(n - 1));
  }

  lemma {:induction false} FourfoldPow2(m: nat, n: nat)
    requires n >= 2
    ensures Pow2(n) == 2 * Pow2(n - 1) && Pow2(n - 1) % 2 == 0
    ensures Pow2(m + n) == 2 * (Pow2(n - 1) * Pow2(m))
  {
    Pow2Add(m, n);
    assert Pow2(n - 1) == 2 * Pow2(n - 2);
    DoubleProduct(Pow2(m), Pow2(n - 1));
  }

  /** Dropping n more bits rounds the jammed number to what dropping m + n bits rounds the number to. */
  ghost predicate RoundsAlike(a: nat, m: nat, n: nat, mode: Mode, negative: bool) {
    var j, p, d := Jam(a, m), Pow2(n), Pow2(m + n);
    Rounded(mode, negative, j / p, j % p, p) == Rounded(mode, negative, a / d, a % d, d)
  }

  lemma {:induction false} JamRounds(a: nat, m: nat, n: nat, mode: Mode, negative: bool)
    requires m == 0 || n >= 2
    ensures RoundsAlike(a, m, n, mode, negative)
  {
    if m == 0 {
      assert Jam(a, 0) == a;
    } else {
      JamRest(a, m, n);
    }
  }

  /** With fewer than two bits left, a tie cannot be told from a small rest. */
  lemma {:induction false} JamTooShort(m: nat, n: nat)
    requires m > 0 && n < 2
    ensures !RoundsAlike(1, m, n, if n == 0 then ToZero else TiesAway, false)
  {
    assert Pow2(m) == 2 * Pow2(m - 1) && Pow2(0) == 1 && Pow2(1) == 2;
    Pow2Add(m, n);
    DivUnique(1, Pow2(m), 0, 1);
    DivUnique(1, Pow2(m + n), 0, 1);
    assert Jam(1, m) == 1;
  }

  /** Shifting with jamming first is harmless for rounding in all modes exactly when two bits or more are left. */
  lemma {:induction false} JamRoundsIff(m: nat, n: nat)
    ensures (forall a: nat, mode, negative :: RoundsAlike(a, m, n, mode, negative)) <==> m == 0 || n >= 2
  {
    if m == 0 || n >= 2 {
      forall a: nat, mode, negative ensures RoundsAlike(a, m, n, mode, negative) {
        JamRounds(a, m, n, mode, negative);
      }
    } else {
      JamTooShort(m, n);
    }
  }
}
