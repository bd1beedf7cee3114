/**
 estimateSqrt32 of include/fpu/softfloat-macros.h: a table lookup and two Newton
 steps give a square root to within two units.
 */
module SoftFloatSqrt {
  import opened Words

  type u32 = x: int | 0 <= x < B32

  // ----- the tables

  /** sqrtOddAdjustments */
  function OddAdjustment(i: nat): nat {
    match i
    case 0 => 0x0004 case 1 => 0x0022 case 2 => 0x005D case 3 => 0x00B1
    case 4 => 0x011D case 5 => 0x019F case 6 => 0x0236 case 7 => 0x02E0
    case 8 => 0x039C case 9 => 0x0468 case 10 => 0x0545 case 11 => 0x0631
    case 12 => 0x072B case 13 => 0x0832 case 14 => 0x0946 case _ => 0x0A67
  }

  /** sqrtEvenAdjustments */
  function EvenAdjustment(i: nat): nat {
    match i
    case 0 => 0x0A2D case 1 => 0x08AF case 2 => 0x075A case 3 => 0x0629
    case 4 => 0x051A case 5 => 0x0429 case 6 => 0x0356 case 7 => 0x029E
    case 8 => 0x0200 case 9 => 0x0179 case 10 => 0x0109 case 11 => 0x00AF
    case 12 => 0x0068 case 13 => 0x0034 case 14 => 0x0012 case _ => 0x0002
  }

  /** The first of the 1024 values that `a >> 17` takes while the table index is `i`. */
  function Start(i: nat): nat { (16 + i) * 1024 }

  /**
   On one stretch of the table `a - m * z * z` is within `k * z`, because it is so at
   the ends: `f` and `z` belong to the start of the stretch, `j` counts on from there.
   */
  lemma {:induction false} Stretch(m: int, f: int, z: int, k: int, j: int, r: int, a: int, y: int)
    requires 1 <= m <= 2 && 0 <= j < 1024 && 0 <= r < 0x2_0000 && a == f + 0x2_0000 * j + r && y == z + j
    requires AtEnds(f - m * (z * z), 0x2_0000 - 2 * m * z, 1023 * m, k * z, k)
    ensures -(k * y) <= a - m * (y * y) <= k * y
  {
    var g, l := f - m * (z * z), 0x2_0000 - 2 * m * z;
    Expanded(m, z, j);
    Between(g + k * z, l - 1023 * m + k, j);
    Between(-(g + 0x2_0000 - k * z), -(l - k), j);
    Collected(l, 2 * m * z, 1023 * m, k, z, j);
    Summed(g, l * j, m * (j * j), 1023 * m * j, k * z, k * j, r);
  }

  /** `g`, with slope l and at most c per step less, stays between -kz and kz, which grow by k per step. */
  predicate AtEnds(g: int, l: int, c: int, kz: int, k: int) {
    && g + kz >= 0 && g + kz + (l - c + k) * 1023 >= 0
    && g + 0x2_0000 - kz <= 0 && g + 0x2_0000 - kz + (l - k) * 1023 <= 0
  }

  lemma {:induction false} Summed(g: int, lj: int, mjj: int, cj: int, kz: int, kj: int, r: int)
    requires 0 <= mjj <= cj && 0 <= r < 0x2_0000
    requires g + kz + (lj - cj + kj) >= 0 && -(g + 0x2_0000 - kz) + (-lj + kj) >= 0
    ensures -(kz + kj) <= g + lj + r - mjj <= kz + kj
  {
  }

  lemma {:induction false} Expanded(m: int, z: int, j: int)
    requires 1 <= m <= 2 && 0 <= j < 1024
    ensures m * ((z + j) * (z + j)) == m * (z * z) + (2 * m * z) * j + m * (j * j)
    ensures 0 <= m * (j * j) <= 1023 * m * j
  {
    assert (z + j) * (z + j) == z * z + 2 * (z * j) + j * j;
    MulMono(j, j, 1023);
    MulMono(j, 0, j);
    assert m == 1 || m == 2;
  }

  lemma {:induction false} Collected(l: int, w: int, c: int, k: int, z: int, j: int)
    requires l == 0x2_0000 - w
    ensures (l - c + k) * j == l * j - c * j + k * j
    ensures (-(l - k)) * j == -(l * j) + k * j
    ensures 0x2_0000 * j - w * j == l * j
    ensures k * (z + j) == k * z + k * j
  {
  }

  /** A linear function that is not negative at both ends is not negative between them. */
  lemma {:induction false} Between(c: int, d: int, j: int)
    requires 0 <= j < 1024 && c >= 0 && c + d * 1023 >= 0
    ensures c + d * j >= 0
  {
    if d >= 0 { MulMono(d, 0, j); } else { MulMono(-d, j, 1023); }
  }

  /** The first guess for the start of a stretch; `m` is 2 for odd exponents and 1 for even ones. */
  function FirstAt(odd: bool, i: nat): int {
    if odd then 0x4000 + Start(i) - OddAdjustment(i) else 0x8000 + Start(i) - EvenAdjustment(i)
  }

  /** The conditions at the ends of a stretch, for one entry of a table. */
  predicate Fits(m: int, k: int, i: nat, z: int) {
    32764 <= z <= 64510 && AtEnds(0x2_0000 * Start(i) - m * (z * z), 0x2_0000 - 2 * m * z, 1023 * m, k * z, k)
  }

  lemma {:induction false} OddFits0(i: nat)
    requires 0 <= i < 4
    ensures Fits(2, 1000, i, FirstAt(true, i))
  {
    match i
    case 0 => assert Fits(2, 1000, 0, 32764);
    case 1 => assert Fits(2, 1000, 1, 33758);
    case 2 => assert Fits(2, 1000, 2, 34723);
    case _ => assert Fits(2, 1000, 3, 35663);
  }

  lemma {:induction false} OddFits4(i: nat)
    requires 4 <= i < 8
    ensures Fits(2, 1000, i, FirstAt(true, i))
  {
    match i
    case 4 => assert Fits(2, 1000, 4, 36579);
    case 5 => assert Fits(2, 1000, 5, 37473);
    case 6 => assert Fits(2, 1000, 6, 38346);
    case _ => assert Fits(2, 1000, 7, 39200);
  }

  lemma {:induction false} OddFits8(i: nat)
    requires 8 <= i < 12
    ensures Fits(2, 1000, i, FirstAt(true, i))
  {
    match i
    case 8 => assert Fits(2, 1000, 8, 40036);
    case 9 => assert Fits(2, 1000, 9, 40856);
    case 10 => assert Fits(2, 1000, 10, 41659);
    case _ => assert Fits(2, 1000, 11, 42447);
  }

  lemma {:induction false} OddFits12(i: nat)
    requires 12 <= i < 16
    ensures Fits(2, 1000, i, FirstAt(true, i))
  {
    match i
    case 12 => assert Fits(2, 1000, 12, 43221);
    case 13 => assert Fits(2, 1000, 13, 43982);
    case 14 => assert Fits(2, 1000, 14, 44730);
    case _ => assert Fits(2, 1000, 15, 45465);
  }

  lemma {:induction false} OddFits(i: nat)
    requires i < 16
    ensures Fits(2, 1000, i, FirstAt(true, i))
  {
    if i < 4 { OddFits0(i); } else if i < 8 { OddFits4(i); } else if i < 12 { OddFits8(i); } else { OddFits12(i); }
  }

  lemma {:induction false} EvenFits0(i: nat)
    requires 0 <= i < 4
    ensures Fits(1, 500, i, FirstAt(false, i))
  {
    match i
    case 0 => assert Fits(1, 500, 0, 46547);
    case 1 => assert Fits(1, 500, 1, 47953);
    case 2 => assert Fits(1, 500, 2, 49318);
    case _ => assert Fits(1, 500, 3, 50647);
  }

  lemma {:induction false} EvenFits4(i: nat)
    requires 4 <= i < 8
    ensures Fits(1, 500, i, FirstAt(false, i))
  {
    match i
    case 4 => assert Fits(1, 500, 4, 51942);
    case 5 => assert Fits(1, 500, 5, 53207);
    case 6 => assert Fits(1, 500, 6, 54442);
    case _ => assert Fits(1, 500, 7, 55650);
  }

  lemma {:induction false} EvenFits8(i: nat)
    requires 8 <= i < 12
    ensures Fits(1, 500, i, FirstAt(false, i))
  {
    match i
    case 8 => assert Fits(1, 500, 8, 56832);
    case 9 => assert Fits(1, 500, 9, 57991);
    case 10 => assert Fits(1, 500, 10, 59127);
    case _ => assert Fits(1, 500, 11, 60241);
  }

  lemma {:induction false} EvenFits12(i: nat)
    requires 12 <= i < 16
    ensures Fits(1, 500, i, FirstAt(false, i))
  {
    match i
    case 12 => assert Fits(1, 500, 12, 61336);
    case 13 => assert Fits(1, 500, 13, 62412);
    case 14 => assert Fits(1, 500, 14, 63470);
    case _ => assert Fits(1, 500, 15, 64510);
  }

  lemma {:induction false} EvenFits(i: nat)
    requires i < 16
    ensures Fits(1, 500, i, FirstAt(false, i))
  {
    if i < 4 { EvenFits0(i); } else if i < 8 { EvenFits4(i); } else if i < 12 { EvenFits8(i); } else { EvenFits12(i); }
  }

  /** `(a >> 27) & 15` */
  function Index(a: u32): nat { a / 0x800_0000 % 16 }

  /** The value of `z` after the table lookup. */
  function First(odd: bool, a: u32): int {
    if odd then 0x4000 + a / 0x2_0000 - OddAdjustment(Index(a)) else 0x8000 + a / 0x2_0000 - EvenAdjustment(Index(a))
  }

  lemma {:induction false} IndexOf(a: u32)
    requires a >= 0x8000_0000
    ensures Index(a) < 16 && 0 <= a / 0x2_0000 - Start(Index(a)) < 1024
    ensures a == 0x2_0000 * (a / 0x2_0000) + a % 0x2_0000 && 0 <= a % 0x2_0000 < 0x2_0000
  {
    var t := a / 0x2_0000;
    var q := t / 1024;
    DivUnique(a, 0x800_0000, q, (t % 1024) * 0x2_0000 + a % 0x2_0000);
    DivUnique(q, 16, 1, q - 16);
  }

  /** The guess `z` is close to the root of a / m. */
  lemma {:induction false} FirstClose(odd: bool, a: u32)
    requires a >= 0x8000_0000
    ensures var m, k, z := if odd then 2 else 1, if odd then 1000 else 500, First(odd, a);
      32764 <= z < 65536 && -(k * z) <= a - m * (z * z) <= k * z
  {
    var i, t, r := Index(a), a / 0x2_0000, a % 0x2_0000;
    var j := t - Start(i);
    IndexOf(a);
    if odd { OddFits(i); } else { EvenFits(i); }
    var m, k := if odd then 2 else 1, if odd then 1000 else 500;
    Stretch(m, 0x2_0000 * Start(i), FirstAt(odd, i), k, j, r, a, First(odd, a));
  }

  // ----- a Newton step

  /** The quotient by a close guess is close to m times the guess. */
  lemma {:induction false} QuotientNear(a: int, z: int, m: int, k: int, q: int)
    requires z > 0 && q * z <= a < q * z + z && -(k * z) <= a - m * (z * z) <= k * z
    ensures -k <= q - m * z <= k
  {
    var d := q - m * z;
    assert d * z == q * z - m * (z * z);
    Outside(d, k, z);
  }

  lemma {:induction false} Outside(d: int, k: int, z: int)
    requires z > 0
    ensures d > k ==> d * z >= k * z + z
    ensures d < -k ==> d * z <= -(k * z) - z
  {
    if d > k { MulMono(z, k + 1, d); }
    if d < -k { MulMono(z, d, -k - 1); }
  }

  /** The sum of two numbers against four times their product. */
  lemma {:induction false} SumSquared(x: int, y: int)
    ensures (x + y) * (x + y) == (x - y) * (x - y) + 4 * (x * y)
    ensures (x - y) * (x - y) >= 0
  {
    SquarePositive(x - y);
  }

  lemma {:induction false} SquarePositive(d: int)
    ensures d * d >= 0
  {
  }

  lemma {:induction false} SquareAtMost(d: int, k: int)
    requires -k <= d <= k
    ensures d * d <= k * k
  {
    var e: nat := if d < 0 then -d else d;
    assert d * d == e * e;
    MulMono(e, e, k);
    MulMono(k, e, k);
  }

  /**
   The step from a guess: with x * y just below p and x, y close to each other,
   their sum is just below twice the root of p, or a little above it.
   */
  lemma {:induction false} StepBounds(x: nat, y: nat, p: int, k: int)
    requires x * y <= p < (x + 1) * y && -k <= x - y <= k
    ensures (x + y + 1) * (x + y + 1) > 4 * p
    ensures (x + y) * (x + y) <= 4 * p + k * k
  {
    SumSquared(x + 1, y);
    SumSquared(x, y);
    SquareAtMost(x - y, k);
  }

  // ----- the second step

  /** The estimate `z` of the root of `sq` that the first step leaves. */
  ghost predicate Close(z: int, sq: int) {
    && z >= 0x7FFF_8000
    && (z + 0x8000) * (z + 0x8000) > sq && (z - 0x1_0000) * (z - 0x1_0000) <= sq
  }

  /** The result lies strictly within two of the root. */
  ghost predicate WithinTwo(r: int, sq: int) {
    r >= 2 && (r - 2) * (r - 2) < sq < (r + 2) * (r + 2)
  }

  lemma {:induction false} NotFarAbove(z: int, sq: int, u: int)
    requires Close(z, sq) && u >= 0 && 2 * (z * (u + 2)) <= z * z + sq
    ensures u <= z + 0x8000
  {
    assert (z + 0x8000) * (z + 0x8000) == z * z + 0x1_0000 * z + 0x4000_0000;
    assert z * (z + 0x8003) == z * z + 0x8003 * z;
    if u > z + 0x8000 { MulMono(z, z + 0x8003, u + 2); }
  }

  lemma {:induction false} NotFarBelow(z: int, sq: int, u: int)
    requires Close(z, sq) && u >= 0 && u * u >= sq
    ensures z - 0x1_0000 <= u
  {
    var w := z - 0x1_0000;
    assert w * (w - 1) == w * w - w;
    if u < w { BelowSquare(u, w); }
  }

  lemma {:induction false} BelowSquare(u: nat, w: nat)
    requires u < w
    ensures u * u <= w * (w - 1)
  {
    MulMono(u, u, w);
    MulMono(w, u, w - 1);
  }

  lemma {:induction false} LowerSide(z: int, sq: int, r: int)
    requires z * (2 * r + 4) > z * z + sq
    ensures sq < (r + 2) * (r + 2)
  {
    var v := r + 2;
    assert z * (2 * r + 4) == 2 * (z * v);
    assert (v - z) * (v - z) == v * v - 2 * (z * v) + z * z;
    SquarePositive(v - z);
  }

  lemma {:induction false} RootAbove(n: int, c: nat, p: int)
    requires n >= 0 && (n + 1) * (n + 1) > p >= c * c
    ensures n >= c
  {
    if n < c { SquareAtMost(n + 1, c); }
  }

  lemma {:induction false} Grown(x: nat, d: nat)
    ensures (x + d) * (x + d) >= x * x
  {
    assert (x + d) * (x + d) == x * x + 2 * (x * d) + d * d;
    MulMono(x, 0, d);
    MulMono(d, 0, d);
  }

  /** The guess and the quotient by it. */
  lemma {:induction false} Divided(odd: bool, a: u32, z: int, q: int)
    requires a >= 0x8000_0000 && z == First(odd, a) && q * z <= a < q * z + z
    ensures 32764 <= z < 65536
    ensures if odd then -1000 <= q - 2 * z <= 1000 else -500 <= q - z <= 500
  {
    FirstClose(odd, a);
    QuotientNear(a, z, if odd then 2 else 1, if odd then 1000 else 500, q);
  }

  lemma {:induction false} OddSum(a: int, z: int, q: int)
    requires a >= 0x8000_0000 && z > 0 && q >= 0 && q * z <= a < q * z + z && -1000 <= q - 2 * z <= 1000
    ensures var n := q + 2 * z;
      (n + 1) * (n + 1) > 8 * a && n * n <= 8 * a + 1000000 && n >= 0x2_0000
  {
    assert q * (2 * z) == 2 * (q * z) && (q + 1) * (2 * z) == 2 * (q * z + z);
    StepBounds(q, 2 * z, 2 * a, 1000);
    RootAbove(q + 2 * z, 0x2_0000, 8 * a);
  }

  lemma {:induction false} EvenSum(a: int, z: int, q: int)
    requires a >= 0x8000_0000 && z > 0 && q >= 0 && q * z <= a < q * z + z && -500 <= q - z <= 500
    ensures var n := q + z;
      (n + 1) * (n + 1) > 4 * a && n * n <= 4 * a + 250000 && n >= 0x1_6000
  {
    assert (q + 1) * z == q * z + z;
    StepBounds(q, z, a, 500);
    RootAbove(q + z, 0x1_6000, 4 * a);
  }

  lemma {:induction false} OddScaled(a: int, n: int)
    requires (n + 1) * (n + 1) > 8 * a && n * n <= 8 * a + 1000000 && n >= 0x2_0000
    ensures Close(0x4000 * n, a * 0x8000_0000)
  {
    assert (0x4000 * n + 0x4000) * (0x4000 * n + 0x4000) == 0x1000_0000 * ((n + 1) * (n + 1));
    Grown(0x4000 * n + 0x4000, 0x4000);
    assert (0x4000 * n - 0x1_0000) * (0x4000 * n - 0x1_0000) == 0x1000_0000 * (n * n - 8 * n + 16);
  }

  lemma {:induction false} EvenScaled(a: int, n: int)
    requires (n + 1) * (n + 1) > 4 * a && n * n <= 4 * a + 250000 && n >= 0x1_6000
    ensures Close(0x8000 * n, a * B32)
  {
    assert (0x8000 * n + 0x8000) * (0x8000 * n + 0x8000) == 0x4000_0000 * ((n + 1) * (n + 1));
    assert (0x8000 * n - 0x1_0000) * (0x8000 * n - 0x1_0000) == 0x4000_0000 * (n * n - 4 * n + 4);
  }

  /** The first step for an odd exponent leaves a close estimate of the root of a * 2^31. */
  lemma {:induction false} OddClose(a: u32, z: int, q: int)
    requires a >= 0x8000_0000 && z == First(true, a) && q >= 0 && q * z <= a < q * z + z
    ensures Close(0x4000 * (q + 2 * z), a * 0x8000_0000) && 0x2_0000 <= q + 2 * z < 0x4_0000
  {
    Divided(true, a, z, q);
    OddSum(a, z, q);
    OddScaled(a, q + 2 * z);
  }

  /** The same for an even exponent and the root of a * 2^32. */
  lemma {:induction false} EvenClose(a: u32, z: int, q: int)
    requires a >= 0x8000_0000 && z == First(false, a) && q >= 0 && q * z <= a < q * z + z
    ensures Close(0x8000 * (q + z), a * B32)
  {
    Divided(false, a, z, q);
    EvenSum(a, z, q);
    EvenScaled(a, q + z);
  }

  /** A first step that would not fit into 32 bits is cut short, and is close all the same. */
  lemma {:induction false} CutClose(a: u32, n: int)
    requires Close(0x8000 * n, a * B32) && n >= 0x2_0000
    ensures Close(0xFFFF_8000, a * B32)
  {
    var w := 0x8000 * n - 0x1_0000;
    assert w >= 0xFFFF_0000;
    Grown(0xFFFF_0000, w - 0xFFFF_0000);
    Grown(0xFFFE_8000, 0x8000);
  }

  /** The last division: what is rounded down is not more than two. */
  lemma {:induction false} LastStep(z: int, half: int, p: int, sq: int, q: int)
    requires Close(z, sq) && z == 2 * half && 2 * p <= sq <= 2 * p + 0x8000_0000 && 0 <= q
    requires q * z <= p < q * z + z
    ensures WithinTwo(q + half, sq)
  {
    var r := q + half;
    Products(z, half, q, r - 2);
    NotFarAbove(z, sq, r - 2);
    if (r - 2) * (r - 2) >= sq {
      NotFarBelow(z, sq, r - 2);
      SquareAtMost(z - (r - 2), 0x1_0000);
    }
    LowerSide(z, sq, r);
  }

  lemma {:induction false} Products(z: int, half: int, q: int, u: int)
    requires z == 2 * half && u == q + half - 2
    ensures 2 * (z * (u + 2)) == 2 * (q * z) + z * z && z * (2 * (u + 2) + 4) == 2 * (q * z) + z * z + 4 * z
    ensures (z - u) * (z - u) == z * z - 2 * (z * u) + u * u && z * (u + 2) == z * u + 2 * z
  {
    assert z * half == 2 * (half * half) && z * z == 4 * (half * half);
  }

  /** For `a` near 2^32 half of it is close enough to the root. */
  lemma {:induction false} NearTop(a: u32)
    requires a >= 0x8000_0000 && (a + 0x8000) * (a + 0x8000) > a * B32
    ensures WithinTwo(0x8000_0000 + a / 2, a * B32)
  {
    var d := B32 - a;
    assert d <= 0x1_0000 by {
      assert (a + 0x8000) * (a + 0x8000) - a * B32 == a * (0x1_0000 - d) + 0x4000_0000;
      if d > 0x1_0000 { MulMono(a, 0x1_0000 - d, -1); }
    }
    var h := B32 - (0x8000_0000 + a / 2);
    assert d <= 2 * h <= d + 1;
    assert (B32 - (h - 2)) * (B32 - (h - 2)) == B32 * B32 - 2 * B32 * (h - 2) + (h - 2) * (h - 2);
    assert (B32 - (h + 2)) * (B32 - (h + 2)) == B32 * B32 - 2 * B32 * (h + 2) + (h + 2) * (h + 2);
    SquarePositive(h - 2);
    SquareAtMost(h + 2, 0x1_0000);
  }

  /** `(int32_t) a` */
  function AsInt32(a: u32): int { if a >= 0x8000_0000 then a - B32 else a }

  /** `(a << 31) / z + (z >> 1)` */
  method LastDivision(a: u32, z: int, ghost sq: int) returns (r: int)
    requires Close(z, sq) && z % 2 == 0 && z < B32
    requires 2 * (a * 0x8000_0000) <= sq <= 2 * (a * 0x8000_0000) + 0x8000_0000
    ensures WithinTwo(r, sq) && (a < z ==> r < B32)
  {
    var p := a * 0x8000_0000;
    DivMod(p, z);
    LastStep(z, z / 2, p, sq, p / z);
    QuotientBelow(a, z, p / z);
    r := p / z + z / 2;
  }

  lemma {:induction false} QuotientBelow(a: int, z: int, q: int)
    requires z > 0 && q * z <= a * 0x8000_0000
    ensures a < z ==> q < 0x8000_0000
  {
    if a < z && q >= 0x8000_0000 { MulMono(z, 0x8000_0000, q); }
  }

  /** `a / z` */
  method Divide(a: u32, z: int) returns (q: int)
    requires z > 0
    ensures q >= 0 && q * z <= a < q * z + z
  {
    DivMod(a, z);
    q := a / z;
  }

  /** The table lookup, and the division by what it gives. */
  method GuessAndQuotient(odd: bool, a: u32) returns (z: nat, q: nat)
    requires a >= 0x8000_0000
    ensures odd ==> Close(0x4000 * (q + 2 * z), a * 0x8000_0000) && 0x2_0000 <= q + 2 * z < 0x4_0000
    ensures !odd ==> Close(0x8000 * (q + z), a * B32)
  {
    FirstClose(odd, a);
    z := First(odd, a);
    q := Divide(a, z);
    if odd { OddClose(a, z, q); } else { EvenClose(a, z, q); }
  }

  /** The first estimate for odd exponents: `((a / z) << 14) + (z << 15)`. */
  method OddEstimate(a: u32) returns (z: u32)
    requires a >= 0x8000_0000
    ensures Close(z, a * 0x8000_0000) && z % 2 == 0 && a / 2 < z
  {
    var y, q := GuessAndQuotient(true, a);
    z := q * 0x4000 + y * 0x8000;
    assert z == 0x4000 * (q + 2 * y) == 2 * (0x2000 * (q + 2 * y));
  }

  lemma {:induction false} Even(z: int, h: int)
    requires z == 2 * h
    ensures z % 2 == 0
  {
  }

  /** The first estimate for even exponents: `(a / z + z) << 15`, or the largest multiple below 2^32. */
  method EvenEstimate(a: u32) returns (z: u32)
    requires a >= 0x8000_0000
    ensures Close(z, a * B32) && z % 2 == 0
  {
    var y, q := GuessAndQuotient(false, a);
    var n := q + y;
    if n >= 0x2_0000 {
      CutClose(a, n);
      z := 0xFFFF_8000;
    } else {
      z := n * 0x8000;
      Even(z, n * 0x4000);
    }
  }

  /** estimateSqrt32 */
  method EstimateSqrt32(aExp: int, a: u32) returns (r: u32)
    requires a >= 0x8000_0000
    ensures aExp % 2 == 1 ==> WithinTwo(r, a * 0x8000_0000)
    ensures aExp % 2 == 0 ==> WithinTwo(r, a * B32)
  {
    if aExp % 2 == 1 {
      r := OddRoot(a);
    } else {
      r := EvenRoot(a);
    }
  }

  method OddRoot(a: u32) returns (r: u32)
    requires a >= 0x8000_0000
    ensures WithinTwo(r, a * 0x8000_0000)
  {
    var z := OddEstimate(a);
    var half := a / 2;
    r := LastDivision(half, z, a * 0x8000_0000);
  }

  method EvenRoot(a: u32) returns (r: u32)
    requires a >= 0x8000_0000
    ensures WithinTwo(r, a * B32)
  {
    var z := EvenEstimate(a);
    if z <= a {
      Grown(z + 0x8000, a - z);
      NearTop(a);
      HalfSigned(a);
      return (AsInt32(a) / 2) % B32;
    }
    r := LastDivision(a, z, a * B32);
  }

  /** The arithmetic shift of a negative number. */
  lemma {:induction false} HalfSigned(a: u32)
    requires a >= 0x8000_0000
    ensures (AsInt32(a) / 2) % B32 == 0x8000_0000 + a / 2
  {
    assert (a - B32) / 2 == a / 2 - 0x8000_0000;
    DivUnique(a / 2 - 0x8000_0000, B32, -1, a / 2 + 0x8000_0000);
  }

  /** In terms of the root itself: the result is strictly within two of it. */
  lemma {:induction false} WithinTwoOfRoot(r: int, sq: nat, root: real)
    requires WithinTwo(r, sq) && root > 0.0 && root * root == sq as real
    ensures -2.0 < r as real - root < 2.0
  {
    var x := r as real;
    assert (x - 2.0) * (x - 2.0) < root * root < (x + 2.0) * (x + 2.0) by {
      assert ((r - 2) * (r - 2)) as real == (x - 2.0) * (x - 2.0);
      assert ((r + 2) * (r + 2)) as real == (x + 2.0) * (x + 2.0);
    }
    RootsOrdered(x - 2.0, root);
    RootsOrdered(root, x + 2.0);
  }

  lemma {:induction false} RootsOrdered(x: real, y: real)
    requires 0.0 <= x && 0.0 <= y && x * x < y * y
    ensures x < y
  {
    assert (y - x) * (y + x) > 0.0;
  }
}
