/**
 The 64-bit words of include/fpu/softfloat-macros.h as integers: every operator
 that wraps around in C says so here.
 */
module Words {
  const B32 := 0x1_0000_0000
  const B64 := 0x1_0000_0000_0000_0000
  const B128 := 0x1_0000_0000_0000_0000_0000_0000_0000_0000
  const B192 := 0x1_0000_0000_0000_0000_0000_0000_0000_0000_0000_0000_0000_0000

  /** The sign bit of a word, and one half of its range. */
  const HALF := 0x8000_0000_0000_0000

  type u64 = x: int | 0 <= x < B64

  function Pow2(n: nat): nat
    ensures Pow2(n) >= 1
  {
    if n == 0 then 1 else 2 * Pow2(n - 1)
  }

  /** C's `a + b`, `a - b` and `a * b` on uint64_t. */
  function Add(a: u64, b: u64): u64 { (a + b) % B64 }
  function Sub(a: u64, b: u64): u64 { (a - b) % B64 }
  function Mul(a: u64, b: u64): u64 { (a * b) % B64 }

  /** C's `a << n` and `a >> n`, for 0 <= n < 64. */
  function Shl(a: u64, n: nat): u64 { (a * Pow2(n)) % B64 }
  function Shr(a: u64, n: nat): (r: u64)
    ensures r <= a
  {
    ShrBound(a, n);
    a / Pow2(n)
  }

  lemma {:induction false} ShrBound(a: nat, n: nat)
    ensures 0 <= a / Pow2(n) <= a
  {
    DivMod(a, Pow2(n));
    MulMono(a / Pow2(n), 1, Pow2(n));
  }

  lemma {:induction false} MulMono(a: nat, b: int, c: int)
    requires b <= c
    ensures a * b <= a * c
  {
    assert a * c - a * b == a * (c - b);
  }

  /** C's `-n & 63` */
  function NegMod(n: nat): nat { (64 - n % 64) % 64 }

  /** A C comparison used as a number. */
  function Bit(b: bool): u64 { if b then 1 else 0 }

  /** C's `a | b`, bit by bit. */
  function Or(a: nat, b: nat): nat {
    if a == 0 then b
    else if b == 0 then a
    else 2 * Or(a / 2, b / 2) + (if a % 2 == 1 || b % 2 == 1 then 1 else 0)
  }

  /** When no bit position is set on both sides, `|` is `+`. */
  lemma {:induction false} OrDisjoint(a: nat, b: nat, n: nat)
    requires b < Pow2(n)
    ensures Or(a * Pow2(n), b) == a * Pow2(n) + b
  {
    if n > 0 && a > 0 && b > 0 {
      var p := Pow2(n - 1);
      assert a * Pow2(n) == 2 * (a * p);
      assert (2 * (a * p)) / 2 == a * p;
      OrDisjoint(a, b / 2, n - 1);
    }
  }

  /** `|` with a truth value sets the lowest bit. */
  lemma {:induction false} OrBit(a: nat, b: bool)
    ensures Or(a, Bit(b)) == if b && a % 2 == 0 then a + 1 else a
  {
  }

  lemma {:induction false} OrZero(a: nat, b: nat)
    ensures Or(a, b) == 0 <==> a == 0 && b == 0
  {
    if a > 0 && b > 0 { OrZero(a / 2, b / 2); }
  }

  lemma {:induction false} OrBound(a: nat, b: nat, n: nat)
    requires a < Pow2(n) && b < Pow2(n)
    ensures Or(a, b) < Pow2(n)
  {
    if a > 0 && b > 0 {
      OrBound(a / 2, b / 2, n - 1);
    }
  }

  lemma {:induction false} Pow2Add(m: nat, n: nat)
    ensures Pow2(m + n) == Pow2(m) * Pow2(n)
  {
    if m > 0 {
      Pow2Add(m - 1, n);
      DoubleProduct(Pow2(m - 1), Pow2(n));
    }
  }

  lemma {:induction false} DoubleProduct(x: int, y: int)
    ensures (2 * x) * y == 2 * (x * y) == x * (2 * y)
  {
  }

  lemma {:induction false} Pow2Twice(n: nat, v: nat, m: nat)
    requires Pow2(n) == v && m == n + n
    ensures Pow2(m) == v * v
  {
    Pow2Add(n, n);
  }

  lemma {:induction false} Pow2Values()
    ensures Pow2(1) == 2 && Pow2(32) == B32 && Pow2(63) == 0x8000_0000_0000_0000 && Pow2(64) == B64
  {
    assert Pow2(8) == 256;
    Pow2Twice(8, 256, 16);
    Pow2Twice(16, 0x1_0000, 32);
    Pow2Twice(32, B32, 64);
    assert Pow2(64) == 2 * Pow2(63);
  }

  lemma {:induction false} DivMod(x: int, y: int)
    requires y > 0
    ensures x == (x / y) * y + x % y && 0 <= x % y < y
    ensures x >= 0 ==> x / y >= 0
  {
  }

  /** Quotient and remainder are determined by what they have to satisfy. */
  lemma {:induction false} DivUnique(x: int, y: int, q: int, r: int)
    requires y > 0 && x == q * y + r && 0 <= r < y
    ensures x / y == q && x % y == r
  {
    DivMod(x, y);
    var p, s := x / y, x % y;
    assert (q - p) * y == s - r && (p - q) * y == r - s;
    if q > p {
      MulMono(y, 1, q - p);
    } else if q < p {
      MulMono(y, 1, p - q);
    }
  }

  // ----- values of several words, the most significant first

  function Val2(a0: u64, a1: u64): nat { a0 * B64 + a1 }
  function Val3(a0: u64, a1: u64, a2: u64): nat { Val2(a0, a1) * B64 + a2 }
  function Val4(a0: u64, a1: u64, a2: u64, a3: u64): nat { Val3(a0, a1, a2) * B64 + a3 }
}
