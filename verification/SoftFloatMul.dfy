/**
 Multiword addition, subtraction and multiplication of
 include/fpu/softfloat-macros.h: no carry is lost between the words.
 */
module SoftFloatMul {
  import opened Words

  // ----- addition and subtraction

  /** The carry out of a word is what the comparison with an operand finds. */
  lemma {:induction false} AddCarry(a: u64, b: u64)
    ensures a + b == Add(a, b) + B64 * Bit(Add(a, b) < a)
  {
  }

  lemma {:induction false} SubBorrow(a: u64, b: u64)
    ensures a - b == Sub(a, b) - B64 * Bit(a < b)
  {
  }

  ghost function Neg(x: int): int { -x }

  /** Two columns of an addition with the carries between them. */
  lemma {:induction false} TwoColumns(a0: int, a1: int, b0: int, b1: int, z0: u64, z1: u64, y0: int,
                                      c: int, q0: int, q1: int)
    requires a1 + b1 == z1 + B64 * c && a0 + b0 == y0 + B64 * q0 && y0 + c == z0 + B64 * q1
    ensures Val2(z0, z1) == ((a0 * B64 + a1) + (b0 * B64 + b1)) % B128
  {
    DivUnique((a0 * B64 + a1) + (b0 * B64 + b1), B128, q0 + q1, Val2(z0, z1));
  }

  /** A word sum, and the carry that the comparison with the first operand finds. */
  method AddOut(a: u64, b: u64) returns (z: u64, carry: u64)
    ensures a + b == z + B64 * carry && carry <= 1
  {
    AddCarry(a, b);
    z := Add(a, b);
    carry := Bit(z < a);
  }

  /** A word difference, and the borrow that the comparison of the operands finds. */
  method SubOut(a: u64, b: u64) returns (z: u64, borrow: u64)
    ensures a - b == z - B64 * borrow && borrow <= 1
  {
    SubBorrow(a, b);
    z := Sub(a, b);
    borrow := Bit(a < b);
  }

  method Add128(a0: u64, a1: u64, b0: u64, b1: u64) returns (z0: u64, z1: u64)
    ensures Val2(z0, z1) == (Val2(a0, a1) + Val2(b0, b1)) % B128
  {
    var carry, lost0, lost1, y0;
    z1, carry := AddOut(a1, b1);
    y0, lost0 := AddOut(a0, b0);
    z0, lost1 := AddOut(y0, carry);
    TwoColumns(a0, a1, b0, b1, z0, z1, y0, carry, lost0, lost1);
  }

  method Sub128(a0: u64, a1: u64, b0: u64, b1: u64) returns (z0: u64, z1: u64)
    ensures Val2(z0, z1) == (Val2(a0, a1) - Val2(b0, b1)) % B128
  {
    var borrow, lost0, lost1, y0;
    z1, borrow := SubOut(a1, b1);
    y0, lost0 := SubOut(a0, b0);
    z0, lost1 := SubOut(y0, borrow);
    TwoColumns(a0, a1, Neg(b0), Neg(b1), z0, z1, y0, Neg(borrow), Neg(lost0), Neg(lost1));
  }

  /** Three columns of an addition with the carries between them. */
  lemma {:induction false} Columns(a0: int, a1: int, a2: int, b0: int, b1: int, b2: int,
                                   z0: u64, z1: u64, z2: u64, y1: int, y0: int, x0: int,
                                   c1: int, c0: int, k: int, q0: int, q1: int, q2: int)
    requires a2 + b2 == z2 + B64 * c1 && a1 + b1 == y1 + B64 * c0 && a0 + b0 == y0 + B64 * q0
    requires y1 + c1 == z1 + B64 * k && y0 + k == x0 + B64 * q1 && x0 + c0 == z0 + B64 * q2
    ensures Val3(z0, z1, z2) == (((a0 * B64 + a1) * B64 + a2) + ((b0 * B64 + b1) * B64 + b2)) % B192
  {
    DivUnique(((a0 * B64 + a1) * B64 + a2) + ((b0 * B64 + b1) * B64 + b2), B192, q0 + q1 + q2, Val3(z0, z1, z2));
  }

  method Add192(a0: u64, a1: u64, a2: u64, b0: u64, b1: u64, b2: u64) returns (z0: u64, z1: u64, z2: u64)
    ensures Val3(z0, z1, z2) == (Val3(a0, a1, a2) + Val3(b0, b1, b2)) % B192
  {
    var carry1, carry0, k, lost0, lost1, lost2, y0, y1, x0;
    z2, carry1 := AddOut(a2, b2);
    y1, carry0 := AddOut(a1, b1);
    y0, lost0 := AddOut(a0, b0);
    z1, k := AddOut(carry1, y1);
    x0, lost1 := AddOut(k, y0);
    z0, lost2 := AddOut(carry0, x0);
    Columns(a0, a1, a2, b0, b1, b2, z0, z1, z2, y1, y0, x0, carry1, carry0, k, lost0, lost1, lost2);
  }

  method Sub192(a0: u64, a1: u64, a2: u64, b0: u64, b1: u64, b2: u64) returns (z0: u64, z1: u64, z2: u64)
    ensures Val3(z0, z1, z2) == (Val3(a0, a1, a2) - Val3(b0, b1, b2)) % B192
  {
    var borrow1, borrow0, k, lost0, lost1, lost2, y0, y1, x0;
    z2, borrow1 := SubOut(a2, b2);
    y1, borrow0 := SubOut(a1, b1);
    y0, lost0 := SubOut(a0, b0);
    z1, k := SubOut(y1, borrow1);
    x0, lost1 := SubOut(y0, k);
    z0, lost2 := SubOut(x0, borrow0);
    Columns(a0, a1, a2, Neg(b0), Neg(b1), Neg(b2), z0, z1, z2, y1, y0, x0,
            Neg(borrow1), Neg(borrow0), Neg(k), Neg(lost0), Neg(lost1), Neg(lost2));
  }

  lemma {:induction false} Val3Bound(z0: u64, z1: u64, z2: u64)
    ensures Val3(z0, z1, z2) < B192
  {
  }

  /** Multiword values determine their words. */
  lemma {:induction false} WordsUnique(a0: u64, a1: u64, a2: u64, b0: u64, b1: u64, b2: u64)
    requires Val3(a0, a1, a2) == Val3(b0, b1, b2)
    ensures a0 == b0 && a1 == b1 && a2 == b2
  {
  }

  /** Adding `b`, which may be negative, and taking it away again gives back the words, carries out included. */
  lemma {:induction false} UndoneModulo(a0: u64, a1: u64, a2: u64, b: int, s: nat, d0: u64, d1: u64, d2: u64)
    requires s == (Val3(a0, a1, a2) + b) % B192
    requires Val3(d0, d1, d2) == (s - b) % B192
    ensures d0 == a0 && d1 == a1 && d2 == a2
  {
    Val3Bound(a0, a1, a2);
    ModBack(Val3(a0, a1, a2), b, s, Val3(d0, d1, d2));
    WordsUnique(a0, a1, a2, d0, d1, d2);
  }

  /** sub192 takes back what add192 did, and the other way round. */
  method SubUndoesAdd192(a0: u64, a1: u64, a2: u64, b0: u64, b1: u64, b2: u64) returns (z0: u64, z1: u64, z2: u64)
    ensures z0 == a0 && z1 == a1 && z2 == a2
  {
    var s0, s1, s2 := Add192(a0, a1, a2, b0, b1, b2);
    z0, z1, z2 := Sub192(s0, s1, s2, b0, b1, b2);
    UndoneModulo(a0, a1, a2, Val3(b0, b1, b2), Val3(s0, s1, s2), z0, z1, z2);
  }

  method AddUndoesSub192(a0: u64, a1: u64, a2: u64, b0: u64, b1: u64, b2: u64) returns (z0: u64, z1: u64, z2: u64)
    ensures z0 == a0 && z1 == a1 && z2 == a2
  {
    var d0, d1, d2 := Sub192(a0, a1, a2, b0, b1, b2);
    z0, z1, z2 := Add192(d0, d1, d2, b0, b1, b2);
    UndoneModulo(a0, a1, a2, Neg(Val3(b0, b1, b2)), Val3(d0, d1, d2), z0, z1, z2);
  }

  lemma {:induction false} ModBack(a: nat, b: int, s: nat, d: nat)
    requires a < B192 && s == (a + b) % B192 && d == (s - b) % B192
    ensures d == a
  {
    var k, j := (a + b) / B192, (s - b) / B192;
    assert a + b == k * B192 + s;
    assert s - b == j * B192 + d;
    assert a - d == (k + j) * B192;
  }

  // ----- multiplication

  lemma {:induction false} MulExact(x: nat, y: nat)
    requires x < B32 && y < B32
    ensures 0 <= x * y < B64 && x < B64 && y < B64 && Mul(x, y) == x * y
  {
    MulMono(x, y, B32 - 1);
    MulMono(x, 0, y);
    DivUnique(x * y, B64, 0, x * y);
  }

  lemma {:induction false} AddExact(a: u64, b: u64)
    requires a + b < B64
    ensures Add(a, b) == a + b
  {
  }

  lemma {:induction false} ProductParts(ah: int, al: int, bh: int, bl: int)
    ensures (ah * B32 + al) * (bh * B32 + bl) == ah * bh * B64 + (al * bh + ah * bl) * B32 + al * bl
  {
    var b := bh * B32 + bl;
    assert (ah * B32 + al) * b == ah * b * B32 + al * b;
    assert ah * b == ah * bh * B32 + ah * bl;
    assert al * b == al * bh * B32 + al * bl;
  }

  lemma {:induction false} HalfWords(a: u64)
    ensures Shr(a, 32) == a / B32 < B32 && a == (a / B32) * B32 + a % B32
    ensures Shl(a, 32) == (a % B32) * B32
  {
    Pow2Values();
    DivMod(a, B32);
    DivUnique(a * B32, B64, a / B32, (a % B32) * B32);
  }

  /** The four partial products of two words. */
  lemma {:induction false} PartialProducts(a: u64, b: u64)
    ensures var al, ah, bl, bh := a % B32, a / B32, b % B32, b / B32;
      a * b == ah * bh * B64 + (al * bh + ah * bl) * B32 + al * bl < B128
  {
    HalfWords(a);
    HalfWords(b);
    ProductParts(a / B32, a % B32, b / B32, b % B32);
    HighPart(a, b, 0);
  }

  /** Their recombination, with every carry named; the high word does not overflow. */
  lemma {:induction false} Recombine(ll: int, lh: int, hl: int, hh: int, m: u64, c: int, z1: u64, c2: int, z: int)
    requires lh + hl == m + B64 * c && ll + (m % B32) * B32 == z1 + B64 * c2
    requires z == hh + c * B32 + m / B32 + c2
    ensures z * B64 + z1 == hh * B64 + (lh + hl) * B32 + ll
    ensures hh * B64 + (lh + hl) * B32 + ll < B128 ==> z < B64
  {
  }

  method Mul64To128(a: u64, b: u64) returns (z0: u64, z1: u64)
    ensures Val2(z0, z1) == a * b
  {
    HalfWords(a);
    HalfWords(b);
    var aLow, aHigh := a % B32, Shr(a, 32);
    var bLow, bHigh := b % B32, Shr(b, 32);
    MulExact(aLow, bLow);
    z1 := Mul(aLow, bLow);
    MulExact(aLow, bHigh);
    var middleA := Mul(aLow, bHigh);
    MulExact(aHigh, bLow);
    var middleB := Mul(aHigh, bLow);
    MulExact(aHigh, bHigh);
    z0 := Mul(aHigh, bHigh);
    PartialProducts(a, b);
    z0, z1 := MergeMiddle(z0, middleA, middleB, z1);
  }

  /** The second half of mul64To128: the middle products are added in. */
  method MergeMiddle(hh: u64, lh: u64, hl: u64, ll: u64) returns (z0: u64, z1: u64)
    requires hh * B64 + (lh + hl) * B32 + ll < B128
    ensures Val2(z0, z1) == hh * B64 + (lh + hl) * B32 + ll
  {
    var middle := Add(lh, hl);
    var carry := Bit(middle < hl);
    var low := Shl(middle, 32);
    z1 := Add(ll, low);
    var carry2 := Bit(z1 < low);
    ghost var z := MergedHigh(hh, lh, hl, ll);
    z0 := Add(hh, Add(Shl(carry, 32), Shr(middle, 32)));
    z0 := Add(z0, carry2);
  }

  lemma {:induction false} ShiftCarry(c: u64)
    requires c <= 1
    ensures Shl(c, 32) == c * B32
  {
    Pow2Values();
  }

  lemma {:induction false} MergedHigh(hh: u64, lh: u64, hl: u64, ll: u64) returns (z: u64)
    requires hh * B64 + (lh + hl) * B32 + ll < B128
    ensures var middle := Add(lh, hl);
      var low := Shl(middle, 32);
      var z1 := Add(ll, low);
      && z == Add(Add(hh, Add(Shl(Bit(middle < hl), 32), Shr(middle, 32))), Bit(z1 < low))
      && Val2(z, z1) == hh * B64 + (lh + hl) * B32 + ll
  {
    var middle := Add(lh, hl);
    var c := Bit(middle < hl);
    AddCarry(lh, hl);
    HalfWords(middle);
    var low := Shl(middle, 32);
    var z1 := Add(ll, low);
    var c2 := Bit(z1 < low);
    AddCarry(ll, low);
    var sum := hh + c * B32 + middle / B32 + c2;
    Recombine(ll, lh, hl, hh, middle, c, z1, c2, sum);
    z := sum;
    ShiftCarry(c);
    AddExact(Shl(c, 32), Shr(middle, 32));
    AddExact(hh, Add(Shl(c, 32), Shr(middle, 32)));
    AddExact(Add(hh, Add(Shl(c, 32), Shr(middle, 32))), c2);
  }

  /** add128 of a two-word and a one-word value that together fit. */
  method AddWord(a0: u64, a1: u64, b1: u64) returns (z0: u64, z1: u64)
    requires Val2(a0, a1) + b1 < B128
    ensures Val2(z0, z1) == Val2(a0, a1) + b1
  {
    z0, z1 := Add128(a0, a1, 0, b1);
  }

  lemma {:induction false} Product192(a0: u64, a1: u64, b: u64, z1: int, z2: int, high: int)
    requires z1 * B64 + z2 == a1 * b && high == a0 * b + z1
    ensures high * B64 + z2 == Val2(a0, a1) * b
  {
    assert (a0 * B64 + a1) * b == a0 * b * B64 + a1 * b;
  }

  method Mul128By64To192(a0: u64, a1: u64, b: u64) returns (z0: u64, z1: u64, z2: u64)
    ensures Val3(z0, z1, z2) == Val2(a0, a1) * b
  {
    z1, z2 := Mul64To128(a1, b);
    var more1;
    z0, more1 := Mul64To128(a0, b);
    HighPart(a0, b, z1);
    Product192(a0, a1, b, z1, z2, Val2(z0, more1) + z1);
    z0, z1 := AddWord(z0, more1, z1);
  }

  /** The four products of mul128To256, added column by column. */
  lemma {:induction false} Product256(a0: u64, a1: u64, b0: u64, b1: u64, p2: int, p3: int, y1: int, y2: int,
                                      t: int, m: int, w2: int)
    requires p2 * B64 + p3 == a1 * b1 && y1 * B64 + y2 == a1 * b0 + p2
    requires t == a0 * b0 + y1 && m * B64 + w2 == a0 * b1 + y2
    ensures ((t + m) * B64 + w2) * B64 + p3 == Val2(a0, a1) * Val2(b0, b1)
  {
    var b := Val2(b0, b1);
    assert (a0 * B64 + a1) * b == a0 * b * B64 + a1 * b;
    assert a0 * (b0 * B64 + b1) == a0 * b0 * B64 + a0 * b1;
    assert a1 * (b0 * B64 + b1) == a1 * b0 * B64 + a1 * b1;
  }

  /** The sum of the two high columns fits, because the whole product does. */
  lemma {:induction false} NoOverflow256(a0: u64, a1: u64, b0: u64, b1: u64, high: int, w2: nat, p3: nat)
    requires (high * B64 + w2) * B64 + p3 == Val2(a0, a1) * Val2(b0, b1)
    ensures high < B128
  {
    assert Val2(a0, a1) < B128 && Val2(b0, b1) < B128;
    MulMono(Val2(a0, a1), Val2(b0, b1), B128 - 1);
    MulMono(B128 - 1, Val2(a0, a1), B128 - 1);
  }

  method Mul128To256(a0: u64, a1: u64, b0: u64, b1: u64) returns (z0: u64, z1: u64, z2: u64, z3: u64)
    ensures Val4(z0, z1, z2, z3) == Val2(a0, a1) * Val2(b0, b1)
  {
    var more1, more2;
    z2, z3 := Mul64To128(a1, b1);
    ghost var p2 := z2;
    z1, more2 := Mul64To128(a1, b0);
    HighPart(a1, b0, z2);
    z1, z2 := AddWord(z1, more2, z2);
    ghost var y1, y2 := z1, z2;
    z0, more1 := Mul64To128(a0, b0);
    HighPart(a0, b0, z1);
    z0, z1 := AddWord(z0, more1, z1);
    more1, more2 := Mul64To128(a0, b1);
    HighPart(a0, b1, z2);
    more1, z2 := AddWord(more1, more2, z2);
    Product256(a0, a1, b0, b1, p2, z3, y1, y2, Val2(z0, z1), more1, z2);
    NoOverflow256(a0, a1, b0, b1, Val2(z0, z1) + more1, z2, z3);
    z0, z1 := AddWord(z0, z1, more1);
  }

  /** A product of two words leaves room for one more word. */
  lemma {:induction false} HighPart(a: u64, b: u64, c: u64)
    ensures a * b + c < B128
  {
    MulMono(a, b, B64 - 1);
  }
}
