/**
 Bitmaps held in arrays of 64-bit words: include/qemu/bitops.h,
 include/qemu/bitmap.h, src/util/bitmap.c and src/util/bitops.c.
 */
module Bitmaps {
  import opened Words

  const ONES: u64 := B64 - 1

  /** Bit `i` of a word, counted from the least significant one. */
  predicate BitAt(w: nat, i: nat) {
    if i == 0 then w % 2 == 1 else BitAt(w / 2, i - 1)
  }

  function And(a: nat, b: nat): (r: nat)
    ensures r <= a && r <= b
  {
    if a == 0 || b == 0 then 0
    else 2 * And(a / 2, b / 2) + (if a % 2 == 1 && b % 2 == 1 then 1 else 0)
  }

  /** C's `~a` on unsigned long. */
  function Not(a: u64): u64 { B64 - 1 - a }

  // ----- single words

  lemma {:induction false} ZeroBits(i: nat)
    ensures !BitAt(0, i)
  {
    if i > 0 { ZeroBits(i - 1); }
  }

  lemma {:induction false} OrBits(a: nat, b: nat, i: nat)
    ensures BitAt(Or(a, b), i) == (BitAt(a, i) || BitAt(b, i))
  {
    if a == 0 || b == 0 {
      ZeroBits(i);
    } else if i > 0 {
      OrBits(a / 2, b / 2, i - 1);
    }
  }

  lemma {:induction false} AndBits(a: nat, b: nat, i: nat)
    ensures BitAt(And(a, b), i) == (BitAt(a, i) && BitAt(b, i))
  {
    if a == 0 || b == 0 {
      ZeroBits(i);
    } else if i > 0 {
      AndBits(a / 2, b / 2, i - 1);
    }
  }

  lemma {:induction false} ComplementBits(a: nat, n: nat, i: nat)
    requires a < Pow2(n) && i < n
    ensures BitAt(Pow2(n) - 1 - a, i) == !BitAt(a, i)
  {
    if i > 0 {
      assert (2 * Pow2(n - 1) - 1 - a) / 2 == Pow2(n - 1) - 1 - a / 2;
      ComplementBits(a / 2, n - 1, i - 1);
    }
  }

  lemma {:induction false} NotBits(a: u64, i: nat)
    requires i < 64
    ensures BitAt(Not(a), i) == !BitAt(a, i)
  {
    Pow2Values();
    ComplementBits(a, 64, i);
  }

  /** The bits of 2^n - 1. */
  lemma {:induction false} LowBits(n: nat, i: nat)
    ensures BitAt(Pow2(n) - 1, i) == (i < n)
  {
    if n == 0 {
      ZeroBits(i);
    } else if i > 0 {
      assert (2 * Pow2(n - 1) - 1) / 2 == Pow2(n - 1) - 1;
      LowBits(n - 1, i - 1);
    }
  }

  /** A left shift moves every bit up. */
  lemma {:induction false} ScaledBits(a: nat, n: nat, i: nat)
    ensures BitAt(a * Pow2(n), i) == (i >= n && BitAt(a, i - n))
  {
    if n > 0 {
      DoubleProduct(a, Pow2(n - 1));
      DoubledBits(a * Pow2(n - 1), i);
      if i > 0 { ScaledBits(a, n - 1, i - 1); }
    }
  }

  lemma {:induction false} DoubledBits(x: nat, i: nat)
    ensures BitAt(2 * x, i) == (i > 0 && BitAt(x, i - 1))
  {
  }

  /** What is cut off above bit n does not touch the bits below. */
  lemma {:induction false} ModBits(a: nat, n: nat, i: nat)
    requires i < n
    ensures BitAt(a % Pow2(n), i) == BitAt(a, i)
  {
    HalfMod(a, Pow2(n - 1));
    if i > 0 { ModBits(a / 2, n - 1, i - 1); }
  }

  lemma {:induction false} HalfMod(a: nat, p: nat)
    requires p >= 1
    ensures (a % (2 * p)) % 2 == a % 2 && (a % (2 * p)) / 2 == (a / 2) % p
  {
    DivMod(a / 2, p);
    var q, r := (a / 2) / p, (a / 2) % p;
    assert a == q * (2 * p) + (2 * r + a % 2);
    DivUnique(a, 2 * p, q, 2 * r + a % 2);
  }

  /** A right shift moves every bit down. */
  lemma {:induction false} ShrBits(a: nat, n: nat, i: nat)
    ensures a / Pow2(n) >= 0 && BitAt(a / Pow2(n), i) == BitAt(a, i + n)
  {
    if n > 0 {
      HalfDiv(a, Pow2(n - 1));
      ShrBits(a / 2, n - 1, i);
    }
  }

  lemma {:induction false} HalfDiv(a: nat, p: nat)
    requires p >= 1
    ensures a / (2 * p) == (a / 2) / p
  {
    DivMod(a / 2, p);
    var q, r := (a / 2) / p, (a / 2) % p;
    DivUnique(a, 2 * p, q, 2 * r + a % 2);
  }

  lemma {:induction false} SomeBit(w: nat, n: nat)
    requires 0 < w < Pow2(n)
    ensures exists i :: 0 <= i < n && BitAt(w, i)
  {
    if w % 2 == 1 {
      assert BitAt(w, 0);
    } else {
      SomeBit(w / 2, n - 1);
      var i :| 0 <= i < n - 1 && BitAt(w / 2, i);
      assert BitAt(w, i + 1);
    }
  }

  /** A word is zero when all its bits are. */
  lemma {:induction false} WordZero(w: u64)
    ensures w == 0 <==> forall i :: 0 <= i < 64 ==> !BitAt(w, i)
  {
    Pow2Values();
    if w == 0 {
      forall i | 0 <= i < 64 ensures !BitAt(w, i) { ZeroBits(i); }
    } else {
      SomeBit(w, 64);
    }
  }

  /** ctzl: the position of the lowest bit that is set */
  function Ctz(w: nat): (n: nat)
    requires w > 0
    ensures BitAt(w, n) && forall i :: 0 <= i < n ==> !BitAt(w, i)
  {
    if w % 2 == 1 then 0
    else
      assert forall i :: 0 < i ==> BitAt(w, i) == BitAt(w / 2, i - 1);
      1 + Ctz(w / 2)
  }

  // ----- masks

  /** The word has exactly the bits lo, ..., hi - 1. */
  ghost predicate Span(mask: u64, lo: nat, hi: nat) {
    forall i :: 0 <= i < 64 ==> BitAt(mask, i) == (lo <= i < hi)
  }

  lemma {:induction false} SpanOnes()
    ensures Span(ONES, 0, 64)
  {
    Pow2Values();
    forall i | 0 <= i < 64 ensures BitAt(ONES, i) { LowBits(64, i); }
  }

  /** `~0UL << k` */
  lemma {:induction false} SpanHigh(k: nat)
    requires k < 64
    ensures Span(Shl(ONES, k), k, 64)
  {
    Pow2Values();
    forall i | 0 <= i < 64 ensures BitAt(Shl(ONES, k), i) == (k <= i) {
      ModBits(ONES * Pow2(k), 64, i);
      ScaledBits(ONES, k, i);
      if i >= k { LowBits(64, i - k); }
    }
  }

  /** `~0UL >> k` */
  lemma {:induction false} SpanLow(k: nat)
    requires k < 64
    ensures Span(Shr(ONES, k), 0, 64 - k)
  {
    Pow2Values();
    forall i | 0 <= i < 64 ensures BitAt(Shr(ONES, k), i) == (i < 64 - k) {
      ShrBits(ONES, k, i);
      LowBits(64, i + k);
    }
  }

  /** `1UL << k` */
  lemma {:induction false} SpanBit(k: nat)
    requires k < 64
    ensures Span(Shl(1, k), k, k + 1)
  {
    Pow2Values();
    forall i | 0 <= i < 64 ensures BitAt(Shl(1, k), i) == (i == k) {
      ModBits(1 * Pow2(k), 64, i);
      ScaledBits(1, k, i);
      if i >= k { LowBits(1, i - k); }
    }
  }

  lemma {:induction false} SpanAnd(a: u64, b: u64, lo: nat, hi: nat)
    requires Span(a, lo, 64) && Span(b, 0, hi)
    ensures Span(And(a, b), lo, hi)
  {
    forall i | 0 <= i < 64 ensures BitAt(And(a, b), i) == (lo <= i < hi) { AndBits(a, b, i); }
  }

  /** BITMAP_FIRST_WORD_MASK */
  function FirstWordMask(start: nat): u64 { Shl(ONES, start % 64) }

  /** BITMAP_LAST_WORD_MASK */
  function LastWordMask(nbits: nat): u64 { Shr(ONES, NegMod(nbits)) }

  lemma {:induction false} LastMask(w: nat, hi: nat)
    requires 0 < hi <= 64
    ensures Span(LastWordMask(64 * w + hi), 0, hi)
  {
    assert NegMod(64 * w + hi) == 64 - hi;
    SpanLow(64 - hi);
  }

  // ----- words in a row

  predicate Has(s: seq<u64>, i: nat)
    requires i < 64 * |s|
  {
    BitAt(s[i / 64], i % 64)
  }

  /** `t` is `s` with the bits lo, ..., hi - 1 set. */
  ghost predicate Filled(s: seq<u64>, t: seq<u64>, lo: nat, hi: nat) {
    |s| == |t| && forall i: nat :: i < 64 * |s| ==> Has(t, i) == (lo <= i < hi || Has(s, i))
  }

  /** `t` is `s` with the bits lo, ..., hi - 1 cleared. */
  ghost predicate Emptied(s: seq<u64>, t: seq<u64>, lo: nat, hi: nat) {
    |s| == |t| && forall i: nat :: i < 64 * |s| ==> Has(t, i) == (!(lo <= i < hi) && Has(s, i))
  }

  /** One of the bits lo, ..., hi - 1 has the value b. */
  ghost predicate Some(s: seq<u64>, lo: nat, hi: nat, b: bool)
    requires hi <= 64 * |s|
  {
    exists i: nat :: lo <= i < hi && Has(s, i) == b
  }

  /** Bit `r` is the first of lo, ..., hi - 1 that has the value b. */
  ghost predicate First(s: seq<u64>, lo: nat, hi: nat, b: bool, r: nat)
    requires hi <= 64 * |s|
  {
    lo <= r < hi && Has(s, r) == b && !Some(s, lo, r, b)
  }

  lemma {:induction false} FilledWord(s: seq<u64>, w: nat, v: u64, lo: nat, hi: nat)
    requires w < |s| && hi <= 64
    requires forall i :: 0 <= i < 64 ==> BitAt(v, i) == (lo <= i < hi || BitAt(s[w], i))
    ensures Filled(s, s[w := v], 64 * w + lo, 64 * w + hi)
  {
  }

  lemma {:induction false} OrWord(s: seq<u64>, w: nat, mask: u64, lo: nat, hi: nat)
    requires w < |s| && hi <= 64 && Span(mask, lo, hi)
    ensures Or(s[w], mask) < B64 && Filled(s, s[w := Or(s[w], mask)], 64 * w + lo, 64 * w + hi)
  {
    Pow2Values();
    OrBound(s[w], mask, 64);
    forall i | 0 <= i < 64 ensures BitAt(Or(s[w], mask), i) == (lo <= i < hi || BitAt(s[w], i)) {
      OrBits(s[w], mask, i);
    }
    FilledWord(s, w, Or(s[w], mask), lo, hi);
  }

  lemma {:induction false} EmptiedWord(s: seq<u64>, w: nat, v: u64, lo: nat, hi: nat)
    requires w < |s| && hi <= 64
    requires forall i :: 0 <= i < 64 ==> BitAt(v, i) == (!(lo <= i < hi) && BitAt(s[w], i))
    ensures Emptied(s, s[w := v], 64 * w + lo, 64 * w + hi)
  {
  }

  lemma {:induction false} AndNotWord(s: seq<u64>, w: nat, mask: u64, lo: nat, hi: nat)
    requires w < |s| && hi <= 64 && Span(mask, lo, hi)
    ensures Emptied(s, s[w := And(s[w], Not(mask))], 64 * w + lo, 64 * w + hi)
  {
    forall i | 0 <= i < 64 ensures BitAt(And(s[w], Not(mask)), i) == (!(lo <= i < hi) && BitAt(s[w], i)) {
      AndBits(s[w], Not(mask), i);
      NotBits(mask, i);
    }
    EmptiedWord(s, w, And(s[w], Not(mask)), lo, hi);
  }

  /** The bits of `tmp` mark where the bits lo, ..., hi - 1 of `w` have the value b. */
  ghost predicate Marks(tmp: u64, w: u64, lo: nat, hi: nat, b: bool) {
    forall i :: 0 <= i < 64 ==> BitAt(tmp, i) == (lo <= i < hi && BitAt(w, i) == b)
  }

  lemma {:induction false} MarksAnd(w: u64, mask: u64, lo: nat, hi: nat)
    requires Span(mask, lo, hi)
    ensures Marks(And(w, mask), w, lo, hi, true)
  {
    forall i | 0 <= i < 64 ensures BitAt(And(w, mask), i) == (lo <= i < hi && BitAt(w, i)) {
      AndBits(w, mask, i);
    }
  }

  lemma {:induction false} NoMark(s: seq<u64>, w: nat, lo: nat, hi: nat, b: bool)
    requires w < |s| && hi <= 64 && Marks(0, s[w], lo, hi, b)
    ensures !Some(s, 64 * w + lo, 64 * w + hi, b)
  {
    forall i: nat | 64 * w + lo <= i < 64 * w + hi ensures Has(s, i) != b {
      ZeroBits(i % 64);
    }
  }

  lemma {:induction false} CtzBelow(w: u64)
    requires w > 0
    ensures Ctz(w) < 64
  {
    WordZero(w);
    var k :| 0 <= k < 64 && BitAt(w, k);
    assert Ctz(w) <= k;
  }

  /** The lowest mark stands for the first such bit. */
  lemma {:induction false} FirstMark(s: seq<u64>, w: nat, tmp: u64, lo: nat, hi: nat, b: bool)
    requires w < |s| && hi <= 64 && Marks(tmp, s[w], lo, hi, b) && tmp > 0
    ensures lo <= Ctz(tmp) < hi && First(s, 64 * w + lo, 64 * w + hi, b, 64 * w + Ctz(tmp))
  {
    var c := Ctz(tmp);
    CtzBelow(tmp);
    forall i: nat | 64 * w + lo <= i < 64 * w + c ensures Has(s, i) != b {
      assert i / 64 == w && i % 64 == i - 64 * w;
      assert !BitAt(tmp, i - 64 * w);
    }
    assert (64 * w + c) / 64 == w && (64 * w + c) % 64 == c;
  }

  // ----- include/qemu/bitops.h

  /** test_bit */
  method TestBit(nr: nat, words: array<u64>) returns (b: bool)
    requires nr < 64 * words.Length
    ensures b == Has(words[..], nr)
  {
    ShrBits(words[nr / 64], nr % 64, 0);
    b := Shr(words[nr / 64], nr % 64) % 2 == 1;
  }

  /** set_bit, and set_bit_atomic as one step */
  method SetBit(nr: nat, words: array<u64>)
    requires nr < 64 * words.Length
    modifies words
    ensures Filled(old(words[..]), words[..], nr, nr + 1)
  {
    var mask, p := Shl(1, nr % 64), nr / 64;
    SpanBit(nr % 64);
    OrWord(words[..], p, mask, nr % 64, nr % 64 + 1);
    words[p] := Or(words[p], mask);
    assert words[..] == old(words[..])[p := words[p]];
  }

  /** clear_bit */
  method ClearBit(nr: nat, words: array<u64>)
    requires nr < 64 * words.Length
    modifies words
    ensures Emptied(old(words[..]), words[..], nr, nr + 1)
  {
    var mask, p := Shl(1, nr % 64), nr / 64;
    SpanBit(nr % 64);
    AndNotWord(words[..], p, mask, nr % 64, nr % 64 + 1);
    words[p] := And(words[p], Not(mask));
    assert words[..] == old(words[..])[p := words[p]];
  }

  // ----- src/util/bitmap.c

  lemma {:induction false} FilledOn(s: seq<u64>, t: seq<u64>, u: seq<u64>, lo: nat, mid: nat, hi: nat)
    requires Filled(s, t, lo, mid) && Filled(t, u, mid, hi) && lo <= mid <= hi
    ensures Filled(s, u, lo, hi)
  {
  }

  /** qatomic_or on one word */
  method OrInto(words: array<u64>, p: nat, mask: u64, ghost lo: nat, ghost hi: nat)
    requires p < words.Length && hi <= 64 && Span(mask, lo, hi)
    modifies words
    ensures Filled(old(words[..]), words[..], 64 * p + lo, 64 * p + hi)
  {
    OrWord(words[..], p, mask, lo, hi);
    words[p] := Or(words[p], mask);
    assert words[..] == old(words[..])[p := words[p]];
  }

  /** The loop over whole words: stops when fewer than 64 bits are left. */
  method FillWords(words: array<u64>, first: nat, nr: nat) returns (p: nat, n: nat)
    requires 64 * first + nr <= 64 * words.Length
    modifies words
    ensures n < 64 && 64 * p + n == 64 * first + nr
    ensures Filled(old(words[..]), words[..], 64 * first, 64 * p)
  {
    SpanOnes();
    p, n := first, nr;
    while n >= 64
      invariant first <= p && 64 * p + n == 64 * first + nr
      invariant Filled(old(words[..]), words[..], 64 * first, 64 * p)
    {
      ghost var was := words[..];
      FilledWord(was, p, ONES, 0, 64);
      words[p] := ONES;
      assert words[..] == was[p := ONES];
      FilledOn(old(words[..]), was, words[..], 64 * first, 64 * p, 64 * p + 64);
      n, p := n - 64, p + 1;
    }
  }

  /** The first word, when the range goes on after it. */
  method FillFirst(words: array<u64>, start: nat, nr: nat) returns (p: nat, n: nat, room: nat, mask: u64)
    requires start + nr <= 64 * words.Length
    modifies words
    ensures 1 <= room <= 64 && n <= (if room < 64 then room else nr) && 64 * p + 64 - room + n == start + nr
    ensures Span(mask, 64 - room, 64) && start <= 64 * p + 64 - room
    ensures Filled(old(words[..]), words[..], start, 64 * p + 64 - room)
  {
    p, n := start / 64, nr;
    room, mask := 64 - start % 64, FirstWordMask(start);
    SpanHigh(start % 64);
    if n - room > 0 {
      OrInto(words, p, mask, 64 - room, 64);
      SpanOnes();
      n, room, mask, p := n - room, 64, ONES, p + 1;
    }
  }

  /** The last word: the bits from `size` on stay. */
  method FillLast(words: array<u64>, p: nat, mask: u64, size: nat, ghost s: seq<u64>, ghost start: nat, ghost lo: nat)
    requires p < words.Length && 64 * p + lo < size <= 64 * p + 64 && Span(mask, lo, 64)
    requires start <= 64 * p + lo && Filled(s, words[..], start, 64 * p + lo)
    modifies words
    ensures Filled(s, words[..], start, size)
  {
    ghost var was := words[..];
    ghost var hi := size - 64 * p;
    LastMask(p, hi);
    SpanAnd(mask, LastWordMask(size), lo, hi);
    OrInto(words, p, And(mask, LastWordMask(size)), lo, hi);
    FilledOn(s, was, words[..], start, 64 * p + lo, size);
  }

  /** bitmap_set_atomic */
  method BitmapSet(words: array<u64>, start: nat, nr: nat)
    requires start + nr <= 64 * words.Length
    modifies words
    ensures Filled(old(words[..]), words[..], start, start + nr)
  {
    ghost var was := words[..];
    var p, n, room, mask := FillFirst(words, start, nr);
    if room == 64 {
      ghost var before, first := words[..], p;
      p, n := FillWords(words, p, n);
      FilledOn(was, before, words[..], start, 64 * first, 64 * p);
    }
    if n != 0 {
      FillLast(words, p, mask, start + nr, was, start, 64 - room);
    }
  }

  /** The bits lo, ..., hi - 1 of `s` were cleared, and `dirty` says whether one of them had been set. */
  ghost predicate Taken(s: seq<u64>, t: seq<u64>, lo: nat, hi: nat, dirty: u64) {
    hi <= 64 * |s| && Emptied(s, t, lo, hi) && (dirty != 0 <==> Some(s, lo, hi, true))
  }

  lemma {:induction false} TakenOn(s: seq<u64>, t: seq<u64>, u: seq<u64>, lo: nat, mid: nat, hi: nat, d: u64, e: u64)
    requires Taken(s, t, lo, mid, d) && Taken(t, u, mid, hi, e) && lo <= mid <= hi
    ensures Or(d, e) < B64 && Taken(s, u, lo, hi, Or(d, e))
  {
    Pow2Values();
    OrBound(d, e, 64);
    OrZero(d, e);
    SomeTaken(s, t, lo, mid, hi);
  }

  lemma {:induction false} SomeTaken(s: seq<u64>, t: seq<u64>, lo: nat, mid: nat, hi: nat)
    requires Emptied(s, t, lo, mid) && lo <= mid <= hi <= 64 * |s|
    ensures Some(s, lo, hi, true) <==> Some(s, lo, mid, true) || Some(t, mid, hi, true)
  {
    assert forall i: nat :: mid <= i < hi ==> Has(t, i) == Has(s, i);
  }

  lemma {:induction false} TakenWord(s: seq<u64>, w: nat, mask: u64, lo: nat, hi: nat)
    requires w < |s| && lo <= hi <= 64 && Span(mask, lo, hi)
    ensures Taken(s, s[w := And(s[w], Not(mask))], 64 * w + lo, 64 * w + hi, And(s[w], mask))
  {
    AndNotWord(s, w, mask, lo, hi);
    MarksAnd(s[w], mask, lo, hi);
    if And(s[w], mask) == 0 {
      NoMark(s, w, lo, hi, true);
    } else {
      FirstMark(s, w, And(s[w], mask), lo, hi, true);
    }
  }

  lemma {:induction false} TakenAll(s: seq<u64>, w: nat)
    requires w < |s|
    ensures Taken(s, s[w := 0], 64 * w, 64 * w + 64, s[w])
    ensures s[w] == 0 ==> s[w := 0] == s
  {
    SpanOnes();
    Pow2Values();
    AndOnes(s[w], 64);
    AndZero(s[w]);
    TakenWord(s, w, ONES, 0, 64);
  }

  lemma {:induction false} AndOnes(a: nat, n: nat)
    requires a < Pow2(n)
    ensures And(a, Pow2(n) - 1) == a
  {
    if a > 0 {
      assert (2 * Pow2(n - 1) - 1) / 2 == Pow2(n - 1) - 1;
      AndOnes(a / 2, n - 1);
    }
  }

  lemma {:induction false} AndZero(a: u64)
    ensures And(a, Not(ONES)) == 0
  {
  }

  /** qatomic_fetch_and on one word, adding what it took to `dirty` */
  method TakeFrom(words: array<u64>, p: nat, mask: u64, dirty: u64, ghost s: seq<u64>, ghost start: nat,
                  ghost lo: nat, ghost hi: nat)
    returns (d: u64)
    requires p < words.Length && lo <= hi <= 64 && Span(mask, lo, hi)
    requires start <= 64 * p + lo && Taken(s, words[..], start, 64 * p + lo, dirty)
    modifies words
    ensures Taken(s, words[..], start, 64 * p + hi, d)
  {
    ghost var was := words[..];
    var oldBits := words[p];
    TakenWord(was, p, mask, lo, hi);
    words[p] := And(oldBits, Not(mask));
    assert words[..] == was[p := words[p]];
    TakenOn(s, was, words[..], start, 64 * p + lo, 64 * p + hi, dirty, And(oldBits, mask));
    d := Or(dirty, And(oldBits, mask));
  }

  /** The loop over whole words: a word that is zero already is not written. */
  method TakeWords(words: array<u64>, first: nat, nr: nat, dirty: u64, ghost s: seq<u64>, ghost start: nat)
    returns (p: nat, n: nat, d: u64)
    requires start <= 64 * first && 64 * first + nr <= 64 * words.Length
    requires Taken(s, words[..], start, 64 * first, dirty)
    modifies words
    ensures n < 64 && 64 * p + n == 64 * first + nr
    ensures Taken(s, words[..], start, 64 * p, d)
  {
    p, n, d := first, nr, dirty;
    while n >= 64
      invariant first <= p && 64 * p + n == 64 * first + nr
      invariant Taken(s, words[..], start, 64 * p, d)
    {
      ghost var was := words[..];
      TakenAll(was, p);
      TakenOn(s, was, was[p := 0], start, 64 * p, 64 * p + 64, d, was[p]);
      OrZero(d, 0);
      if words[p] != 0 {
        d := Or(d, words[p]);
        words[p] := 0;
      }
      assert words[..] == was[p := 0];
      n, p := n - 64, p + 1;
    }
  }

  /** The last word: the bits from `size` on stay. */
  method TakeLast(words: array<u64>, p: nat, mask: u64, size: nat, dirty: u64, ghost s: seq<u64>, ghost start: nat,
                  ghost lo: nat)
    returns (d: u64)
    requires p < words.Length && 64 * p + lo < size <= 64 * p + 64 && Span(mask, lo, 64)
    requires start <= 64 * p + lo && Taken(s, words[..], start, 64 * p + lo, dirty)
    modifies words
    ensures Taken(s, words[..], start, size, d)
  {
    ghost var hi := size - 64 * p;
    LastMask(p, hi);
    SpanAnd(mask, LastWordMask(size), lo, hi);
    d := TakeFrom(words, p, And(mask, LastWordMask(size)), dirty, s, start, lo, hi);
  }

  /** The first word, when the range goes on after it. */
  method TakeFirst(words: array<u64>, start: nat, nr: nat) returns (p: nat, n: nat, room: nat, mask: u64, dirty: u64)
    requires start + nr <= 64 * words.Length
    modifies words
    ensures 1 <= room <= 64 && n <= (if room < 64 then room else nr) && 64 * p + 64 - room + n == start + nr
    ensures Span(mask, 64 - room, 64) && start <= 64 * p + 64 - room
    ensures Taken(old(words[..]), words[..], start, 64 * p + 64 - room, dirty)
  {
    p, n := start / 64, nr;
    room, mask, dirty := 64 - start % 64, FirstWordMask(start), 0;
    SpanHigh(start % 64);
    if n - room > 0 {
      dirty := TakeFrom(words, p, mask, dirty, words[..], start, 64 - room, 64);
      SpanOnes();
      n, room, mask, p := n - room, 64, ONES, p + 1;
    }
  }

  /** bitmap_test_and_clear_atomic */
  method BitmapTestAndClear(words: array<u64>, start: nat, nr: nat) returns (b: bool)
    requires start + nr <= 64 * words.Length
    modifies words
    ensures Emptied(old(words[..]), words[..], start, start + nr)
    ensures b <==> Some(old(words[..]), start, start + nr, true)
  {
    ghost var was := words[..];
    var p, n, room, mask, dirty := TakeFirst(words, start, nr);
    if room == 64 {
      p, n, dirty := TakeWords(words, p, n, dirty, was, start);
    }
    if n != 0 {
      dirty := TakeLast(words, p, mask, start + nr, dirty, was, start, 64 - room);
    }
    b := dirty != 0;
  }

  // ----- src/util/bitops.c

  /** `r` answers a search among offset, ..., size - 1: the first match, or `size`. */
  ghost predicate Answer(s: seq<u64>, offset: nat, size: nat, b: bool, r: nat)
    requires size <= 64 * |s|
  {
    if Some(s, offset, size, b) then First(s, offset, size, b, r) else r == size
  }

  /** A match in a word completes a search that found nothing before. */
  lemma {:induction false} Completes(s: seq<u64>, offset: nat, size: nat, b: bool, mid: nat, hi: nat, r: nat)
    requires offset <= mid <= hi <= size <= 64 * |s| && !Some(s, offset, mid, b)
    requires First(s, mid, hi, b, r)
    ensures Answer(s, offset, size, b, r)
  {
    assert Has(s, r) == b;
  }

  /** The search goes on past a stretch without a match. */
  lemma {:induction false} GoesOn(s: seq<u64>, offset: nat, mid: nat, hi: nat, b: bool)
    requires offset <= mid <= hi <= 64 * |s| && !Some(s, offset, mid, b) && !Some(s, mid, hi, b)
    ensures !Some(s, offset, hi, b)
  {
    forall i: nat | offset <= i < hi ensures Has(s, i) != b {
      assert i < mid || mid <= i;
    }
  }

  lemma {:induction false} MarkedNone(s: seq<u64>, w: nat, lo: nat, hi: nat, b: bool, offset: nat)
    requires w < |s| && lo <= hi <= 64 && Marks(0, s[w], lo, hi, b)
    requires offset <= 64 * w + lo && !Some(s, offset, 64 * w + lo, b)
    ensures !Some(s, offset, 64 * w + hi, b)
  {
    NoMark(s, w, lo, hi, b);
    GoesOn(s, offset, 64 * w + lo, 64 * w + hi, b);
  }

  lemma {:induction false} MarkedSome(s: seq<u64>, w: nat, tmp: u64, lo: nat, hi: nat, b: bool, offset: nat, size: nat)
    requires w < |s| && lo <= hi <= 64 && Marks(tmp, s[w], lo, hi, b) && tmp > 0
    requires offset <= 64 * w + lo && !Some(s, offset, 64 * w + lo, b) && 64 * w + hi <= size <= 64 * |s|
    ensures Answer(s, offset, size, b, 64 * w + Ctz(tmp))
  {
    FirstMark(s, w, tmp, lo, hi, b);
    Completes(s, offset, size, b, 64 * w + lo, 64 * w + hi, 64 * w + Ctz(tmp));
  }

  /** The labels found_first and found_middle: the last word of the search. */
  lemma {:induction false} Final(s: seq<u64>, w: nat, tmp: u64, lo: nat, n: nat, b: bool, offset: nat)
    requires w < |s| && lo <= n <= 64 && Marks(tmp, s[w], lo, n, b)
    requires offset <= 64 * w + lo && !Some(s, offset, 64 * w + lo, b)
    ensures Answer(s, offset, 64 * w + n, b, 64 * w + if tmp == 0 then n else Ctz(tmp))
  {
    if tmp == 0 {
      MarkedNone(s, w, lo, n, b, offset);
    } else {
      MarkedSome(s, w, tmp, lo, n, b, offset, 64 * w + n);
    }
  }

  lemma {:induction false} Middle(s: seq<u64>, w: nat, tmp: u64, lo: nat, b: bool, offset: nat, size: nat)
    requires w < |s| && lo <= 64 && Marks(tmp, s[w], lo, 64, b) && 64 * w + 64 <= size <= 64 * |s|
    requires offset <= 64 * w + lo && !Some(s, offset, 64 * w + lo, b)
    ensures if tmp == 0 then !Some(s, offset, 64 * w + 64, b) else Answer(s, offset, size, b, 64 * w + Ctz(tmp))
  {
    if tmp == 0 {
      MarkedNone(s, w, lo, 64, b, offset);
    } else {
      MarkedSome(s, w, tmp, lo, 64, b, offset, size);
    }
  }

  /** A whole word is its own mark. */
  lemma {:induction false} MarksWord(w: u64)
    ensures Marks(w, w, 0, 64, true)
  {
  }

  /** `tmp & (~0UL >> (64 - n))` */
  lemma {:induction false} MarksLow(tmp: u64, w: u64, lo: nat, n: nat)
    requires 0 < n < 64 && Marks(tmp, w, lo, 64, true)
    ensures Marks(And(tmp, Shr(ONES, 64 - n)), w, lo, n, true)
  {
    SpanLow(64 - n);
    forall i | 0 <= i < 64 ensures BitAt(And(tmp, Shr(ONES, 64 - n)), i) == (lo <= i < n && BitAt(w, i)) {
      AndBits(tmp, Shr(ONES, 64 - n), i);
    }
  }

  /** The first loop of find_next_bit: four words at a time, until one of them is not zero. */
  method SkipWords(words: array<u64>, p0: nat, n0: nat, ghost offset: nat) returns (p: nat, n: nat)
    requires 64 * p0 + n0 <= 64 * words.Length && offset <= 64 * p0 && !Some(words[..], offset, 64 * p0, true)
    ensures 64 * p + n == 64 * p0 + n0 && p0 <= p
    ensures !Some(words[..], offset, 64 * p, true)
  {
    p, n := p0, n0;
    while n >= 4 * 64
      invariant 64 * p + n == 64 * p0 + n0 && p0 <= p
      invariant !Some(words[..], offset, 64 * p, true)
    {
      var tmp, d1, d2, d3 := words[p], words[p + 1], words[p + 2], words[p + 3];
      if tmp != 0 || Or(Or(d1, d2), d3) != 0 {
        break;
      }
      OrZero(d1, d2);
      OrZero(Or(d1, d2), d3);
      ZeroWord(words[..], offset, p);
      ZeroWord(words[..], offset, p + 1);
      ZeroWord(words[..], offset, p + 2);
      ZeroWord(words[..], offset, p + 3);
      p, n := p + 4, n - 4 * 64;
    }
  }

  lemma {:induction false} ZeroWord(s: seq<u64>, offset: nat, w: nat)
    requires w < |s| && s[w] == 0 && offset <= 64 * w && !Some(s, offset, 64 * w, true)
    ensures !Some(s, offset, 64 * w + 64, true)
  {
    MarksWord(s[w]);
    Middle(s, w, s[w], 0, true, offset, 64 * |s|);
  }

  /** The search from a word boundary on. */
  method FindFrom(words: array<u64>, p0: nat, n0: nat, ghost offset: nat) returns (r: nat)
    requires 64 * p0 + n0 <= 64 * words.Length && offset <= 64 * p0 && !Some(words[..], offset, 64 * p0, true)
    ensures Answer(words[..], offset, 64 * p0 + n0, true, r)
  {
    var p: nat, n: nat := SkipWords(words, p0, n0, offset);
    while n >= 64
      invariant 64 * p + n == 64 * p0 + n0 && p0 <= p
      invariant !Some(words[..], offset, 64 * p, true)
    {
      MarksWord(words[p]);
      Middle(words[..], p, words[p], 0, true, offset, 64 * p + n);
      if words[p] != 0 {
        return 64 * p + Ctz(words[p]);
      }
      p, n := p + 1, n - 64;
    }
    if n == 0 {
      return 64 * p;
    }
    MarksWord(words[p]);
    MarksLow(words[p], words[p], 0, n);
    var tmp := And(words[p], Shr(ONES, 64 - n));
    Final(words[..], p, tmp, 0, n, true, offset);
    r := 64 * p + if tmp == 0 then n else Ctz(tmp);
  }

  /** find_next_bit */
  method FindNextBit(words: array<u64>, size: nat, offset: nat) returns (r: nat)
    requires size <= 64 * words.Length
    ensures Answer(words[..], offset, size, true, r)
  {
    if offset >= size {
      return size;
    }
    var p, n := offset / 64, size - (offset - offset % 64);
    var o := offset % 64;
    if o == 0 {
      r := FindFrom(words, p, n, offset);
      return;
    }
    var tmp := And(words[p], Shl(ONES, o));
    SpanHigh(o);
    MarksAnd(words[p], Shl(ONES, o), o, 64);
    if n < 64 {
      MarksLow(tmp, words[p], o, n);
      tmp := And(tmp, Shr(ONES, 64 - n));
      Final(words[..], p, tmp, o, n, true, offset);
      return 64 * p + if tmp == 0 then n else Ctz(tmp);
    }
    Middle(words[..], p, tmp, o, true, offset, size);
    if tmp != 0 {
      return 64 * p + Ctz(tmp);
    }
    r := FindFrom(words, p + 1, n - 64, offset);
  }

  // ----- find_next_zero_bit

  function Or64(a: u64, b: u64): u64 {
    Pow2Values();
    OrBound(a, b, 64);
    Or(a, b)
  }

  lemma {:induction false} MarksZeros(w: u64)
    ensures Marks(Not(w), w, 0, 64, false)
  {
    forall i | 0 <= i < 64 ensures BitAt(Not(w), i) == !BitAt(w, i) { NotBits(w, i); }
  }

  /** Setting bits in a word hides them from the search for zeros. */
  lemma {:induction false} MarksOr(tmp: u64, mask: u64, w: u64, lo: nat, hi: nat, from: nat, to: nat)
    requires Marks(Not(tmp), w, lo, hi, false)
    requires forall i :: 0 <= i < 64 ==> (lo <= i < hi && !BitAt(mask, i) <==> from <= i < to)
    ensures Marks(Not(Or64(tmp, mask)), w, from, to, false)
  {
    forall i | 0 <= i < 64 ensures BitAt(Not(Or64(tmp, mask)), i) == (from <= i < to && !BitAt(w, i)) {
      NotBits(Or64(tmp, mask), i);
      NotBits(tmp, i);
      OrBits(tmp, mask, i);
      assert Or64(tmp, mask) == Or(tmp, mask);
      assert BitAt(Not(tmp), i) == (lo <= i < hi && !BitAt(w, i));
      assert (lo <= i < hi && !BitAt(mask, i)) == (from <= i < to);
    }
  }

  lemma {:induction false} MarksZerosFrom(w: u64, o: nat)
    requires 0 < o < 64
    ensures Marks(Not(Or64(w, Shr(ONES, 64 - o))), w, o, 64, false)
  {
    MarksZeros(w);
    SpanLow(64 - o);
    MarksOr(w, Shr(ONES, 64 - o), w, 0, 64, o, 64);
  }

  lemma {:induction false} MarksZerosBelow(tmp: u64, w: u64, lo: nat, n: nat)
    requires n < 64 && Marks(Not(tmp), w, lo, 64, false)
    ensures Marks(Not(Or64(tmp, Shl(ONES, n))), w, lo, n, false)
  {
    SpanHigh(n);
    MarksOr(tmp, Shl(ONES, n), w, lo, 64, lo, n);
  }

  /** The search from a word boundary on. */
  method FindZeroFrom(words: array<u64>, p0: nat, n0: nat, ghost offset: nat) returns (r: nat)
    requires 64 * p0 + n0 <= 64 * words.Length && offset <= 64 * p0 && !Some(words[..], offset, 64 * p0, false)
    ensures Answer(words[..], offset, 64 * p0 + n0, false, r)
  {
    var p: nat, n: nat := p0, n0;
    while n >= 64
      invariant 64 * p + n == 64 * p0 + n0 && p0 <= p
      invariant !Some(words[..], offset, 64 * p, false)
    {
      MarksZeros(words[p]);
      Middle(words[..], p, Not(words[p]), 0, false, offset, 64 * p + n);
      if Not(words[p]) != 0 {
        return 64 * p + Ctz(Not(words[p]));
      }
      p, n := p + 1, n - 64;
    }
    if n == 0 {
      return 64 * p;
    }
    MarksZeros(words[p]);
    r := FinishZero(words, p, words[p], 0, n, offset);
  }

  /** The label found_first. */
  method FinishZero(words: array<u64>, p: nat, tmp: u64, ghost lo: nat, n: nat, ghost offset: nat) returns (r: nat)
    requires p < words.Length && lo <= n < 64 && Marks(Not(tmp), words[p], lo, 64, false)
    requires offset <= 64 * p + lo && !Some(words[..], offset, 64 * p + lo, false)
    ensures Answer(words[..], offset, 64 * p + n, false, r)
  {
    MarksZerosBelow(tmp, words[p], lo, n);
    var t := Or64(tmp, Shl(ONES, n));
    Final(words[..], p, Not(t), lo, n, false, offset);
    r := 64 * p + if t == ONES then n else Ctz(Not(t));
  }

  /** find_next_zero_bit */
  method FindNextZeroBit(words: array<u64>, size: nat, offset: nat) returns (r: nat)
    requires size <= 64 * words.Length
    ensures Answer(words[..], offset, size, false, r)
  {
    if offset >= size {
      return size;
    }
    var p, n := offset / 64, size - (offset - offset % 64);
    var o := offset % 64;
    if o == 0 {
      r := FindZeroFrom(words, p, n, offset);
      return;
    }
    var tmp := Or64(words[p], Shr(ONES, 64 - o));
    MarksZerosFrom(words[p], o);
    if n < 64 {
      r := FinishZero(words, p, tmp, o, n, offset);
      return;
    }
    Middle(words[..], p, Not(tmp), o, false, offset, size);
    if Not(tmp) != 0 {
      return 64 * p + Ctz(Not(tmp));
    }
    r := FindZeroFrom(words, p + 1, n - 64, offset);
  }
}
