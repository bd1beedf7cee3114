/**
 glib/gstring.c: a growing byte buffer.  `str` is the allocation; its first
 `len` bytes are the string, and the byte after them is zero.
 */
module GStrings {
  import opened Options
  import opened Words
  import opened Utf8

  /** MY_MAXSIZE */
  const MAXSIZE := B64 - 1

  /** Requests above this size cannot be met by any allocation. */
  const MAX_REQUEST := MAXSIZE / 2

  ghost predicate IsPow2(n: nat) { exists k: nat :: n == Pow2(k) }

  // ----- sizes

  /** nearest_power: the least of base, 2 * base, 4 * base, ... that is not below num */
  method NearestPower(base: u64, num: u64) returns (n: u64)
    requires base >= 1
    ensures num > MAXSIZE / 2 ==> n == MAXSIZE
    ensures num <= MAXSIZE / 2 ==>
      && num <= n && (exists k: nat :: n == base * Pow2(k))
      && (n == base || n < 2 * num)
  {
    if num > MAXSIZE / 2 {
      n := MAXSIZE;
    } else {
      n := base;
      ghost var k := 0;
      assert n == base * Pow2(0);
      while n < num
        invariant n == base * Pow2(k) && n >= 1
        invariant n == base || n < 2 * num
        decreases num - n
      {
        DoubleProduct(base, Pow2(k));
        DivUnique(n * 2, B64, 0, n * 2);
        n := (n * 2) % B64;
        k := k + 1;
      }
    }
  }

  lemma {:induction false} Pow2Monotone(j: nat, k: nat)
    requires j <= k
    ensures Pow2(j) <= Pow2(k)
    decreases k
  {
    if j < k { Pow2Monotone(j, k - 1); }
  }

  /** Between powers of two there is a factor of two. */
  lemma {:induction false} Doubles(m: nat, n: nat)
    requires IsPow2(m) && IsPow2(n) && m < n
    ensures 2 * m <= n
  {
    var j: nat :| m == Pow2(j);
    var k: nat :| n == Pow2(k);
    if k <= j { Pow2Monotone(k, j); }
    Pow2Monotone(j + 1, k);
  }

  lemma {:induction false} PowerOfOne(n: nat)
    requires exists k: nat :: n == 1 * Pow2(k)
    ensures IsPow2(n)
  {
    var k: nat :| n == 1 * Pow2(k);
    assert n == Pow2(k);
  }

  // ----- memory

  /** memmove within one allocation: the ranges may overlap. */
  method Memmove(a: array<byte>, dst: nat, src: nat, n: nat)
    requires dst + n <= a.Length && src + n <= a.Length
    modifies a
    ensures a[..] == Filled(old(a[..]), dst, old(a[src..src + n]))
  {
    forall i | dst <= i < dst + n {
      a[i] := a[i - dst + src];
    }
  }

  /** memcpy within one allocation: defined only for ranges that do not overlap. */
  method Memcpy(a: array<byte>, dst: nat, src: nat, n: nat)
    requires dst + n <= a.Length && src + n <= a.Length
    requires dst + n <= src || src + n <= dst
    modifies a
    ensures forall i :: 0 <= i < a.Length ==> a[i] == if dst <= i < dst + n then old(a[i - dst + src]) else old(a[i])
  {
    forall i | dst <= i < dst + n {
      a[i] := a[i - dst + src];
    }
  }

  /** memcpy from other memory. */
  method MemcpyFrom(a: array<byte>, dst: nat, src: seq<byte>)
    requires dst + |src| <= a.Length
    modifies a
    ensures a[..] == Filled(old(a[..]), dst, src)
  {
    forall i | dst <= i < dst + |src| {
      a[i] := src[i - dst];
    }
  }

  /** A buffer after `bytes` have been written at `p`. */
  ghost function Filled(buf: seq<byte>, p: nat, bytes: seq<byte>): seq<byte>
    requires p + |bytes| <= |buf|
  {
    buf[..p] + bytes + buf[p + |bytes|..]
  }

  lemma {:induction false} IsFilled(buf: seq<byte>, now: seq<byte>, p: nat, bytes: seq<byte>)
    requires |now| == |buf| && p + |bytes| <= |buf|
    requires forall i {:trigger now[i]} :: 0 <= i < |buf| ==>
      now[i] == if p <= i < p + |bytes| then bytes[i - p] else buf[i]
    ensures now == Filled(buf, p, bytes)
  {
  }

  /** What the argument `val` of g_string_insert_len points at. */
  datatype Source =
    | Null
    | Outside(mem: seq<byte>)     // memory that is not part of the string
    | Inside(offset: nat)         // a place in the string itself

  /** `pos` as the functions read it: negative means the end. */
  function Position(pos: int, len: nat): int { if pos < 0 then len else pos }

  /** The string with `bytes` put in at `pos`, or as it was when it ends before `pos`. */
  ghost function Spliced(was: seq<byte>, pos: int, bytes: seq<byte>): seq<byte> {
    var p := Position(pos, |was|);
    if p > |was| then was else was[..p] + bytes + was[p..]
  }

  /** Each place of the result: before the position, in the new bytes, after them. */
  lemma {:induction false} SplicedAt(was: seq<byte>, pos: int, bytes: seq<byte>)
    ensures pos < 0 ==> Spliced(was, pos, bytes) == was + bytes
    ensures pos > |was| ==> Spliced(was, pos, bytes) == was
    ensures 0 <= pos <= |was| ==>
      var s := Spliced(was, pos, bytes);
      && |s| == |was| + |bytes|
      && (forall i :: 0 <= i < pos ==> s[i] == was[i])
      && (forall i :: pos <= i < pos + |bytes| ==> s[i] == bytes[i - pos])
      && (forall i :: pos + |bytes| <= i < |s| ==> s[i] == was[i - |bytes|])
  {
    assert was[..|was|] + bytes + was[|was|..] == was + bytes;
  }

  lemma {:induction false} SplicedNothing(was: seq<byte>, pos: int)
    ensures Spliced(was, pos, []) == was
  {
  }

  ghost predicate Terminated(mem: seq<byte>) { exists i :: 0 <= i < |mem| && mem[i] == 0 }

  /** strlen */
  function StrLen(mem: seq<byte>): nat
    requires Terminated(mem)
    ensures StrLen(mem) < |mem| && mem[StrLen(mem)] == 0
    ensures forall i :: 0 <= i < StrLen(mem) ==> mem[i] != 0
  {
    if mem[0] == 0 then 0
    else
      assert Terminated(mem[1..]) by {
        var i :| 0 <= i < |mem| && mem[i] == 0;
        assert mem[1..][i - 1] == 0;
      }
      1 + StrLen(mem[1..])
  }

  lemma {:induction false} StrLenWithin(mem: seq<byte>)
    requires mem != [] && mem[|mem| - 1] == 0
    ensures Terminated(mem) && StrLen(mem) < |mem|
  {
  }

  // ----- a source inside the buffer

  /** Where g_string_insert_len fetches byte `k` of a source inside the buffer, once the gap is open. */
  function FetchIndex(p: nat, offset: nat, n: nat, k: nat): nat {
    if offset + k < p then offset + k else offset + k + n
  }

  /** The buffer with a gap of `n` bytes at `p` of the string; the gap keeps its old bytes for now. */
  ghost function Opened(buf: seq<byte>, len: nat, p: nat, n: nat): (r: seq<byte>)
    requires p <= len && len + n <= |buf|
    ensures |r| == |buf|
  {
    seq(|buf|, i requires 0 <= i < |buf| => if p + n <= i < len + n then buf[i - n] else buf[i])
  }

  /** The gap is opened by moving the part from `p` on, if there is one. */
  lemma {:induction false} OpenedBy(buf: seq<byte>, len: nat, p: nat, n: nat)
    requires p <= len && len + n <= |buf|
    ensures Opened(buf, len, p, n) == Filled(buf, p + n, buf[p..len])
    ensures p == len ==> Opened(buf, len, p, n) == buf
  {
  }

  /** Opening a gap and filling it inserts into the string. */
  lemma {:induction false} FilledGap(buf: seq<byte>, len: nat, p: nat, bytes: seq<byte>)
    requires p <= len && len + |bytes| < |buf|
    ensures Filled(Opened(buf, len, p, |bytes|), p, bytes)[..len + |bytes|] == Spliced(buf[..len], p, bytes)
  {
    var n, t := |bytes|, Opened(buf, len, p, |bytes|);
    assert t[..p] == buf[..len][..p];
    assert t[p + n..len + n] == buf[..len][p..];
    assert Filled(t, p, bytes)[..len + n] == t[..p] + bytes + t[p + n..len + n];
  }

  /** The bytes that come into the gap. */
  ghost function Fetched(buf: seq<byte>, len: nat, p: nat, offset: nat, n: nat): (r: seq<byte>)
    requires p <= len && len + n <= |buf| && offset + 2 * n <= |buf|
    ensures |r| == n
  {
    seq(n, k requires 0 <= k < n => Opened(buf, len, p, n)[FetchIndex(p, offset, n, k)])
  }

  /** The bytes fetched lie in the allocation, which has doubled if the string did not fit. */
  predicate FetchesAllocation(len: nat, size: nat, offset: nat, n: nat) {
    len + n >= size || offset + 2 * n <= size
  }

  /** With `n` addressable bytes at `val`, this is exactly when no byte is fetched from outside. */
  lemma {:induction false} FetchesInside(len: nat, size: nat, grown: nat, p: nat, offset: nat, n: nat)
    requires p <= len < size && offset <= len && 0 < n && offset + n <= size
    requires if len + n < size then grown == size else grown >= 2 * size
    ensures (forall k :: 0 <= k < n ==> FetchIndex(p, offset, n, k) < grown)
            <==> FetchesAllocation(len, size, offset, n)
  {
    assert FetchIndex(p, offset, n, n - 1) < grown ==> FetchesAllocation(len, size, offset, n);
  }

  /** The allocation holds the string with its terminator, and then anything. */
  ghost predicate Buffer(buf: seq<byte>, was: seq<byte>, size: nat) {
    |was| < size == |buf| && buf[..|was|] == was && buf[|was|] == 0
  }

  lemma {:induction false} PartOfPrefix(buf: seq<byte>, s: seq<byte>, i: nat, j: nat)
    requires i <= j <= |s| <= |buf| && buf[..|s|] == s
    ensures buf[i..j] == s[i..j]
  {
    assert buf[..|s|][i..j] == buf[i..j];
  }

  /** What is fetched is what `val` pointed at, if that lies in the string. */
  lemma {:induction false} FetchedString(buf: seq<byte>, len: nat, p: nat, offset: nat, n: nat)
    requires p <= len && len + n <= |buf| && offset + 2 * n <= |buf|
    ensures offset + n <= len ==> Fetched(buf, len, p, offset, n) == buf[offset..offset + n]
  {
  }

  lemma {:induction false} FetchedPart(buf: seq<byte>, was: seq<byte>, len: nat, p: nat, offset: nat, n: nat)
    requires p <= len && len + n <= |buf| && offset + 2 * n <= |buf| && offset + n <= |was| <= |buf|
    requires buf[..|was|] == was
    ensures offset + n <= len ==> Fetched(buf, len, p, offset, n) == was[offset..offset + n]
  {
    PartOfPrefix(buf, was, offset, offset + n);
    FetchedString(buf, len, p, offset, n);
  }

  /** For a source that ends behind the string, the last byte fetched comes from `n` places further on. */
  lemma {:induction false} FetchedBehind(buf: seq<byte>, len: nat, p: nat, offset: nat, n: nat)
    requires p <= len < offset + n && len + n <= |buf| && offset + 2 * n <= |buf| && n > 0
    ensures Fetched(buf, len, p, offset, n)[n - 1] == buf[offset + 2 * n - 1]
  {
  }

  /**
   The bytes inserted are the bytes `val` pointed at, whatever the unused part of
   the buffer holds, exactly when the source ends before the terminator.
   */
  lemma {:induction false} FetchesString(was: seq<byte>, size: nat, p: nat, offset: nat, n: nat)
    requires p <= |was| && |was| + n < size && offset + 2 * n <= size && n > 0
    ensures (forall buf :: Buffer(buf, was, size) ==> Fetched(buf, |was|, p, offset, n) == buf[offset..offset + n])
            <==> offset + n <= |was|
  {
    if offset + n <= |was| {
      forall buf | Buffer(buf, was, size) ensures Fetched(buf, |was|, p, offset, n) == buf[offset..offset + n] {
        FetchedString(buf, |was|, p, offset, n);
      }
    } else {
      var zeros := seq<byte>(size - |was|, _ => 0);
      var buf := (was + zeros)[offset + 2 * n - 1 := 1];
      FetchedBehind(buf, |was|, p, offset, n);
      assert Buffer(buf, was, size) && buf[offset..offset + n][n - 1] == 0;
    }
  }

  /** The terminator itself as source, inserted at the start: the byte behind it is inserted instead. */
  lemma {:induction false} TerminatorAsSource(buf: seq<byte>, len: nat)
    requires len + 2 <= |buf|
    ensures Fetched(buf, len, 0, len, 1) == [buf[len + 1]]
  {
    FetchedBehind(buf, len, 0, len, 1);
  }

  class GString {
    var str: array<byte>
    var len: nat
    var allocatedLen: nat
    /** The sum of all sizes ever allocated for this string. */
    ghost var total: nat

    ghost predicate Valid()
      reads this, str
    {
      && len < allocatedLen == str.Length < B64 && str[len] == 0
      && IsPow2(allocatedLen) && allocatedLen <= total < 2 * allocatedLen
    }

    ghost function Contents(): seq<byte>
      requires len <= str.Length
      reads this, str
    {
      str[..len]
    }

    /** g_string_sized_new */
    constructor (dflSize: nat)
      requires dflSize < MAX_REQUEST
      ensures Valid() && Contents() == [] && fresh(str) && total == allocatedLen
      ensures allocatedLen > dflSize && allocatedLen > 64
      ensures allocatedLen < 2 * (dflSize + 1) || allocatedLen < 2 * (64 + 1)
    {
      var request := if dflSize > 64 then dflSize else 64;
      var n := NearestPower(1, request + 1);
      str := new byte[n];
      len, allocatedLen := 0, n;
      total := n;
      new;
      str[0] := 0;
      PowerOfOne(n);
    }

    /**
     The buffer kept its size if the string with `extra` bytes fitted.  Otherwise it
     has at least doubled, and no smaller power of two would do.
     */
    ghost predicate Grew(was: nat, size: nat, sum: nat, extra: nat)
      reads this
    {
      if was + extra < size then allocatedLen == size && total == sum
      else
        && allocatedLen >= 2 * size && total == sum + allocatedLen
        && was + extra < allocatedLen < 2 * (was + extra + 1)
    }

    /** g_string_maybe_expand: the buffer stays, or a new one of at least twice the size takes its place. */
    method MaybeExpand(extra: nat)
      requires Valid() && len + extra + 1 <= MAX_REQUEST
      modifies this`str, this`allocatedLen, this`total
      ensures Valid() && len + extra < allocatedLen && Contents() == old(Contents())
      ensures Grew(old(len), old(allocatedLen), old(total), extra)
      ensures if old(len + extra < allocatedLen) then str == old(str) else fresh(str)
      ensures old(allocatedLen) <= allocatedLen && str[..old(allocatedLen)] == old(str[..])
    {
      if len + extra >= allocatedLen {
        var n := NearestPower(1, len + extra + 1);
        PowerOfOne(n);
        Doubles(allocatedLen, n);
        var bigger := new byte[n];
        forall i | 0 <= i < str.Length {
          bigger[i] := str[i];
        }
        str, allocatedLen, total := bigger, n, total + n;
      }
    }

    /**
     The call's arguments are usable: `val` has `n` bytes, or a terminator when n
     is negative, and what is fetched lies in the allocation.
     */
    ghost predicate Readable(val: Source, n: int)
      reads this
    {
      match val
      case Null => true
      case Outside(mem) => if n < 0 then Terminated(mem) else n <= |mem|
      case Inside(offset) =>
        offset <= len && (n > 0 ==> offset + n <= allocatedLen && FetchesAllocation(len, allocatedLen, offset, n))
    }

    /** A source inside the string ends before the terminator. */
    ghost predicate Within(val: Source, n: int)
      reads this
    {
      val.Inside? && n > 0 ==> val.offset + n <= len
    }

    /** The bytes that `val` and `n` stand for at the time of the call. */
    ghost function Bytes(val: Source, n: int): seq<byte>
      requires Valid() && Readable(val, n)
      reads this, str
    {
      match val
      case Null => []
      case Outside(mem) => mem[..if n < 0 then StrLen(mem) else n]
      case Inside(offset) => str[offset..offset + (if n < 0 then LenFrom(offset) else n)]
    }

    /** Byte by byte: what `val` points at outside, `n` bytes or up to the first zero. */
    lemma {:induction false} OutsideBytes(mem: seq<byte>, n: int)
      requires Valid() && Readable(Outside(mem), n)
      ensures var bytes := Bytes(Outside(mem), n);
        && |bytes| <= |mem| && (forall i :: 0 <= i < |bytes| ==> bytes[i] == mem[i])
        && (n >= 0 ==> |bytes| == n)
        && (n < 0 ==> |bytes| < |mem| && mem[|bytes|] == 0 && forall i :: 0 <= i < |bytes| ==> mem[i] != 0)
    {
    }

    /** The same inside the buffer. */
    lemma {:induction false} InsideBytes(offset: nat, n: int)
      requires Valid() && Readable(Inside(offset), n)
      ensures var bytes := Bytes(Inside(offset), n);
        && offset + |bytes| <= str.Length && (forall i :: 0 <= i < |bytes| ==> bytes[i] == str[..][offset..][i])
        && (n >= 0 ==> |bytes| == n)
        && (n < 0 ==> offset + |bytes| <= len && str[offset + |bytes|] == 0)
        && (n < 0 ==> forall i :: offset <= i < offset + |bytes| ==> str[i] != 0)
    {
      if n < 0 {
        var rest := str[offset..len + 1];
        assert forall i :: offset <= i <= len ==> rest[i - offset] == str[i];
      }
    }

    /** strlen of a place in the string: the terminator ends it at the latest. */
    ghost function LenFrom(offset: nat): (n: nat)
      requires Valid() && offset <= len
      reads this, str
      ensures offset + n <= len
    {
      StrLenWithin(str[offset..len + 1]);
      StrLen(str[offset..len + 1])
    }

    /** Moves the bytes from `p` on to make room for `n` bytes. */
    method Open(p: nat, n: nat)
      requires p <= len && len + n < str.Length
      modifies str
      ensures str[..] == Opened(old(str[..]), len, p, n)
    {
      OpenedBy(str[..], len, p, n);
      if p < len {
        Memmove(str, p + n, p, len - p);
      }
    }

    /** Counts the new bytes and terminates the string. */
    method Close(n: nat, ghost p: nat, ghost bytes: seq<byte>, ghost buf: seq<byte>)
      requires |bytes| == n && p <= len && len + n < str.Length == |buf| == allocatedLen < B64
      requires IsPow2(allocatedLen) && allocatedLen <= total < 2 * allocatedLen
      requires str[..] == Filled(Opened(buf, len, p, n), p, bytes)
      modifies this`len, str
      ensures Valid() && Contents() == Spliced(buf[..old(len)], p, bytes)
    {
      FilledGap(buf, len, p, bytes);
      len := len + n;
      assert str[..len] == Spliced(buf[..len - n], p, bytes);
      str[len] := 0;
    }

    /** Copies the part of the source before the gap, then the part that moved up with the rest. */
    method FillInside(p: nat, offset: nat, n: nat, ghost buf: seq<byte>)
      requires p <= len && len + n < str.Length == |buf| && offset + 2 * n <= |buf|
      requires str[..] == Opened(buf, len, p, n)
      modifies str
      ensures str[..] == Filled(old(str[..]), p, Fetched(buf, len, p, offset, n))
    {
      var precount := if offset < p then (if n < p - offset then n else p - offset) else 0;
      if offset < p {
        Memcpy(str, p, offset, precount);
      }
      if n > precount {
        Memcpy(str, p + precount, offset + precount + n, n - precount);
      }
      IsFilled(old(str[..]), str[..], p, Fetched(buf, len, p, offset, n));
    }

    /** The insertion of `n` bytes that start at `offset`, in the string or in the buffer behind it. */
    method InsertInside(p: nat, offset: nat, n: nat) returns (ghost buf: seq<byte>)
      requires Valid() && p <= len && offset <= len && offset + n <= allocatedLen && len + n + 1 <= MAX_REQUEST
      requires FetchesAllocation(len, allocatedLen, offset, n)
      modifies this, str
      ensures Valid() && (str == old(str) || fresh(str))
      ensures |buf| == allocatedLen && old(len) + n < |buf| && offset + 2 * n <= |buf|
      ensures old(allocatedLen) <= |buf| && buf[..old(allocatedLen)] == old(str[..])
      ensures Contents() == Spliced(old(Contents()), p, Fetched(buf, old(len), p, offset, n))
      ensures offset + n <= old(len) ==> Fetched(buf, old(len), p, offset, n) == old(str[offset..offset + n])
      ensures Grew(old(len), old(allocatedLen), old(total), n)
    {
      ghost var was := str[..];
      MaybeExpand(n);
      buf := str[..];
      FetchedPart(buf, was, len, p, offset, n);
      Open(p, n);
      FillInside(p, offset, n, buf);
      Close(n, p, Fetched(buf, len, p, offset, n), buf);
    }

    /** The same when `n` may be negative: the terminator then ends the source. */
    method InsertOwn(p: nat, offset: nat, n: int) returns (ghost buf: seq<byte>)
      requires Valid() && p <= len && n != 0 && Readable(Inside(offset), n)
      requires len + |Bytes(Inside(offset), n)| + 1 <= MAX_REQUEST
      modifies this, str
      ensures Valid() && (str == old(str) || fresh(str))
      ensures old(Within(Inside(offset), n)) ==> Contents() == old(Spliced(Contents(), p, Bytes(Inside(offset), n)))
      ensures n > 0 ==>
        && |buf| == allocatedLen && old(len) + n < |buf| && offset + 2 * n <= |buf|
        && old(allocatedLen) <= |buf| && buf[..old(allocatedLen)] == old(str[..])
        && Contents() == Spliced(old(Contents()), p, Fetched(buf, old(len), p, offset, n))
      ensures Grew(old(len), old(allocatedLen), old(total), old(|Bytes(Inside(offset), n)|))
    {
      ghost var bytes := Bytes(Inside(offset), n);
      var count := n;
      if n < 0 {
        count := CountFrom(offset);
      }
      assert bytes == str[offset..offset + count];
      buf := InsertInside(p, offset, count);
    }

    /** Writes one byte. */
    method Put(p: nat, c: byte)
      requires p < str.Length
      modifies str
      ensures str[..] == Filled(old(str[..]), p, [c])
    {
      str[p] := c;
    }

    /** The insertion of bytes from other memory. */
    method InsertOutside(p: nat, val: seq<byte>)
      requires Valid() && p <= len && len + |val| + 1 <= MAX_REQUEST
      modifies this, str
      ensures Valid() && (str == old(str) || fresh(str))
      ensures Contents() == old(Spliced(Contents(), p, val))
      ensures Grew(old(len), old(allocatedLen), old(total), |val|)
    {
      MaybeExpand(|val|);
      ghost var buf := str[..];
      Open(p, |val|);
      if |val| == 1 {
        assert val == [val[0]];
        Put(p, val[0]);
      } else {
        MemcpyFrom(str, p, val);
      }
      Close(|val|, p, val, buf);
    }

    /**
     g_string_insert_len.  A null `val` is refused unless n is 0, and a position
     after the end is refused; both leave the string as it is.  `buf` is the
     buffer before the gap is opened.
     */
    method InsertLen(pos: int, val: Source, n: int) returns (ghost buf: seq<byte>)
      requires Valid() && Readable(val, n)
      requires Position(pos, len) <= len ==> len + |Bytes(val, n)| + 1 <= MAX_REQUEST
      modifies this, str
      ensures Valid() && (str == old(str) || fresh(str))
      ensures old(Within(val, n)) ==> Contents() == old(Spliced(Contents(), pos, Bytes(val, n)))
      ensures old(!Within(val, n) && Position(pos, len) <= len) ==>
        && |buf| == allocatedLen && old(len) + n < |buf| && val.offset + 2 * n <= |buf|
        && old(allocatedLen) <= |buf| && buf[..old(allocatedLen)] == old(str[..])
        && Contents() ==
           Spliced(old(Contents()), pos, Fetched(buf, old(len), Position(pos, old(len)), val.offset, n))
      ensures old(pos > len) ==> Contents() == old(Contents())
      ensures val.Outside? && n > 0 && old(pos <= len) ==>
        |Contents()| == old(len) + n &&
        forall i :: 0 <= i < n ==> Contents()[(if pos < 0 then old(len) else pos) + i] == val.mem[i]
      ensures if n == 0 || val.Null? || old(Position(pos, len) > len)
              then allocatedLen == old(allocatedLen) && total == old(total)
              else Grew(old(len), old(allocatedLen), old(total), old(|Bytes(val, n)|))
    {
      ghost var was, bytes := Contents(), Bytes(val, n);
      buf := str[..];
      var p := Position(pos, len);
      if n == 0 || val.Null? {
        assert bytes == [];
        SplicedNothing(was, pos);
        return;
      }
      if p > len {
        return;
      }
      SplicedAt(was, p, bytes);
      match val
      case Outside(mem) =>
        var count := if n < 0 then StrLen(mem) else n;
        assert bytes == mem[..count];
        InsertOutside(p, mem[..count]);
      case Inside(offset) =>
        buf := InsertOwn(p, offset, n);
    }

    /** strlen */
    method CountFrom(offset: nat) returns (n: nat)
      requires Valid() && offset <= len
      ensures n == LenFrom(offset)
    {
      ghost var rest := str[offset..len + 1];
      n := 0;
      while str[offset + n] != 0
        invariant offset + n <= len
        invariant forall i :: 0 <= i < n ==> rest[i] != 0
        decreases len - n
      {
        n := n + 1;
      }
      assert rest[n] == 0;
      assert rest[LenFrom(offset)] == 0;
    }

    /** g_string_insert_c: the buffer may grow even when the position is refused. */
    method InsertC(pos: int, c: byte)
      requires Valid() && len + 2 <= MAX_REQUEST
      modifies this, str
      ensures Valid() && (str == old(str) || fresh(str))
      ensures Contents() == old(Spliced(Contents(), pos, [c]))
      ensures Grew(old(len), old(allocatedLen), old(total), 1)
    {
      MaybeExpand(1);
      ghost var buf := str[..];
      var p := Position(pos, len);
      if p > len {
        return;
      }
      Open(p, 1);
      Put(p, c);
      Close(1, p, [c], buf);
    }

    /** Writes the bytes of one code point, the last one first. */
    method WriteChar(p: nat, code: nat, charlen: nat, first: nat)
      requires code < 0x1_0000_0000 && charlen == CharLen(code) && first == First(code)
      requires p + charlen <= str.Length
      modifies str
      ensures str[..] == Filled(old(str[..]), p, Encode(code))
    {
      var i, wc := charlen - 1, code;
      ghost var bytes := Encode(code);
      while i > 0
        invariant 0 <= i < charlen && wc == Lead(code, charlen - 1 - i)
        invariant forall j :: 0 <= j < str.Length ==>
          str[j] == if p + i < j < p + charlen then bytes[j - p] else old(str[j])
      {
        OrTail(wc);
        ByteAt(code, i);
        LeadNext(code, charlen - 1 - i);
        str[p + i] := Or(wc % 64, 0x80);
        wc := wc / 64;
        i := i - 1;
      }
      OrLead(code, wc);
      LeadBound(code);
      str[p] := Or(wc, first);
      IsFilled(old(str[..]), str[..], p, bytes);
    }

    /** g_string_insert_unichar */
    method InsertUnichar(pos: int, wc: nat)
      requires Valid() && wc < 0x1_0000_0000 && len + CharLen(wc) + 1 <= MAX_REQUEST
      modifies this, str
      ensures Valid() && (str == old(str) || fresh(str))
      ensures Contents() == old(Spliced(Contents(), pos, Encode(wc)))
      ensures Grew(old(len), old(allocatedLen), old(total), CharLen(wc))
    {
      var charlen, first := CharLen(wc), First(wc);
      MaybeExpand(charlen);
      ghost var buf := str[..];
      var p := Position(pos, len);
      if p > len {
        return;
      }
      Open(p, charlen);
      WriteChar(p, wc, charlen, first);
      Close(charlen, p, Encode(wc), buf);
    }
  }

  // ----- the encoder's bit operations

  lemma {:induction false} OrSwap(a: nat, b: nat)
    ensures Or(a, b) == Or(b, a)
  {
    if a > 0 && b > 0 { OrSwap(a / 2, b / 2); }
  }

  lemma {:induction false} OrTail(wc: nat)
    ensures Or(wc % 64, 0x80) == wc % 64 + 0x80
  {
    assert Pow2(7) == 128;
    OrSwap(wc % 64, 0x80);
    OrDisjoint(1, wc % 64, 7);
  }

  lemma {:induction false} ByteAt(wc: nat, i: nat)
    requires wc < 0x1_0000_0000 && 0 < i < CharLen(wc)
    ensures Encode(wc)[i] == Lead(wc, CharLen(wc) - 1 - i) % 64 + 0x80
  {
    TailAt(wc, CharLen(wc) - 1, i - 1);
  }

  lemma {:induction false} OrMarker(a: nat, v: nat, n: nat, p: nat)
    requires Pow2(n) == p && v < p
    ensures Or(v, a * p) == a * p + v
  {
    OrSwap(v, a * p);
    OrDisjoint(a, v, n);
  }

  lemma {:induction false} OrLead(wc: nat, v: nat)
    requires wc < 0x1_0000_0000 && v == Lead(wc, CharLen(wc) - 1)
    ensures Or(v, First(wc)) == First(wc) + v
  {
    LeadBound(wc);
    if wc >= 0x4000000 {
      OrMarker(63, v, 2, 4);
    } else if wc >= 0x200000 {
      OrMarker(62, v, 2, 4);
    } else if wc >= 0x10000 {
      OrMarker(30, v, 3, 8);
    } else if wc >= 0x800 {
      OrMarker(14, v, 4, 16);
    } else if wc >= 0x80 {
      OrMarker(6, v, 5, 32);
    } else {
      OrSwap(v, 0);
    }
  }

  // ----- runs

  /**
   Code points appended one by one: they can be read back, from behind any list
   that was there before, and no other list gives these bytes.
   */
  method AppendAll(g: GString, ws: seq<nat>)
    requires g.Valid() && AllBelow(ws) && g.len + 6 * |ws| + 1 <= MAX_REQUEST
    modifies g, g.str
    ensures g.Valid() && g.Contents() == old(g.Contents()) + EncodeAll(ws)
    ensures forall vs :: AllBelow(vs) && EncodeAll(vs) == old(g.Contents()) ==> DecodeAll(g.Contents()) == Some(vs + ws)
    ensures forall us :: AllBelow(us) && old(g.Contents()) + EncodeAll(us) == g.Contents() ==> us == ws
  {
    ghost var was := g.Contents();
    AppendEach(g, ws);
    forall vs | AllBelow(vs) && EncodeAll(vs) == was ensures DecodeAll(g.Contents()) == Some(vs + ws) {
      EncodeConcat(vs, ws);
      RoundTrip(vs + ws);
    }
    forall us | AllBelow(us) && was + EncodeAll(us) == g.Contents() ensures us == ws {
      assert EncodeAll(us) == g.Contents()[|was|..] == EncodeAll(ws);
      Unambiguous(us, ws);
    }
  }

  method AppendEach(g: GString, ws: seq<nat>)
    requires g.Valid() && AllBelow(ws) && g.len + 6 * |ws| + 1 <= MAX_REQUEST
    modifies g, g.str
    ensures g.Valid() && g.Contents() == old(g.Contents()) + EncodeAll(ws)
  {
    ghost var was := g.Contents();
    var i := 0;
    assert ws[..0] == [];
    while i < |ws|
      invariant 0 <= i <= |ws| && g.Valid() && g.len <= |was| + 6 * i
      invariant g.Contents() == was + EncodeAll(ws[..i])
      invariant g.str == old(g.str) || fresh(g.str)
    {
      AppendOne(g, ws[i]);
      AppendStep(was, ws, i);
      i := i + 1;
    }
    assert ws[..i] == ws;
  }

  lemma {:induction false} AppendStep(was: seq<byte>, ws: seq<nat>, i: nat)
    requires AllBelow(ws) && i < |ws|
    ensures (was + EncodeAll(ws[..i])) + Encode(ws[i]) == was + EncodeAll(ws[..i + 1])
  {
    EncodeAppend(ws[..i], ws[i]);
    assert ws[..i + 1] == ws[..i] + [ws[i]];
  }

  /** g_string_append_unichar */
  method AppendOne(g: GString, wc: nat)
    requires g.Valid() && wc < 0x1_0000_0000 && g.len + CharLen(wc) + 1 <= MAX_REQUEST
    modifies g, g.str
    ensures g.Valid() && (g.str == old(g.str) || fresh(g.str))
    ensures g.Contents() == old(g.Contents()) + Encode(wc)
  {
    ghost var was := g.Contents();
    g.InsertUnichar(-1, wc);
    assert was[..|was|] == was && was[|was|..] == [];
  }
}
