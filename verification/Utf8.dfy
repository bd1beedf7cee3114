/**
 The byte sequences that g_string_insert_unichar in glib/gstring.c writes, and
 a decoder for them.
 */
module Utf8 {
  import opened Options
  import opened Words

  type byte = x: int | 0 <= x < 256

  /** The code points for which the encoding is defined by section 2 of RFC 2279. */
  const LIMIT := 0x8000_0000

  /** `charlen` of g_string_insert_unichar */
  function CharLen(wc: nat): nat {
    if wc < 0x80 then 1
    else if wc < 0x800 then 2
    else if wc < 0x10000 then 3
    else if wc < 0x200000 then 4
    else if wc < 0x4000000 then 5
    else 6
  }

  /** `first`, the marker bits of the leading byte */
  function First(wc: nat): nat {
    if wc < 0x80 then 0
    else if wc < 0x800 then 0xc0
    else if wc < 0x10000 then 0xe0
    else if wc < 0x200000 then 0xf0
    else if wc < 0x4000000 then 0xf8
    else 0xfc
  }

  /** How many code points a form of `n` bytes can hold. */
  function Capacity(n: nat): nat {
    if n == 0 then 0
    else if n == 1 then 0x80
    else if n == 2 then 0x800
    else if n == 3 then 0x10000
    else if n == 4 then 0x200000
    else if n == 5 then 0x4000000
    else LIMIT
  }

  function Pow64(m: nat): nat
    ensures Pow64(m) >= 1
  {
    if m == 0 then 1 else 64 * Pow64(m - 1)
  }

  /** What is left of `wc` after `m` continuation bytes have been split off. */
  function Lead(wc: nat, m: nat): nat {
    if m == 0 then wc else Lead(wc / 64, m - 1)
  }

  /** The last `m` bytes: six bits each, marked 10. */
  function Tail(wc: nat, m: nat): (r: seq<byte>)
    ensures |r| == m
  {
    if m == 0 then [] else Tail(wc / 64, m - 1) + [wc % 64 + 0x80]
  }

  lemma {:induction false} TailAt(wc: nat, m: nat, k: nat)
    requires k < m
    ensures Tail(wc, m)[k] == Lead(wc, m - 1 - k) % 64 + 0x80
  {
    if k < m - 1 { TailAt(wc / 64, m - 1, k); }
  }

  lemma {:induction false} LeadNext(wc: nat, m: nat)
    ensures Lead(wc, m + 1) == Lead(wc, m) / 64
  {
    if m > 0 { LeadNext(wc / 64, m - 1); }
  }

  lemma {:induction false} LeadValues(wc: nat)
    ensures Lead(wc, 0) == wc && Lead(wc, 1) == wc / 64 && Lead(wc, 2) == wc / 4096
    ensures Lead(wc, 3) == wc / 262144 && Lead(wc, 4) == wc / 16777216 && Lead(wc, 5) == wc / 1073741824
  {
    LeadIs(wc, 1);
    LeadIs(wc, 2);
    LeadIs(wc, 3);
    LeadIs(wc, 4);
    LeadIs(wc, 5);
  }

  /** The leading bits fit below the marker bits. */
  lemma {:induction false} LeadBound(wc: nat)
    requires wc < 0x1_0000_0000
    ensures var n, v := CharLen(wc), Lead(wc, CharLen(wc) - 1);
      && First(wc) + v < 256
      && v < (if n == 1 then 128 else if n == 2 then 32 else if n == 3 then 16 else if n == 4 then 8 else 4)
      && (wc < LIMIT && n == 6 ==> v < 2)
  {
    LeadValues(wc);
  }

  /** The bytes for one code point. */
  function Encode(wc: nat): (r: seq<byte>)
    requires wc < 0x1_0000_0000
    ensures |r| == CharLen(wc)
  {
    LeadBound(wc);
    [First(wc) + Lead(wc, CharLen(wc) - 1)] + Tail(wc, CharLen(wc) - 1)
  }

  function EncodeAll(ws: seq<nat>): seq<byte>
    requires forall i :: 0 <= i < |ws| ==> ws[i] < 0x1_0000_0000
  {
    if ws == [] then [] else Encode(ws[0]) + EncodeAll(ws[1..])
  }

  // ----- decoding

  predicate IsTail(b: byte) { 0x80 <= b < 0xc0 }

  /** The number of bytes that a leading byte announces, or 0. */
  function Announced(b: byte): nat {
    if b < 0x80 then 1
    else if b < 0xc0 then 0
    else if b < 0xe0 then 2
    else if b < 0xf0 then 3
    else if b < 0xf8 then 4
    else if b < 0xfc then 5
    else if b < 0xfe then 6
    else 0
  }

  function Marker(n: nat): nat {
    if n <= 1 then 0 else if n == 2 then 0xc0 else if n == 3 then 0xe0
    else if n == 4 then 0xf0 else if n == 5 then 0xf8 else 0xfc
  }

  function Join(v: int, bs: seq<byte>): int {
    if bs == [] then v else Join(v, bs[..|bs| - 1]) * 64 + bs[|bs| - 1] - 0x80
  }

  /** The first code point of a byte sequence and the number of bytes it takes. */
  function DecodeOne(bs: seq<byte>): Option<(nat, nat)> {
    if bs == [] then None
    else
      var n := Announced(bs[0]);
      if n == 0 || |bs| < n || exists i :: 1 <= i < n && !IsTail(bs[i]) then None
      else
        var v := Join(bs[0] - Marker(n), bs[1..n]);
        if v < Capacity(n - 1) || v >= Capacity(n) then None else Some((v, n))
  }

  function DecodeAll(bs: seq<byte>): Option<seq<nat>>
    decreases |bs|
  {
    if bs == [] then Some([])
    else
      var d := DecodeOne(bs);
      if d.None? || d.value.1 == 0 || d.value.1 > |bs| then None
      else
        var rest := DecodeAll(bs[d.value.1..]);
        if rest.None? then None else Some([d.value.0] + rest.value)
  }

  // ----- the round trip

  lemma {:induction false} LeadIs(wc: nat, m: nat)
    ensures Lead(wc, m) == wc / Pow64(m)
  {
    if m > 0 {
      LeadIs(wc / 64, m - 1);
      Nest(wc, Pow64(m - 1));
    }
  }

  lemma {:induction false} Nest(x: nat, p: nat)
    requires p > 0
    ensures (x / 64) / p == x / (64 * p)
  {
    var y := x / 64;
    DivMod(x, 64);
    DivMod(y, p);
    DivUnique(x, 64 * p, y / p, (y % p) * 64 + x % 64);
  }

  /** Joining the continuation bytes back onto the leading bits gives the code point. */
  lemma {:induction false} JoinTail(wc: nat, m: nat)
    ensures Join(Lead(wc, m), Tail(wc, m)) == wc
  {
    if m > 0 {
      var t := Tail(wc, m);
      assert t[..|t| - 1] == Tail(wc / 64, m - 1);
      JoinTail(wc / 64, m - 1);
    }
  }

  lemma {:induction false} TailMarked(wc: nat, m: nat, i: nat)
    requires i < m
    ensures IsTail(Tail(wc, m)[i])
  {
    if i < m - 1 { TailMarked(wc / 64, m - 1, i); }
  }

  lemma {:induction false} LengthFits(wc: nat)
    requires wc < LIMIT
    ensures Capacity(CharLen(wc) - 1) <= wc < Capacity(CharLen(wc)) && First(wc) == Marker(CharLen(wc))
  {
  }

  lemma {:induction false} LeadAnnounces(wc: nat)
    requires wc < LIMIT
    ensures Announced(Encode(wc)[0]) == CharLen(wc)
  {
    LeadBound(wc);
  }

  /** What follows the bytes of a code point does not matter for decoding it. */
  lemma {:induction false} DecodeEncode(wc: nat, rest: seq<byte>)
    requires wc < LIMIT
    ensures DecodeOne(Encode(wc) + rest) == Some((wc, CharLen(wc)))
  {
    var bs, n := Encode(wc) + rest, CharLen(wc);
    var lead, tail := Lead(wc, n - 1), Tail(wc, n - 1);
    LeadAnnounces(wc);
    LengthFits(wc);
    assert bs[0] - Marker(n) == lead;
    assert bs[1..n] == tail;
    forall i | 0 <= i < |tail| ensures IsTail(tail[i]) { TailMarked(wc, n - 1, i); }
    JoinTail(wc, n - 1);
    DecodeIs(bs, n, lead, tail, wc);
  }

  lemma {:induction false} DecodeIs(bs: seq<byte>, n: nat, lead: int, tail: seq<byte>, v: int)
    requires 0 < n <= |bs| && Announced(bs[0]) == n && lead == bs[0] - Marker(n) && tail == bs[1..n]
    requires forall i :: 0 <= i < |tail| ==> IsTail(tail[i])
    requires Join(lead, tail) == v && Capacity(n - 1) <= v < Capacity(n)
    ensures DecodeOne(bs) == Some((v, n))
  {
    assert forall i :: 1 <= i < n ==> bs[i] == tail[i - 1];
  }

  ghost predicate AllBelow(ws: seq<nat>) { forall i :: 0 <= i < |ws| ==> ws[i] < LIMIT }

  /** Every list of code points is read back from its bytes. */
  lemma {:induction false} RoundTrip(ws: seq<nat>)
    requires AllBelow(ws)
    ensures DecodeAll(EncodeAll(ws)) == Some(ws)
  {
    if ws != [] {
      var e, r := Encode(ws[0]), EncodeAll(ws[1..]);
      DecodeEncode(ws[0], r);
      assert (e + r)[|e|..] == r;
      RoundTrip(ws[1..]);
      assert [ws[0]] + ws[1..] == ws;
    }
  }

  /** Splitting what was joined gives back the bytes. */
  lemma {:induction false} SplitJoin(v: nat, bs: seq<byte>)
    requires forall i :: 0 <= i < |bs| ==> IsTail(bs[i])
    ensures Join(v, bs) >= 0 && Lead(Join(v, bs), |bs|) == v && Tail(Join(v, bs), |bs|) == bs
  {
    if bs != [] {
      var n := |bs| - 1;
      SplitJoin(v, bs[..n]);
      assert IsTail(bs[n]);
      assert Join(v, bs) / 64 == Join(v, bs[..n]);
    }
  }

  lemma {:induction false} AnnouncedMarker(b: byte)
    ensures 0 <= Announced(b) <= 6
    ensures Announced(b) > 0 ==> b >= Marker(Announced(b))
  {
  }

  lemma {:induction false} LengthIs(v: nat, n: nat)
    requires 1 <= n <= 6 && Capacity(n - 1) <= v < Capacity(n)
    ensures v < LIMIT && CharLen(v) == n && First(v) == Marker(n)
  {
  }

  /** A form that is not overlong is the encoding of what it carries. */
  lemma {:induction false} EncodeJoin(b: byte, tail: seq<byte>, n: nat, v: int)
    requires 1 <= n <= 6 && Announced(b) == n == |tail| + 1 && forall i :: 0 <= i < |tail| ==> IsTail(tail[i])
    requires v == Join(b - Marker(n), tail) && Capacity(n - 1) <= v < Capacity(n)
    ensures 0 <= v < LIMIT && CharLen(v) == n && Encode(v) == [b] + tail
  {
    AnnouncedMarker(b);
    SplitJoin(b - Marker(n), tail);
    LengthIs(v, n);
  }

  /** The decoder accepts nothing but what the encoder writes. */
  lemma {:induction false} EncodeDecode(bs: seq<byte>)
    requires DecodeOne(bs).Some?
    ensures var (v, n) := DecodeOne(bs).value;
      0 <= v < LIMIT && 0 < n <= |bs| && CharLen(v) == n && bs[..n] == Encode(v)
  {
    var n := Announced(bs[0]);
    AnnouncedMarker(bs[0]);
    var tail := bs[1..n];
    assert forall i :: 0 <= i < |tail| ==> tail[i] == bs[i + 1];
    EncodeJoin(bs[0], tail, n, DecodeOne(bs).value.0);
    assert bs[..n] == [bs[0]] + tail;
  }

  lemma {:induction false} DecodeStep(bs: seq<byte>) returns (v: nat, n: nat, rest: seq<nat>)
    requires bs != [] && DecodeAll(bs).Some?
    ensures v < LIMIT && 0 < n <= |bs| && bs[..n] == Encode(v)
    ensures DecodeAll(bs[n..]) == Some(rest) && DecodeAll(bs) == Some([v] + rest)
  {
    EncodeDecode(bs);
    v, n := DecodeOne(bs).value.0, DecodeOne(bs).value.1;
    rest := DecodeAll(bs[n..]).value;
  }

  lemma {:induction false} EncodePrepend(w: nat, ws: seq<nat>)
    requires w < LIMIT && AllBelow(ws)
    ensures AllBelow([w] + ws) && EncodeAll([w] + ws) == Encode(w) + EncodeAll(ws)
  {
    assert ([w] + ws)[1..] == ws;
  }

  lemma {:induction false} OnlyEncodings(bs: seq<byte>, ws: seq<nat>)
    requires DecodeAll(bs) == Some(ws)
    ensures AllBelow(ws) && EncodeAll(ws) == bs
    decreases |bs|
  {
    if bs != [] {
      var v, n, rest := DecodeStep(bs);
      OnlyEncodings(bs[n..], rest);
      EncodedParts(bs, v, n, rest);
    }
  }

  lemma {:induction false} EncodedParts(bs: seq<byte>, v: nat, n: nat, rest: seq<nat>)
    requires v < LIMIT && n <= |bs| && bs[..n] == Encode(v) && AllBelow(rest) && EncodeAll(rest) == bs[n..]
    ensures AllBelow([v] + rest) && EncodeAll([v] + rest) == bs
  {
    EncodePrepend(v, rest);
    assert bs == bs[..n] + bs[n..];
  }

  /** No two lists of code points have the same bytes. */
  lemma {:induction false} Unambiguous(ws: seq<nat>, us: seq<nat>)
    requires AllBelow(ws) && AllBelow(us) && EncodeAll(ws) == EncodeAll(us)
    ensures ws == us
  {
    RoundTrip(ws);
    RoundTrip(us);
  }

  /** The encoding of a list is that of its parts. */
  lemma {:induction false} EncodeConcat(vs: seq<nat>, ws: seq<nat>)
    requires AllBelow(vs) && AllBelow(ws)
    ensures EncodeAll(vs + ws) == EncodeAll(vs) + EncodeAll(ws)
  {
    if vs == [] {
      assert vs + ws == ws;
    } else {
      assert (vs + ws)[1..] == vs[1..] + ws;
      EncodeConcat(vs[1..], ws);
    }
  }

  /** Appending code points one by one builds up the encoding of the list. */
  lemma {:induction false} EncodeAppend(ws: seq<nat>, w: nat)
    requires AllBelow(ws) && w < LIMIT
    ensures EncodeAll(ws + [w]) == EncodeAll(ws) + Encode(w)
  {
    if ws == [] {
      assert ws + [w] == [w];
      assert EncodeAll([w][1..]) == [];
    } else {
      assert (ws + [w])[1..] == ws[1..] + [w];
      EncodeAppend(ws[1..], w);
    }
  }

  /** A leading byte and as many continuation bytes as it announces, overlong or not. */
  ghost predicate Form(bs: seq<byte>) {
    bs != [] && Announced(bs[0]) == |bs| && forall i :: 1 <= i < |bs| ==> IsTail(bs[i])
  }

  /** The number whose bits such a form carries. */
  ghost function FormValue(bs: seq<byte>): int
    requires Form(bs)
  {
    Join(bs[0] - Marker(|bs|), bs[1..])
  }

  lemma {:induction false} JoinBound(v: nat, bs: seq<byte>)
    requires forall i :: 0 <= i < |bs| ==> IsTail(bs[i])
    ensures 0 <= Join(v, bs) < (v + 1) * Pow64(|bs|)
  {
    if bs != [] {
      var n := |bs| - 1;
      JoinBound(v, bs[..n]);
      assert IsTail(bs[n]);
      assert (v + 1) * Pow64(n + 1) == 64 * ((v + 1) * Pow64(n));
    }
  }

  /** How many leading bits the announcing byte leaves room for. */
  lemma {:induction false} LeadRoom(b: byte)
    requires Announced(b) > 0
    ensures var n := Announced(b); 0 <= b - Marker(n) && (b - Marker(n) + 1) * Pow64(n - 1) <= Capacity(n)
  {
    var n := Announced(b);
    assert Pow64(0) == 1 && Pow64(1) == 64 && Pow64(2) == 4096;
    assert Pow64(3) == 262144 && Pow64(4) == 16777216 && Pow64(5) == 1073741824;
  }

  /** `Capacity` is what a form can hold: no form of n bytes, overlong ones included, carries more. */
  lemma {:induction false} FormBelow(bs: seq<byte>)
    requires Form(bs)
    ensures 0 <= FormValue(bs) < Capacity(|bs|)
  {
    var n := |bs|;
    LeadRoom(bs[0]);
    JoinBound(bs[0] - Marker(n), bs[1..]);
  }

  /** The encoding is itself a form that carries the code point. */
  lemma {:induction false} EncodeIsForm(wc: nat)
    requires wc < LIMIT
    ensures Form(Encode(wc)) && FormValue(Encode(wc)) == wc
  {
    DecodeEncode(wc, []);
    assert Encode(wc) + [] == Encode(wc);
    LeadAnnounces(wc);
    assert Encode(wc)[1..CharLen(wc)] == Encode(wc)[1..];
  }

  /** No other form that carries the code point is shorter. */
  lemma {:induction false} Shortest(wc: nat, bs: seq<byte>)
    requires Form(bs) && FormValue(bs) == wc
    ensures wc < LIMIT && Form(Encode(wc)) && FormValue(Encode(wc)) == wc && |Encode(wc)| <= |bs|
  {
    FormBelow(bs);
    CapacityGrows(wc, |bs|);
    EncodeIsForm(wc);
  }

  lemma {:induction false} CapacityGrows(wc: nat, n: nat)
    requires wc < Capacity(n)
    ensures wc < LIMIT && CharLen(wc) <= n
  {
  }

  /** The table in section 3 of RFC 3629. */
  function Rfc3629(wc: nat): seq<int>
    requires wc <= 0x10FFFF
  {
    if wc < 0x80 then [wc]
    else if wc < 0x800 then [0xc0 + wc / 64, 0x80 + wc % 64]
    else if wc < 0x10000 then [0xe0 + wc / 4096, 0x80 + wc / 64 % 64, 0x80 + wc % 64]
    else [0xf0 + wc / 262144, 0x80 + wc / 4096 % 64, 0x80 + wc / 64 % 64, 0x80 + wc % 64]
  }

  lemma {:induction false} MatchesRfc3629(wc: nat)
    requires wc <= 0x10FFFF
    ensures Encode(wc) == Rfc3629(wc)
  {
    assert Tail(wc, 1) == [wc % 64 + 0x80];
    assert Tail(wc, 2) == Tail(wc / 64, 1) + [wc % 64 + 0x80];
    assert Tail(wc, 3) == Tail(wc / 64, 2) + [wc % 64 + 0x80];
    assert Tail(wc / 64, 2) == Tail(wc / 64 / 64, 1) + [wc / 64 % 64 + 0x80];
    assert wc / 64 / 64 == wc / 4096;
    LeadValues(wc);
  }

  /** Above Unicode's range, the longer forms of section 2 of RFC 2279. */
  function Rfc2279(wc: nat): seq<int>
    requires wc > 0x10FFFF
  {
    if wc < 0x200000 then
      [0xf0 + wc / 262144, 0x80 + wc / 4096 % 64, 0x80 + wc / 64 % 64, 0x80 + wc % 64]
    else if wc < 0x4000000 then
      [0xf8 + wc / 16777216, 0x80 + wc / 262144 % 64, 0x80 + wc / 4096 % 64, 0x80 + wc / 64 % 64, 0x80 + wc % 64]
    else
      [0xfc + wc / 1073741824, 0x80 + wc / 16777216 % 64, 0x80 + wc / 262144 % 64, 0x80 + wc / 4096 % 64,
       0x80 + wc / 64 % 64, 0x80 + wc % 64]
  }

  lemma {:induction false} MatchesRfc2279(wc: nat)
    requires 0x10FFFF < wc < 0x1_0000_0000
    ensures Encode(wc) == Rfc2279(wc)
  {
    var m := CharLen(wc) - 1;
    LeadValues(wc);
    forall k | 0 <= k < m ensures Tail(wc, m)[k] == Lead(wc, m - 1 - k) % 64 + 0x80 {
      TailAt(wc, m, k);
    }
  }

  // ----- which encodings are legal

  predicate Between(b: byte, lo: int, hi: int) { lo <= b <= hi }

  /** One character by the grammar in section 4 of RFC 3629. */
  predicate WellFormed(bs: seq<byte>) {
    if |bs| == 1 then Between(bs[0], 0x00, 0x7F)
    else if |bs| == 2 then Between(bs[0], 0xC2, 0xDF) && IsTail(bs[1])
    else if |bs| == 3 then
      && IsTail(bs[2])
      && (|| (bs[0] == 0xE0 && Between(bs[1], 0xA0, 0xBF))
          || (Between(bs[0], 0xE1, 0xEC) && IsTail(bs[1]))
          || (bs[0] == 0xED && Between(bs[1], 0x80, 0x9F))
          || (Between(bs[0], 0xEE, 0xEF) && IsTail(bs[1])))
    else if |bs| == 4 then
      && IsTail(bs[2]) && IsTail(bs[3])
      && (|| (bs[0] == 0xF0 && Between(bs[1], 0x90, 0xBF))
          || (Between(bs[0], 0xF1, 0xF3) && IsTail(bs[1]))
          || (bs[0] == 0xF4 && Between(bs[1], 0x80, 0x8F)))
    else false
  }

  /** A Unicode scalar value. */
  predicate Scalar(wc: nat) { wc <= 0x10FFFF && !(0xD800 <= wc <= 0xDFFF) }

  /** The four-byte forms above 0x10FFFF start with more than F4 8F. */
  lemma {:induction false} AboveFour(wc: nat)
    requires 0x110000 <= wc < 0x200000
    ensures |Encode(wc)| == 4 && Encode(wc)[0] >= 0xF4 && (Encode(wc)[0] == 0xF4 ==> Encode(wc)[1] >= 0x90)
  {
    MatchesRfc2279(wc);
    assert wc / 4096 == 64 * (wc / 262144) + wc / 4096 % 64;
  }

  /** What g_string_insert_unichar writes is legal exactly for the scalar values. */
  lemma {:induction false} LegalIff(wc: nat)
    requires wc < 0x1_0000_0000
    ensures WellFormed(Encode(wc)) <==> Scalar(wc)
  {
    if wc <= 0x10FFFF {
      MatchesRfc3629(wc);
      TableLegal(wc);
    } else if wc < 0x200000 {
      AboveFour(wc);
    }
  }

  /** The table in section 3 and the grammar in section 4 agree on the scalar values. */
  lemma {:induction false} TableLegal(wc: nat)
    requires wc <= 0x10FFFF
    ensures (forall i :: 0 <= i < |Rfc3629(wc)| ==> 0 <= Rfc3629(wc)[i] < 256)
    ensures WellFormed(Rfc3629(wc)) <==> Scalar(wc)
  {
    SixBits(wc);
    if wc < 0x800 {
      TwoLegal(wc, wc / 64, wc % 64);
    } else if wc < 0x10000 {
      ThreeLegal(wc, wc / 4096, wc / 64 % 64, wc % 64);
    } else {
      FourLegal(wc, wc / 262144, wc / 4096 % 64, wc / 64 % 64, wc % 64);
    }
  }

  /** A number and its groups of six bits. */
  lemma {:induction false} SixBits(wc: nat)
    ensures wc == wc / 64 * 64 + wc % 64 && wc / 64 == wc / 4096 * 64 + wc / 64 % 64
    ensures wc / 4096 == wc / 262144 * 64 + wc / 4096 % 64
    ensures 0 <= wc % 64 < 64 && 0 <= wc / 64 % 64 < 64 && 0 <= wc / 4096 % 64 < 64
  {
    Nest(wc, 64);
    Nest(wc, 4096);
    Nest(wc / 64, 64);
  }

  lemma {:induction false} TwoLegal(wc: nat, a: int, b: int)
    requires wc < 0x800 && 0 <= b < 64 && wc == a * 64 + b
    ensures wc < 0x80 ==> WellFormed([wc])
    ensures 0x80 <= wc ==> 0xc0 <= 0xc0 + a < 0xe0 && WellFormed([0xc0 + a, 0x80 + b])
  {
  }

  lemma {:induction false} ThreeLegal(wc: nat, a: int, b: int, c: int)
    requires 0x800 <= wc < 0x10000 && 0 <= b < 64 && 0 <= c < 64 && wc == a * 4096 + b * 64 + c
    ensures 0xe0 <= 0xe0 + a < 0xf0 && (WellFormed([0xe0 + a, 0x80 + b, 0x80 + c]) <==> Scalar(wc))
  {
  }

  lemma {:induction false} FourLegal(wc: nat, a: int, b: int, c: int, d: int)
    requires 0x10000 <= wc <= 0x10FFFF && 0 <= b < 64 && 0 <= c < 64 && 0 <= d < 64
    requires wc == a * 262144 + b * 4096 + c * 64 + d
    ensures 0xf0 <= 0xf0 + a < 0xf8 && (WellFormed([0xf0 + a, 0x80 + b, 0x80 + c, 0x80 + d]) <==> Scalar(wc))
  {
  }

  /** The first surrogate is encoded as three bytes that are not legal. */
  lemma {:induction false} SurrogateWritten()
    ensures Encode(0xD800) == [0xED, 0xA0, 0x80] && !WellFormed(Encode(0xD800))
  {
    MatchesRfc3629(0xD800);
    LegalIff(0xD800);
  }

  lemma {:induction false} LegalDecodes(bs: seq<byte>)
    requires WellFormed(bs)
    ensures DecodeOne(bs).Some? && DecodeOne(bs).value.1 == |bs|
  {
    var n := |bs|;
    assert Announced(bs[0]) == n;
    assert forall i :: 1 <= i < n ==> IsTail(bs[i]);
    var v := bs[0] - Marker(n);
    assert bs[1..n] == bs[1..];
    JoinIs(v, bs[1..]);
  }

  /** The bits of short forms put together. */
  lemma {:induction false} JoinIs(v: int, bs: seq<byte>)
    ensures |bs| == 0 ==> Join(v, bs) == v
    ensures |bs| == 1 ==> Join(v, bs) == v * 64 + bs[0] - 0x80
    ensures |bs| == 2 ==> Join(v, bs) == (v * 64 + bs[0] - 0x80) * 64 + bs[1] - 0x80
    ensures |bs| == 3 ==> Join(v, bs) == ((v * 64 + bs[0] - 0x80) * 64 + bs[1] - 0x80) * 64 + bs[2] - 0x80
  {
    if bs != [] { JoinIs(v, bs[..|bs| - 1]); }
  }

  /** Every legal character is the encoding of one scalar value. */
  lemma {:induction false} LegalAreEncodings(bs: seq<byte>) returns (wc: nat)
    requires WellFormed(bs)
    ensures Scalar(wc) && Encode(wc) == bs
  {
    LegalDecodes(bs);
    EncodeDecode(bs);
    wc := DecodeOne(bs).value.0;
    assert bs[..|bs|] == bs;
    LegalIff(wc);
  }
}
