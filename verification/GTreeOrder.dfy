/**
 The sorted sequence of entries that a GTree stands for, and what the user's
 comparison function must do for it to be searchable.
 */
module GTreeOrder {
  import opened Options
  import opened GTreeShape

  type Compare = (int, int) -> int

  /** The stored keys come in strictly ascending order. */
  ghost predicate Sorted(cmp: Compare, es: seq<Entry>) {
    forall i, j :: 0 <= i < j < |es| ==> cmp(es[i].key, es[j].key) < 0
  }

  ghost predicate AllAbove(cmp: Compare, key: int, es: seq<Entry>) {
    forall i :: 0 <= i < |es| ==> cmp(key, es[i].key) > 0
  }

  ghost predicate AllBelow(cmp: Compare, key: int, es: seq<Entry>) {
    forall i :: 0 <= i < |es| ==> cmp(key, es[i].key) < 0
  }

  /**
   A search for `key` makes sense: going through the entries in order, the
   comparison is first positive, then zero at most once, then negative.  This
   is weaker than asking for a total order, and it covers search keys that are
   never stored (tb_tc_cmp in src/tcg/tcg.c finds the block holding a program
   counter this way).
   */
  ghost predicate Searchable(cmp: Compare, key: int, es: seq<Entry>) {
    forall i, j :: 0 <= i < j < |es| && cmp(key, es[i].key) <= 0 ==> cmp(key, es[j].key) < 0
  }

  /** The stored keys compare with `key` the other way round as `key` does with them. */
  ghost predicate Mirrored(cmp: Compare, key: int, es: seq<Entry>) {
    forall i :: 0 <= i < |es| ==>
      && (cmp(key, es[i].key) > 0 <==> cmp(es[i].key, key) < 0)
      && (cmp(key, es[i].key) < 0 <==> cmp(es[i].key, key) > 0)
  }

  /** qsort()-style comparison: what g_tree_new asks for. */
  ghost predicate TotalPreorder(cmp: Compare) {
    && (forall a, b :: cmp(a, b) > 0 <==> cmp(b, a) < 0)
    && (forall a, b, c :: cmp(a, b) <= 0 && cmp(b, c) <= 0 ==> cmp(a, c) <= 0)
  }

  lemma {:induction false} PreorderFits(cmp: Compare, key: int, es: seq<Entry>)
    requires TotalPreorder(cmp) && Sorted(cmp, es)
    ensures Searchable(cmp, key, es) && Mirrored(cmp, key, es)
  {
    forall i, j | 0 <= i < j < |es| && cmp(key, es[i].key) <= 0
      ensures cmp(key, es[j].key) < 0
    {
      var a, b := es[i].key, es[j].key;
      assert cmp(a, b) < 0;
      assert cmp(b, key) <= 0 ==> cmp(b, a) <= 0;
    }
  }

  /** How many entries lie before `key`. */
  ghost function Rank(cmp: Compare, key: int, es: seq<Entry>): nat
    ensures Rank(cmp, key, es) <= |es|
  {
    if es == [] || cmp(key, es[0].key) <= 0 then 0 else 1 + Rank(cmp, key, es[1..])
  }

  ghost predicate Found(cmp: Compare, key: int, es: seq<Entry>) {
    var i := Rank(cmp, key, es);
    i < |es| && cmp(key, es[i].key) == 0
  }

  /** What a lookup of `key` yields. */
  ghost function Lookup(cmp: Compare, key: int, es: seq<Entry>): Option<Entry> {
    if Found(cmp, key, es) then Some(es[Rank(cmp, key, es)]) else None
  }

  ghost function Inserted(cmp: Compare, es: seq<Entry>, key: int, value: int, replace: bool, node: Node): seq<Entry> {
    var i := Rank(cmp, key, es);
    if Found(cmp, key, es)
    then es[i := Entry(es[i].node, if replace then key else es[i].key, value)]
    else es[..i] + [Entry(node, key, value)] + es[i..]
  }

  ghost function Removed(cmp: Compare, es: seq<Entry>, key: int): seq<Entry> {
    var i := Rank(cmp, key, es);
    if Found(cmp, key, es) then es[..i] + es[i + 1..] else es
  }

  lemma {:induction false} RankIs(cmp: Compare, key: int, xs: seq<Entry>, ys: seq<Entry>)
    requires AllAbove(cmp, key, xs)
    requires ys == [] || cmp(key, ys[0].key) <= 0
    ensures Rank(cmp, key, xs + ys) == |xs|
  {
    if xs == [] {
      assert xs + ys == ys;
    } else {
      assert (xs + ys)[1..] == xs[1..] + ys;
      RankIs(cmp, key, xs[1..], ys);
    }
  }

  lemma {:induction false} RankSplits(cmp: Compare, key: int, es: seq<Entry>)
    ensures var i := Rank(cmp, key, es);
      AllAbove(cmp, key, es[..i]) && (i < |es| ==> cmp(key, es[i].key) <= 0)
  {
    if es != [] && cmp(key, es[0].key) > 0 {
      RankSplits(cmp, key, es[1..]);
      var i := Rank(cmp, key, es);
      assert es[..i] == [es[0]] + es[1..][..i - 1];
    }
  }

  /** In a searchable sequence a key is found exactly when some entry compares equal to it. */
  lemma {:induction false} FoundIff(cmp: Compare, key: int, es: seq<Entry>)
    requires Searchable(cmp, key, es)
    ensures Found(cmp, key, es) <==> exists i :: 0 <= i < |es| && cmp(key, es[i].key) == 0
  {
    RankSplits(cmp, key, es);
    var r := Rank(cmp, key, es);
    assert forall i :: 0 <= i < r ==> es[..r][i] == es[i];
  }

  /** What one comparison says about the entries on either side. */
  lemma {:induction false} SearchStep(cmp: Compare, key: int, xs: seq<Entry>, e: Entry, ys: seq<Entry>)
    requires Searchable(cmp, key, xs + [e] + ys)
    ensures cmp(key, e.key) <= 0 ==> AllBelow(cmp, key, ys)
    ensures cmp(key, e.key) >= 0 ==> AllAbove(cmp, key, xs)
  {
    var es := xs + [e] + ys;
    assert es[|xs|] == e;
    assert forall i :: 0 <= i < |xs| ==> es[i] == xs[i];
    assert forall i :: 0 <= i < |ys| ==> es[|xs| + 1 + i] == ys[i];
  }

  /** Any way of naming the place where a key belongs names its rank. */
  lemma {:induction false} LookupAt(cmp: Compare, key: int, xs: seq<Entry>, ys: seq<Entry>)
    requires AllAbove(cmp, key, xs) && (ys == [] || cmp(key, ys[0].key) <= 0)
    ensures Lookup(cmp, key, xs + ys) ==
      if ys != [] && cmp(key, ys[0].key) == 0 then Some(ys[0]) else None
  {
    RankIs(cmp, key, xs, ys);
    if ys != [] { assert (xs + ys)[|xs|] == ys[0]; }
  }

  /** Lookup at, just before and just after a given entry. */
  lemma {:induction false} LookupAround(cmp: Compare, key: int, xs: seq<Entry>, e: Entry, ys: seq<Entry>)
    requires Searchable(cmp, key, xs + [e] + ys)
    ensures var es := xs + [e] + ys;
      && (cmp(key, e.key) == 0 ==> Lookup(cmp, key, es) == Some(e) && Rank(cmp, key, es) == |xs|)
      && (cmp(key, e.key) < 0 && AllAbove(cmp, key, xs) ==> Lookup(cmp, key, es) == None && Rank(cmp, key, es) == |xs|)
      && (cmp(key, e.key) > 0 && AllBelow(cmp, key, ys) ==>
            Lookup(cmp, key, es) == None && Rank(cmp, key, es) == |xs| + 1)
  {
    var es := xs + [e] + ys;
    SearchStep(cmp, key, xs, e, ys);
    if cmp(key, e.key) > 0 {
      LookupAfter(cmp, key, xs, e, ys);
    } else if AllAbove(cmp, key, xs) {
      assert es == xs + ([e] + ys);
      LookupAt(cmp, key, xs, [e] + ys);
      RankIs(cmp, key, xs, [e] + ys);
    }
  }

  lemma {:induction false} LookupAfter(cmp: Compare, key: int, xs: seq<Entry>, e: Entry, ys: seq<Entry>)
    requires AllAbove(cmp, key, xs) && cmp(key, e.key) > 0
    ensures var es := xs + [e] + ys;
      AllBelow(cmp, key, ys) ==> Lookup(cmp, key, es) == None && Rank(cmp, key, es) == |xs| + 1
  {
    if AllBelow(cmp, key, ys) {
      LookupAt(cmp, key, xs + [e], ys);
      RankIs(cmp, key, xs + [e], ys);
    }
  }

  lemma {:induction false} SortedAround(cmp: Compare, xs: seq<Entry>, e: Entry, ys: seq<Entry>)
    requires Sorted(cmp, xs + ys)
    requires forall i :: 0 <= i < |xs| ==> cmp(xs[i].key, e.key) < 0
    requires forall i :: 0 <= i < |ys| ==> cmp(e.key, ys[i].key) < 0
    ensures Sorted(cmp, xs + [e] + ys)
  {
    var es, os := xs + [e] + ys, xs + ys;
    forall i, j | 0 <= i < j < |es| ensures cmp(es[i].key, es[j].key) < 0 {
      if i != |xs| && j != |xs| {
        assert es[i] == os[if i < |xs| then i else i - 1];
        assert es[j] == os[if j < |xs| then j else j - 1];
      }
    }
  }

  lemma {:induction false} SplitSorted(cmp: Compare, es: seq<Entry>, i: nat, e: Entry)
    requires Sorted(cmp, es) && i <= |es|
    requires forall j :: 0 <= j < i ==> cmp(es[j].key, e.key) < 0
    requires forall j :: i <= j < |es| ==> cmp(e.key, es[j].key) < 0
    ensures Sorted(cmp, es[..i] + [e] + es[i..])
  {
    assert es[..i] + es[i..] == es;
    SortedAround(cmp, es[..i], e, es[i..]);
  }

  lemma {:induction false} OverwrittenSorted(cmp: Compare, es: seq<Entry>, i: nat, e: Entry)
    requires Sorted(cmp, es) && i < |es|
    requires forall j :: 0 <= j < i ==> cmp(es[j].key, e.key) < 0
    requires forall j :: i < j < |es| ==> cmp(e.key, es[j].key) < 0
    ensures Sorted(cmp, es[i := e])
  {
  }

  /** The entries before the rank of `key` are smaller, those from there on are not. */
  lemma {:induction false} RankSides(cmp: Compare, key: int, es: seq<Entry>)
    requires Searchable(cmp, key, es) && Mirrored(cmp, key, es)
    ensures var i := Rank(cmp, key, es);
      && (forall j :: 0 <= j < i ==> cmp(es[j].key, key) < 0)
      && (forall j :: i < j < |es| ==> cmp(key, es[j].key) < 0)
      && (i < |es| && !Found(cmp, key, es) ==> cmp(key, es[i].key) < 0)
  {
    RankSplits(cmp, key, es);
    var i := Rank(cmp, key, es);
    forall j | 0 <= j < i ensures cmp(es[j].key, key) < 0 {
      assert es[..i][j] == es[j];
    }
  }

  /** Insertion and removal keep the entries sorted. */
  lemma {:induction false} InsertedSorted(cmp: Compare, es: seq<Entry>, key: int, value: int, replace: bool, node: Node)
    requires Sorted(cmp, es) && Searchable(cmp, key, es) && Mirrored(cmp, key, es)
    ensures Sorted(cmp, Inserted(cmp, es, key, value, replace, node))
  {
    var i := Rank(cmp, key, es);
    RankSides(cmp, key, es);
    if Found(cmp, key, es) {
      OverwrittenSorted(cmp, es, i, Entry(es[i].node, if replace then key else es[i].key, value));
    } else {
      SplitSorted(cmp, es, i, Entry(node, key, value));
    }
  }

  lemma {:induction false} RemovedSorted(cmp: Compare, es: seq<Entry>, key: int)
    requires Sorted(cmp, es)
    ensures Sorted(cmp, Removed(cmp, es, key))
  {
  }

  // ----- what the sequence functions do, without a rank

  /** A lookup yields an entry that compares equal, if there is one. */
  lemma {:induction false} LookupIs(cmp: Compare, key: int, es: seq<Entry>)
    requires Searchable(cmp, key, es)
    ensures Lookup(cmp, key, es).Some? <==> exists e :: e in es && cmp(key, e.key) == 0
    ensures Lookup(cmp, key, es).Some? ==>
      Lookup(cmp, key, es).value in es && cmp(key, Lookup(cmp, key, es).value.key) == 0
  {
    FoundIff(cmp, key, es);
  }

  /** A new key gets an entry of its own; an equal one keeps its node, and its old key unless that is replaced. */
  lemma {:induction false} InsertedIs(cmp: Compare, es: seq<Entry>, key: int, value: int, replace: bool, node: Node)
    returns (i: nat)
    requires Searchable(cmp, key, es)
    ensures i <= |es|
    ensures (forall e :: e in es ==> cmp(key, e.key) != 0) ==>
      Inserted(cmp, es, key, value, replace, node) == es[..i] + [Entry(node, key, value)] + es[i..]
    ensures (exists e :: e in es && cmp(key, e.key) == 0) ==>
      && i < |es| && cmp(key, es[i].key) == 0
      && (replace ==> Inserted(cmp, es, key, value, replace, node) == es[i := Entry(es[i].node, key, value)])
      && (!replace ==> Inserted(cmp, es, key, value, replace, node) == es[i := Entry(es[i].node, es[i].key, value)])
  {
    LookupIs(cmp, key, es);
    i := Rank(cmp, key, es);
  }

  /** Exactly the equal entry goes. */
  lemma {:induction false} RemovedIs(cmp: Compare, es: seq<Entry>, key: int) returns (i: nat)
    requires Searchable(cmp, key, es)
    ensures i <= |es|
    ensures (forall e :: e in es ==> cmp(key, e.key) != 0) ==> Removed(cmp, es, key) == es
    ensures (exists e :: e in es && cmp(key, e.key) == 0) ==>
      i < |es| && cmp(key, es[i].key) == 0 && Removed(cmp, es, key) == es[..i] + es[i + 1..]
  {
    LookupIs(cmp, key, es);
    i := Rank(cmp, key, es);
  }

  // ----- an insertion or removal is an update of the map from keys to values

  lemma {:induction false} Congruent(cmp: Compare, a: int, b: int, c: int)
    requires TotalPreorder(cmp) && cmp(a, b) == 0
    ensures cmp(a, c) == 0 <==> cmp(b, c) == 0
    ensures cmp(c, a) == 0 <==> cmp(c, b) == 0
  {
    assert cmp(b, a) == 0;
    assert cmp(c, a) <= 0 <==> cmp(c, b) <= 0;
    assert cmp(a, c) <= 0 <==> cmp(b, c) <= 0;
  }

  /** `r` is what a lookup of `k` among the entries `es` should yield. */
  ghost predicate Yields(cmp: Compare, k: int, es: seq<Entry>, r: Option<Entry>) {
    if r.Some? then r.value in es && cmp(k, r.value.key) == 0 else forall e :: e in es ==> cmp(k, e.key) != 0
  }

  /** At most one entry compares equal, and a lookup yields it. */
  lemma {:induction false} LookupYields(cmp: Compare, k: int, es: seq<Entry>, r: Option<Entry>)
    requires Searchable(cmp, k, es) && Yields(cmp, k, es, r)
    ensures Lookup(cmp, k, es) == r
  {
    RankSplits(cmp, k, es);
    var i := Rank(cmp, k, es);
    if r.Some? {
      assert forall j :: 0 <= j < i ==> es[..i][j] == es[j];
      var j :| 0 <= j < |es| && es[j] == r.value;
    } else {
      assert i < |es| ==> es[i] in es;
    }
  }

  lemma {:induction false} YieldsLookup(cmp: Compare, k: int, es: seq<Entry>)
    requires Searchable(cmp, k, es)
    ensures Yields(cmp, k, es, Lookup(cmp, k, es))
  {
    FoundIff(cmp, k, es);
  }

  /** What the lookup of `k` yields after an insertion under `key`. */
  ghost function Updated(cmp: Compare, was: Option<Entry>, key: int, value: int, replace: bool, node: Node, k: int)
    : Option<Entry>
  {
    if cmp(k, key) != 0 then was
    else if was.Some? then Some(Entry(was.value.node, if replace then key else was.value.key, value))
    else Some(Entry(node, key, value))
  }

  lemma {:induction false} UpdatedNew(cmp: Compare, xs: seq<Entry>, ys: seq<Entry>, x: Entry, k: int,
                                      was: Option<Entry>)
    requires Yields(cmp, k, xs + ys, was) && (cmp(k, x.key) == 0 ==> was.None?)
    ensures Yields(cmp, k, xs + [x] + ys, if cmp(k, x.key) == 0 then Some(x) else was)
  {
    var out := xs + [x] + ys;
    assert out[|xs|] == x;
    forall e ensures e in out <==> e in xs + ys || e == x {
      assert e in out <==> e in xs || e == x || e in ys;
    }
  }

  lemma {:induction false} UpdatedOver(cmp: Compare, es: seq<Entry>, i: nat, x: Entry, k: int, was: Option<Entry>)
    requires i < |es| && Yields(cmp, k, es, was)
    requires cmp(k, es[i].key) == 0 <==> cmp(k, x.key) == 0
    requires cmp(k, es[i].key) == 0 ==> was == Some(es[i])
    ensures Yields(cmp, k, es[i := x], if cmp(k, x.key) == 0 then Some(x) else was)
  {
    var out := es[i := x];
    assert out[i] == x;
    if was.Some? && cmp(k, x.key) != 0 {
      var j :| 0 <= j < |es| && es[j] == was.value;
      assert out[j] == es[j];
    } else if was.None? {
      forall e | e in out ensures cmp(k, e.key) != 0 {
        var j :| 0 <= j < |out| && out[j] == e;
        assert es[j] in es && es[i] in es;
      }
    }
  }

  /** An insertion changes what is found under the keys equal to the inserted one, and nothing else. */
  lemma {:induction false} InsertedLookup(cmp: Compare, es: seq<Entry>, key: int, value: int, replace: bool,
                                          node: Node, k: int)
    requires TotalPreorder(cmp) && Sorted(cmp, es)
    ensures Lookup(cmp, k, Inserted(cmp, es, key, value, replace, node))
         == Updated(cmp, Lookup(cmp, k, es), key, value, replace, node, k)
  {
    var out, was := Inserted(cmp, es, key, value, replace, node), Lookup(cmp, k, es);
    PreorderFits(cmp, key, es);
    InsertedSorted(cmp, es, key, value, replace, node);
    PreorderFits(cmp, k, es);
    PreorderFits(cmp, k, out);
    InsertedYields(cmp, es, key, value, replace, node, k);
    LookupYields(cmp, k, out, Updated(cmp, was, key, value, replace, node, k));
  }

  lemma {:induction false} InsertedYields(cmp: Compare, es: seq<Entry>, key: int, value: int, replace: bool,
                                          node: Node, k: int)
    requires TotalPreorder(cmp) && Searchable(cmp, k, es) && Searchable(cmp, key, es)
    ensures Yields(cmp, k, Inserted(cmp, es, key, value, replace, node),
                   Updated(cmp, Lookup(cmp, k, es), key, value, replace, node, k))
  {
    if Found(cmp, key, es) {
      OverwrittenYields(cmp, es, key, value, replace, k);
    } else {
      NewYields(cmp, es, key, value, node, k);
    }
  }

  lemma {:induction false} OverwrittenYields(cmp: Compare, es: seq<Entry>, key: int, value: int, replace: bool, k: int)
    requires TotalPreorder(cmp) && Searchable(cmp, k, es) && Searchable(cmp, key, es) && Found(cmp, key, es)
    ensures var i := Rank(cmp, key, es);
      var x := Entry(es[i].node, if replace then key else es[i].key, value);
      Yields(cmp, k, es[i := x], if cmp(k, key) == 0 then Some(x) else Lookup(cmp, k, es))
    ensures cmp(k, key) == 0 ==> Lookup(cmp, k, es) == Some(es[Rank(cmp, key, es)])
  {
    var i := Rank(cmp, key, es);
    var x := Entry(es[i].node, if replace then key else es[i].key, value);
    YieldsLookup(cmp, k, es);
    SameLookup(cmp, key, k, es);
    Congruent(cmp, key, es[i].key, k);
    UpdatedOver(cmp, es, i, x, k, Lookup(cmp, k, es));
  }

  lemma {:induction false} NewYields(cmp: Compare, es: seq<Entry>, key: int, value: int, node: Node, k: int)
    requires TotalPreorder(cmp) && Searchable(cmp, k, es) && Searchable(cmp, key, es) && !Found(cmp, key, es)
    ensures var i, x := Rank(cmp, key, es), Entry(node, key, value);
      Yields(cmp, k, es[..i] + [x] + es[i..], if cmp(k, key) == 0 then Some(x) else Lookup(cmp, k, es))
    ensures cmp(k, key) == 0 ==> Lookup(cmp, k, es) == None
  {
    var i := Rank(cmp, key, es);
    YieldsLookup(cmp, k, es);
    SameLookup(cmp, key, k, es);
    assert es[..i] + es[i..] == es;
    UpdatedNew(cmp, es[..i], es[i..], Entry(node, key, value), k, Lookup(cmp, k, es));
  }

  /** Keys that compare equal find the same entry. */
  lemma {:induction false} SameLookup(cmp: Compare, key: int, k: int, es: seq<Entry>)
    requires TotalPreorder(cmp) && Searchable(cmp, k, es) && Searchable(cmp, key, es)
    ensures cmp(k, key) == 0 ==> Lookup(cmp, k, es) == Lookup(cmp, key, es)
    ensures Found(cmp, key, es) && cmp(k, es[Rank(cmp, key, es)].key) == 0 ==>
      Lookup(cmp, k, es) == Lookup(cmp, key, es)
  {
    YieldsLookup(cmp, key, es);
    var r := Lookup(cmp, key, es);
    if cmp(k, key) == 0 {
      if r.Some? {
        Congruent(cmp, k, key, r.value.key);
      } else {
        forall e | e in es ensures cmp(k, e.key) != 0 { Congruent(cmp, k, key, e.key); }
      }
      LookupYields(cmp, k, es, r);
    } else if r.Some? && cmp(k, r.value.key) == 0 {
      LookupYields(cmp, k, es, r);
    }
  }

  lemma {:induction false} YieldsWithout(cmp: Compare, es: seq<Entry>, i: nat, k: int, was: Option<Entry>)
    requires i < |es| && Searchable(cmp, k, es) && Yields(cmp, k, es, was)
    ensures Yields(cmp, k, es[..i] + es[i + 1..], if cmp(k, es[i].key) == 0 then None else was)
  {
    var out := es[..i] + es[i + 1..];
    forall e | e in out ensures exists j :: 0 <= j < |es| && j != i && es[j] == e {
      var j :| 0 <= j < |out| && out[j] == e;
      assert es[if j < i then j else j + 1] == e;
    }
    if was.Some? && cmp(k, es[i].key) != 0 {
      var j :| 0 <= j < |es| && es[j] == was.value;
      assert out[if j < i then j else j - 1] == es[j];
    }
  }

  /** A removal takes away what is found under the keys equal to the removed one, and nothing else. */
  lemma {:induction false} RemovedLookup(cmp: Compare, es: seq<Entry>, key: int, k: int)
    requires TotalPreorder(cmp) && Sorted(cmp, es)
    ensures Lookup(cmp, k, Removed(cmp, es, key)) == if cmp(k, key) == 0 then None else Lookup(cmp, k, es)
  {
    var out, i := Removed(cmp, es, key), Rank(cmp, key, es);
    PreorderFits(cmp, key, es);
    RemovedSorted(cmp, es, key);
    PreorderFits(cmp, k, es);
    PreorderFits(cmp, k, out);
    SameLookup(cmp, key, k, es);
    if Found(cmp, key, es) {
      YieldsLookup(cmp, k, es);
      Congruent(cmp, key, es[i].key, k);
      YieldsWithout(cmp, es, i, k, Lookup(cmp, k, es));
      LookupYields(cmp, k, out, if cmp(k, key) == 0 then None else Lookup(cmp, k, es));
    }
  }
}
