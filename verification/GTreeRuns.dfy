/**
 Whole runs of the tree in glib/gtree.c: whatever is inserted and removed, in
 whatever order, the tree answers like a map from keys to values.
 */
module GTreeRuns {
  import opened Options
  import opened GTreeShape
  import opened GTreeOrder
  import opened GTrees

  datatype Op = Put(key: int, value: int) | Drop(key: int)

  /** The value that a map holds for `k` after the operations; keys that compare equal are one key. */
  ghost function MapAfter(cmp: Compare, ops: seq<Op>, k: int): Option<int> {
    if ops == [] then None
    else
      var last, before := ops[|ops| - 1], MapAfter(cmp, ops[..|ops| - 1], k);
      if cmp(k, last.key) != 0 then before
      else if last.Put? then Some(last.value)
      else None
  }

  /** How many entries such a map has after the operations. */
  ghost function SizeAfter(cmp: Compare, ops: seq<Op>): int {
    if ops == [] then 0
    else
      var last, before := ops[|ops| - 1], ops[..|ops| - 1];
      var had := MapAfter(cmp, before, last.key).Some?;
      SizeAfter(cmp, before) + (if last.Put? && !had then 1 else if last.Drop? && had then -1 else 0)
  }

  /** Before every operation the path is long enough for the map's entries. */
  ghost predicate StaysSmall(cmp: Compare, ops: seq<Op>) {
    forall i :: 0 <= i < |ops| ==> SizeAfter(cmp, ops[..i]) < PATH_NODE_LIMIT
  }

  ghost function ValueOf(e: Option<Entry>): Option<int> {
    if e.Some? then Some(e.value.value) else None
  }

  ghost predicate Answers(cmp: Compare, es: seq<Entry>, ops: seq<Op>) {
    |es| == SizeAfter(cmp, ops) && forall k :: ValueOf(Lookup(cmp, k, es)) == MapAfter(cmp, ops, k)
  }

  lemma {:induction false} PutAnswers(cmp: Compare, es: seq<Entry>, ops: seq<Op>, key: int, value: int, node: Node)
    requires TotalPreorder(cmp) && Sorted(cmp, es) && Answers(cmp, es, ops)
    ensures Answers(cmp, Inserted(cmp, es, key, value, false, node), ops + [Put(key, value)])
  {
    assert (ops + [Put(key, value)])[..|ops|] == ops;
    assert ValueOf(Lookup(cmp, key, es)) == MapAfter(cmp, ops, key);
    forall k
      ensures ValueOf(Lookup(cmp, k, Inserted(cmp, es, key, value, false, node)))
           == MapAfter(cmp, ops + [Put(key, value)], k)
    {
      InsertedLookup(cmp, es, key, value, false, node, k);
    }
  }

  lemma {:induction false} DropAnswers(cmp: Compare, es: seq<Entry>, ops: seq<Op>, key: int)
    requires TotalPreorder(cmp) && Sorted(cmp, es) && Answers(cmp, es, ops)
    ensures Answers(cmp, Removed(cmp, es, key), ops + [Drop(key)])
  {
    assert (ops + [Drop(key)])[..|ops|] == ops;
    assert ValueOf(Lookup(cmp, key, es)) == MapAfter(cmp, ops, key);
    forall k ensures ValueOf(Lookup(cmp, k, Removed(cmp, es, key))) == MapAfter(cmp, ops + [Drop(key)], k) {
      RemovedLookup(cmp, es, key, k);
    }
  }

  // ----- what becomes of the keys and values that are handed over

  /** The keys and the values that the operations hand to the tree. */
  ghost function KeysPut(ops: seq<Op>): multiset<int> {
    if ops == [] then multiset{}
    else
      var last, before := ops[|ops| - 1], KeysPut(ops[..|ops| - 1]);
      if last.Put? then before + multiset{last.key} else before
  }

  ghost function ValuesPut(ops: seq<Op>): multiset<int> {
    if ops == [] then multiset{}
    else
      var last, before := ops[|ops| - 1], ValuesPut(ops[..|ops| - 1]);
      if last.Put? then before + multiset{last.value} else before
  }

  /** What is held and what has been destroyed are together exactly what was handed over. */
  ghost predicate Balanced(held: seq<int>, gone: seq<int>, put: multiset<int>) {
    multiset(held) + multiset(gone) == put
  }

  lemma {:induction false} BalancedAfterAdding(xs: seq<int>, x: int, ys: seq<int>, gone: seq<int>, put: multiset<int>)
    requires Balanced(xs + ys, gone, put)
    ensures Balanced(xs + [x] + ys, gone, put + multiset{x})
  {
  }

  lemma {:induction false} BalancedAfterTaking(xs: seq<int>, x: int, ys: seq<int>, gone: seq<int>, put: multiset<int>)
    requires Balanced(xs + [x] + ys, gone, put)
    ensures Balanced(xs + ys, gone + [x], put)
  {
  }

  lemma {:induction false} BalancedAfterChanging(held: seq<int>, i: nat, x: int, gone: seq<int>, put: multiset<int>)
    requires i < |held| && Balanced(held, gone, put)
    ensures Balanced(held[i := x], gone + [held[i]], put + multiset{x})
  {
    assert held[i] in multiset(held);
  }

  lemma {:induction false} BalancedAfterPassing(held: seq<int>, x: int, gone: seq<int>, put: multiset<int>)
    requires Balanced(held, gone, put)
    ensures Balanced(held, gone + [x], put + multiset{x})
  {
  }

  lemma {:induction false} Changed(es: seq<Entry>, i: nat, value: int)
    requires i < |es|
    ensures Keys(es[i := es[i].(value := value)]) == Keys(es)
    ensures Values(es[i := es[i].(value := value)]) == Values(es)[i := value]
  {
  }

  lemma {:induction false} Joined(xs: seq<Entry>, e: Entry, ys: seq<Entry>)
    ensures Keys(xs + [e] + ys) == Keys(xs) + [e.key] + Keys(ys) && Keys(xs + ys) == Keys(xs) + Keys(ys)
    ensures Values(xs + [e] + ys) == Values(xs) + [e.value] + Values(ys) && Values(xs + ys) == Values(xs) + Values(ys)
  {
  }

  /** Every key and value handed over is held or has been destroyed, and none of them twice. */
  ghost predicate Accounted(es: seq<Entry>, keys: seq<int>, values: seq<int>, ops: seq<Op>) {
    Balanced(Keys(es), keys, KeysPut(ops)) && Balanced(Values(es), values, ValuesPut(ops))
  }

  lemma {:induction false} OneMorePut(ops: seq<Op>, op: Op)
    ensures KeysPut(ops + [op]) == if op.Put? then KeysPut(ops) + multiset{op.key} else KeysPut(ops)
    ensures ValuesPut(ops + [op]) == if op.Put? then ValuesPut(ops) + multiset{op.value} else ValuesPut(ops)
  {
    assert (ops + [op])[..|ops|] == ops;
  }

  lemma {:induction false} NewAccounted(cmp: Compare, es: seq<Entry>, ops: seq<Op>, key: int, value: int, node: Node,
                                        keys: seq<int>, values: seq<int>)
    requires Accounted(es, keys, values, ops) && !Found(cmp, key, es)
    ensures Accounted(Inserted(cmp, es, key, value, false, node), keys, values, ops + [Put(key, value)])
  {
    var i := Rank(cmp, key, es);
    var xs, ys := es[..i], es[i..];
    assert es == xs + ys;
    OneMorePut(ops, Put(key, value));
    Joined(xs, Entry(node, key, value), ys);
    BalancedAfterAdding(Keys(xs), key, Keys(ys), keys, KeysPut(ops));
    BalancedAfterAdding(Values(xs), value, Values(ys), values, ValuesPut(ops));
  }

  /** On a key that is there the key passed in is destroyed, and so is the value that was there. */
  lemma {:induction false} OldAccounted(cmp: Compare, es: seq<Entry>, ops: seq<Op>, key: int, value: int, node: Node,
                                        keys: seq<int>, values: seq<int>)
    requires Accounted(es, keys, values, ops) && Found(cmp, key, es)
    ensures Accounted(Inserted(cmp, es, key, value, false, node), keys + [key],
                      values + [Lookup(cmp, key, es).value.value], ops + [Put(key, value)])
  {
    var i := Rank(cmp, key, es);
    assert Inserted(cmp, es, key, value, false, node) == es[i := es[i].(value := value)];
    OneMorePut(ops, Put(key, value));
    Changed(es, i, value);
    BalancedAfterPassing(Keys(es), key, keys, KeysPut(ops));
    BalancedAfterChanging(Values(es), i, value, values, ValuesPut(ops));
  }

  lemma {:induction false} DropAccounted(cmp: Compare, es: seq<Entry>, ops: seq<Op>, key: int,
                                         keys: seq<int>, values: seq<int>)
    requires Accounted(es, keys, values, ops) && Found(cmp, key, es)
    ensures var e := Lookup(cmp, key, es).value;
      Accounted(Removed(cmp, es, key), keys + [e.key], values + [e.value], ops + [Drop(key)])
  {
    var i := Rank(cmp, key, es);
    var xs, e, ys := es[..i], es[i], es[i + 1..];
    assert es == xs + [e] + ys;
    OneMorePut(ops, Drop(key));
    Joined(xs, e, ys);
    BalancedAfterTaking(Keys(xs), e.key, Keys(ys), keys, KeysPut(ops));
    BalancedAfterTaking(Values(xs), e.value, Values(ys), values, ValuesPut(ops));
  }

  // ----- runs

  /** A tree with both destroy functions, after the operations. */
  ghost predicate InStep(t: GTree, ops: seq<Op>)
    reads t, t.nodes
  {
    && t.Valid() && t.hasKeyDestroy && t.hasValueDestroy
    && Answers(t.cmp, Entries(t.shape), ops)
    && Accounted(Entries(t.shape), t.destroyedKeys, t.destroyedValues, ops)
  }

  /** One operation on a tree that has been in step with the map so far. */
  method Perform(t: GTree, op: Op, ghost done: seq<Op>)
    requires InStep(t, done) && TotalPreorder(t.cmp) && |Entries(t.shape)| < PATH_NODE_LIMIT
    modifies t, t.nodes
    ensures InStep(t, done + [op]) && fresh(t.nodes - old(t.nodes))
  {
    ghost var es, keys, values := Entries(t.shape), t.destroyedKeys, t.destroyedValues;
    PreorderFits(t.cmp, op.key, es);
    SizeIsLength(t.shape);
    match op
    case Put(key, value) =>
      var node := t.Insert(key, value);
      PutAnswers(t.cmp, es, done, key, value, node);
      if Found(t.cmp, key, es) {
        OldAccounted(t.cmp, es, done, key, value, node, keys, values);
      } else {
        NewAccounted(t.cmp, es, done, key, value, node, keys, values);
      }
    case Drop(key) =>
      var removed := t.Remove(key);
      DropAnswers(t.cmp, es, done, key);
      if Found(t.cmp, key, es) { DropAccounted(t.cmp, es, done, key, keys, values); }
      OneMorePut(done, op);
  }

  lemma {:induction false} SmallBefore(cmp: Compare, ops: seq<Op>, n: nat)
    requires StaysSmall(cmp, ops) && n < |ops|
    ensures StaysSmall(cmp, ops[..n]) && SizeAfter(cmp, ops[..n]) < PATH_NODE_LIMIT
  {
    assert forall i :: 0 <= i < n ==> ops[..n][..i] == ops[..i];
  }

  method Begin(cmp: Compare) returns (t: GTree)
    ensures fresh(t) && fresh(t.nodes) && t.cmp == cmp && InStep(t, [])
  {
    t := new GTree(cmp, true, true);
  }

  /** Any run of operations on a new tree, of any length, as long as the map stays small enough for the path. */
  method PerformAll(cmp: Compare, ops: seq<Op>) returns (t: GTree)
    requires TotalPreorder(cmp) && StaysSmall(cmp, ops)
    ensures fresh(t) && fresh(t.nodes) && t.cmp == cmp && InStep(t, ops)
    decreases |ops|
  {
    if ops == [] {
      t := Begin(cmp);
    } else {
      var n := |ops| - 1;
      var done, op := ops[..n], ops[n];
      assert ops == done + [op];
      SmallBefore(cmp, ops, n);
      t := PerformAll(cmp, done);
      Perform(t, op, done);
    }
  }

  /** After any run, destroying the tree leaves every key and value that was handed over destroyed exactly once. */
  method PerformAndDestroy(cmp: Compare, ops: seq<Op>) returns (keys: seq<int>, values: seq<int>)
    requires TotalPreorder(cmp) && StaysSmall(cmp, ops)
    ensures multiset(keys) == KeysPut(ops) && multiset(values) == ValuesPut(ops)
  {
    var t := PerformAll(cmp, ops);
    var released, freed := t.Destroy();
    keys, values := t.destroyedKeys, t.destroyedValues;
  }

  /** What is asked afterwards: exactly the value of the map. */
  method Ask(t: GTree, key: int, ghost ops: seq<Op>) returns (value: Option<int>)
    requires t.Valid() && TotalPreorder(t.cmp) && Answers(t.cmp, Entries(t.shape), ops)
    ensures value == MapAfter(t.cmp, ops, key)
  {
    PreorderFits(t.cmp, key, Entries(t.shape));
    var node := t.FindNode(key);
    if node == null { return None; }
    t.LookupHeld(key);
    value := Some(node.value);
  }

  // ----- what a traversal does, seen by callbacks that keep a record

  /** One call of a callback. */
  datatype Call<S> = Call(before: S, key: int, value: int, after: S, stop: bool)

  /** A callback that does what `visit` does and writes it down. */
  function Tracer<S>(visit: (S, int, int) -> (S, bool)): ((S, seq<Call<S>>), int, int) -> ((S, seq<Call<S>>), bool) {
    (s: (S, seq<Call<S>>), k: int, v: int) =>
      var r := visit(s.0, k, v);
      ((r.0, s.1 + [Call(s.0, k, v, r.0, r.1)]), r.1)
  }

  /** The calls are for the first entries in order, and each takes over the state of the one before. */
  ghost predicate InOrder<S>(visit: (S, int, int) -> (S, bool), start: S, es: seq<Entry>, calls: seq<Call<S>>, state: S)
  {
    && |calls| <= |es|
    && (forall i :: 0 <= i < |calls| ==> calls[i].key == es[i].key && calls[i].value == es[i].value)
    && (forall i :: 0 <= i < |calls| ==>
          visit(calls[i].before, calls[i].key, calls[i].value) == (calls[i].after, calls[i].stop))
    && (calls != [] ==> calls[0].before == start)
    && (forall i :: 1 <= i < |calls| ==> calls[i].before == calls[i - 1].after)
    && state == if calls == [] then start else calls[|calls| - 1].after
  }

  lemma {:induction false} TracedInOrder<S>(visit: (S, int, int) -> (S, bool), start: S, es: seq<Entry>, n: nat)
    requires n <= |es|
    ensures var acc := Accumulated(Tracer(visit), (start, []), es, n);
      |acc.1| == n && InOrder(visit, start, es, acc.1, acc.0)
  {
    if n > 0 {
      TracedInOrder(visit, start, es, n - 1);
      OneMore(visit, start, es, Accumulated(Tracer(visit), (start, []), es, n - 1).1,
              Accumulated(Tracer(visit), (start, []), es, n - 1).0);
    }
  }

  lemma {:induction false} OneMore<S>(visit: (S, int, int) -> (S, bool), start: S, es: seq<Entry>,
                                      calls: seq<Call<S>>, state: S)
    requires InOrder(visit, start, es, calls, state) && |calls| < |es|
    ensures var e := es[|calls|];
      var r := visit(state, e.key, e.value);
      InOrder(visit, start, es, calls + [Call(state, e.key, e.value, r.0, r.1)], r.0)
  {
  }

  /** The record of `n` calls starts with that of fewer calls. */
  lemma {:induction false} TracedPrefix<S>(visit: (S, int, int) -> (S, bool), start: S, es: seq<Entry>, j: nat, n: nat)
    requires j < n <= |es|
    ensures var calls := Accumulated(Tracer(visit), (start, []), es, n).1;
      |calls| == n && (calls[j].stop <==> Stops(Tracer(visit), (start, []), es, j))
  {
    TracedInOrder(visit, start, es, n - 1);
    if j < n - 1 { TracedPrefix(visit, start, es, j, n - 1); }
  }

  lemma {:induction false} WentOn<S>(visit: (S, int, int) -> (S, bool), start: S, es: seq<Entry>, j: nat, n: nat)
    requires n <= |es| && GoesOn(visit, start, es, n) && j < n
    ensures !Stops(visit, start, es, j)
  {
    if j < n - 1 { WentOn(visit, start, es, j, n - 1); }
  }

  /**
   For any callback: it is called for the entries in order, each call with the
   state the one before left, up to and including the first that says stop, and
   for all entries if none does.
   */
  method Trace<S>(t: GTree, visit: (S, int, int) -> (S, bool), start: S) returns (state: S, calls: seq<Call<S>>)
    requires t.Valid()
    ensures InOrder(visit, start, Entries(t.shape), calls, state)
    ensures forall i :: 0 <= i < |calls| - 1 ==> !calls[i].stop
    ensures |calls| < |Entries(t.shape)| ==> calls != [] && calls[|calls| - 1].stop
  {
    ghost var es := Entries(t.shape);
    var acc: (S, seq<Call<S>>), n := t.Foreach(Tracer(visit), (start, []));
    state, calls := acc.0, acc.1;
    TracedInOrder(visit, start, es, n);
    forall i | 0 <= i < |calls| - 1 ensures !calls[i].stop {
      TracedPrefix(visit, start, es, i, n);
      WentOn(Tracer(visit), (start, []), es, i, n - 1);
    }
    if n < |es| { TracedPrefix(visit, start, es, n - 1, n); }
  }

  /** A callback that never says stop sees every key, in ascending order. */
  method AllKeys(t: GTree) returns (keys: seq<int>)
    requires t.Valid()
    ensures |keys| == |Entries(t.shape)| && forall i :: 0 <= i < |keys| ==> keys[i] == Entries(t.shape)[i].key
  {
    keys := Gather(t, (k, v) => k, (k, v) => false);
  }

  /** ... and every value. */
  method AllValues(t: GTree) returns (values: seq<int>)
    requires t.Valid()
    ensures |values| == |Entries(t.shape)| && forall i :: 0 <= i < |values| ==> values[i] == Entries(t.shape)[i].value
  {
    values := Gather(t, (k, v) => v, (k, v) => false);
  }

  /** A callback that says stop at a key sees the keys up to and including the first such entry. */
  method KeysUpTo(t: GTree, key: int) returns (keys: seq<int>)
    requires t.Valid()
    ensures |keys| <= |Entries(t.shape)| && forall i :: 0 <= i < |keys| ==> keys[i] == Entries(t.shape)[i].key
    ensures forall i :: 0 <= i < |keys| - 1 ==> keys[i] != key
    ensures |keys| < |Entries(t.shape)| ==> keys != [] && keys[|keys| - 1] == key
  {
    keys := Gather(t, (k, v) => k, (k, v) => k == key);
  }

  function Gatherer(f: (int, int) -> int, p: (int, int) -> bool): (seq<int>, int, int) -> (seq<int>, bool) {
    (s: seq<int>, k: int, v: int) => (s + [f(k, v)], p(k, v))
  }

  /** A callback that gathers `f` of every entry and says stop at the first with `p`. */
  method Gather(t: GTree, f: (int, int) -> int, p: (int, int) -> bool) returns (out: seq<int>)
    requires t.Valid()
    ensures var es := Entries(t.shape);
      && |out| <= |es| && (forall i :: 0 <= i < |out| ==> out[i] == f(es[i].key, es[i].value))
      && (forall i :: 0 <= i < |out| - 1 ==> !p(es[i].key, es[i].value))
      && (|out| < |es| ==> out != [] && p(es[|out| - 1].key, es[|out| - 1].value))
  {
    ghost var es := Entries(t.shape);
    ghost var n;
    out, n := t.Foreach(Gatherer(f, p), []);
    GatheredIs(f, p, es, n);
    forall i | 0 <= i < |out| - 1 ensures !p(es[i].key, es[i].value) {
      WentOn(Gatherer(f, p), [], es, i, n - 1);
    }
  }

  lemma {:induction false} GatheredIs(f: (int, int) -> int, p: (int, int) -> bool, es: seq<Entry>, n: nat)
    requires n <= |es|
    ensures var out := Accumulated(Gatherer(f, p), [], es, n);
      |out| == n && forall i :: 0 <= i < n ==> out[i] == f(es[i].key, es[i].value)
  {
    if n > 0 { GatheredIs(f, p, es, n - 1); }
  }
}
