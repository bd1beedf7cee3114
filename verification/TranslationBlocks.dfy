/**
 The comparison function with which src/tcg/tcg.c keeps its tree of translated
 code blocks.  A block is stored under its address and size; a program counter
 is looked up under a key of size zero.  The function is not a total order, yet
 every search the program makes is well defined.
 */
module TranslationBlocks {
  import opened Options
  import opened GTreeShape
  import opened GTreeOrder

  /** struct tb_tc */
  datatype TbTc = TbTc(ptr: nat, size: nat)

  /** What the key pointers point at. */
  type Memory = int -> TbTc

  /** ptr_cmp_tb_tc */
  function PtrCmp(ptr: nat, s: TbTc): int {
    if ptr >= s.ptr + s.size then 1 else if ptr < s.ptr then -1 else 0
  }

  /** tb_tc_cmp */
  function CompareBlocks(a: TbTc, b: TbTc): int {
    if a.size != 0 && b.size != 0 then
      if a.ptr > b.ptr then 1 else if a.ptr < b.ptr then -1 else 0
    else if a.size == 0 then PtrCmp(a.ptr, b)
    else PtrCmp(b.ptr, a)
  }

  ghost function TbCompare(mem: Memory): Compare {
    (a, b) => CompareBlocks(mem(a), mem(b))
  }

  /** The stored blocks are nonempty and lie one after the other. */
  ghost predicate Disjoint(mem: Memory, es: seq<Entry>) {
    && (forall i :: 0 <= i < |es| ==> mem(es[i].key).size > 0)
    && (forall i, j :: 0 <= i < j < |es| ==> mem(es[i].key).ptr + mem(es[i].key).size <= mem(es[j].key).ptr)
  }

  ghost predicate Holds(b: TbTc, pc: nat) { b.ptr <= pc < b.ptr + b.size }

  /** A block that overlaps none of the stored ones. */
  ghost predicate Apart(mem: Memory, es: seq<Entry>, b: TbTc) {
    forall i :: 0 <= i < |es| ==>
      var s := mem(es[i].key); b.ptr + b.size <= s.ptr || s.ptr + s.size <= b.ptr
  }

  /** The blocks are sorted, and a program counter finds the one block that holds it. */
  lemma {:induction false} LookupFindsBlock(mem: Memory, es: seq<Entry>, key: int)
    requires Disjoint(mem, es) && mem(key).size == 0
    ensures Sorted(TbCompare(mem), es) && Searchable(TbCompare(mem), key, es)
    ensures var r := Lookup(TbCompare(mem), key, es);
      if r.Some? then r.value in es && Holds(mem(r.value.key), mem(key).ptr)
      else forall e :: e in es ==> !Holds(mem(e.key), mem(key).ptr)
  {
    YieldsLookup(TbCompare(mem), key, es);
  }

  /** A new block may be inserted, and a stored one removed, under its own key; the assertion on the sizes holds. */
  lemma {:induction false} BlocksMayChange(mem: Memory, es: seq<Entry>, key: int)
    requires Disjoint(mem, es) && mem(key).size > 0
    requires Apart(mem, es, mem(key)) || exists i :: 0 <= i < |es| && mem(es[i].key) == mem(key)
    ensures Searchable(TbCompare(mem), key, es) && Mirrored(TbCompare(mem), key, es)
    ensures Found(TbCompare(mem), key, es) <==> exists i :: 0 <= i < |es| && mem(es[i].key) == mem(key)
    ensures forall i :: 0 <= i < |es| && mem(es[i].key).ptr == mem(key).ptr ==> mem(es[i].key).size == mem(key).size
  {
    BlocksSearchable(mem, es, key);
    FoundIff(TbCompare(mem), key, es);
  }

  lemma {:induction false} BlocksSearchable(mem: Memory, es: seq<Entry>, key: int)
    requires Disjoint(mem, es) && mem(key).size > 0
    ensures Searchable(TbCompare(mem), key, es) && Mirrored(TbCompare(mem), key, es)
  {
  }

  /** The two comparisons of a pair contradict each other unless they have opposite signs. */
  predicate Mirror(a: TbTc, b: TbTc) { CompareBlocks(a, b) == -CompareBlocks(b, a) }

  /** Two blocks always mirror each other; a program counter and a block do so only if the block holds it. */
  lemma {:induction false} MirrorIff(a: TbTc, b: TbTc)
    ensures Mirror(a, b) <==>
      || (a.size != 0 && b.size != 0)
      || (a.size == 0 && b.size != 0 && Holds(b, a.ptr))
      || (a.size != 0 && b.size == 0 && Holds(a, b.ptr))
      || (a.size == 0 && b.size == 0 && a.ptr != b.ptr)
  {
  }

  /** So with one stored block and one program counter outside it, the function is no total preorder. */
  lemma {:induction false} NotAPreorder(mem: Memory, block: int, key: int)
    requires mem(block).size > 0 && mem(key).size == 0 && !Holds(mem(block), mem(key).ptr)
    ensures !TotalPreorder(TbCompare(mem))
  {
    MirrorIff(mem(key), mem(block));
    var cmp := TbCompare(mem);
    assert cmp(key, block) == cmp(block, key) != 0;
  }

  /** A new block keeps the stored ones one after the other, so the next operation meets the tree's demands too. */
  lemma {:induction false} InsertionKeepsDisjoint(mem: Memory, es: seq<Entry>, key: int, value: int, replace: bool,
                                                  node: Node)
    requires Disjoint(mem, es) && mem(key).size > 0
    requires Apart(mem, es, mem(key)) || exists i :: 0 <= i < |es| && mem(es[i].key) == mem(key)
    ensures Disjoint(mem, Inserted(TbCompare(mem), es, key, value, replace, node))
  {
    var cmp := TbCompare(mem);
    BlocksMayChange(mem, es, key);
    var i := Rank(cmp, key, es);
    if Found(cmp, key, es) {
      SameBlock(mem, es, key);
      OverwrittenDisjoint(mem, es, i, Entry(es[i].node, if replace then key else es[i].key, value));
    } else {
      Between(mem, es, key);
      SplitDisjoint(mem, es, i, Entry(node, key, value));
    }
  }

  /** A key that is found is the key of the same block. */
  lemma {:induction false} SameBlock(mem: Memory, es: seq<Entry>, key: int)
    requires Disjoint(mem, es) && mem(key).size > 0 && Found(TbCompare(mem), key, es)
    requires Apart(mem, es, mem(key)) || exists i :: 0 <= i < |es| && mem(es[i].key) == mem(key)
    ensures mem(es[Rank(TbCompare(mem), key, es)].key) == mem(key)
  {
    var i := Rank(TbCompare(mem), key, es);
    assert mem(es[i].key).ptr == mem(key).ptr;
  }

  /** A new block lies between those before and those after its rank. */
  lemma {:induction false} Between(mem: Memory, es: seq<Entry>, key: int)
    requires Disjoint(mem, es) && mem(key).size > 0 && !Found(TbCompare(mem), key, es)
    requires Apart(mem, es, mem(key)) || exists i :: 0 <= i < |es| && mem(es[i].key) == mem(key)
    ensures var i := Rank(TbCompare(mem), key, es);
      && (forall j :: 0 <= j < i ==> mem(es[j].key).ptr + mem(es[j].key).size <= mem(key).ptr)
      && (forall j :: i <= j < |es| ==> mem(key).ptr + mem(key).size <= mem(es[j].key).ptr)
  {
    var cmp := TbCompare(mem);
    BlocksMayChange(mem, es, key);
    RankSides(cmp, key, es);
    var i := Rank(cmp, key, es);
    forall j | 0 <= j < i ensures mem(es[j].key).ptr + mem(es[j].key).size <= mem(key).ptr {
      assert cmp(es[j].key, key) < 0;
    }
    forall j | i <= j < |es| ensures mem(key).ptr + mem(key).size <= mem(es[j].key).ptr {
      assert cmp(key, es[j].key) < 0;
    }
  }

  lemma {:induction false} OverwrittenDisjoint(mem: Memory, es: seq<Entry>, i: nat, e: Entry)
    requires Disjoint(mem, es) && i < |es| && mem(e.key) == mem(es[i].key)
    ensures Disjoint(mem, es[i := e])
  {
  }

  lemma {:induction false} SplitDisjoint(mem: Memory, es: seq<Entry>, i: nat, e: Entry)
    requires Disjoint(mem, es) && i <= |es| && mem(e.key).size > 0
    requires forall j :: 0 <= j < i ==> mem(es[j].key).ptr + mem(es[j].key).size <= mem(e.key).ptr
    requires forall j :: i <= j < |es| ==> mem(e.key).ptr + mem(e.key).size <= mem(es[j].key).ptr
    ensures Disjoint(mem, es[..i] + [e] + es[i..])
  {
    var xs := es[..i] + [e] + es[i..];
    forall j | 0 <= j < |xs| ensures mem(xs[j].key).size > 0 {
      assert xs[j] == if j < i then es[j] else if j == i then e else es[j - 1];
    }
    forall j, k | 0 <= j < k < |xs| ensures mem(xs[j].key).ptr + mem(xs[j].key).size <= mem(xs[k].key).ptr {
      assert xs[j] == if j < i then es[j] else if j == i then e else es[j - 1];
      assert xs[k] == if k < i then es[k] else if k == i then e else es[k - 1];
    }
  }

  lemma {:induction false} RemovalKeepsDisjoint(mem: Memory, es: seq<Entry>, key: int)
    requires Disjoint(mem, es)
    ensures Disjoint(mem, Removed(TbCompare(mem), es, key))
  {
  }
}
