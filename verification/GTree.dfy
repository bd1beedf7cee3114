/**
 glib/gtree.c: the balanced tree itself, with its non-recursive insertion and
 removal over a fixed-size `path[]` array.
 */
module GTrees {
  import opened Options
  import opened GTreeShape
  import opened GTreeHeap
  import opened GTreeOrder
  import opened GTreeSpine
  import opened GTreeWalk

  const GUINT_RANGE := 0x1_0000_0000

  type guint = x: int | 0 <= x < GUINT_RANGE

  /** `x++` and `x--` on guint wrap around. */
  function Increment(x: guint): guint { if x == GUINT_RANGE - 1 then 0 else x + 1 }
  function Decrement(x: guint): guint { if x == 0 then GUINT_RANGE - 1 else x - 1 }

  class GTree {
    var root: Node?
    var nnodes: guint
    /** How often `nnodes` has wrapped around. */
    ghost var wraps: int
    var refCount: int
    const cmp: Compare
    const hasKeyDestroy: bool
    const hasValueDestroy: bool
    /** The calls made to key_destroy_func and value_destroy_func, in order. */
    var destroyedKeys: seq<int>
    var destroyedValues: seq<int>
    ghost var shape: Shape
    ghost var nodes: set<Node>

    /** `path[..idx]` holds NULL and then the ancestors of the hole of `c`. */
    static ghost predicate OnPath(path: array<Node?>, idx: nat, c: Context)
      reads path
    {
      && idx == |Path(c)| + 1 <= path.Length && path[0] == null
      && forall i :: 1 <= i < idx ==> path[i] == Path(c)[i - 1]
    }

    /** `path[--idx]` is the parent of the hole. */
    static lemma {:induction false} Pop(path: array<Node?>, idx: nat, c: Context)
      requires OnPath(path, idx, c)
      ensures path[idx - 1] == Parent(c)
      ensures !c.Top? ==> OnPath(path, idx - 1, c.up)
    {
      if !c.Top? { assert Path(c) == Path(c.up) + [c.e.node]; }
    }

    ghost predicate Valid()
      reads this, nodes
    {
      && root == RootOf(shape)
      && Zipped(Top, shape, nodes)
      && Avl(shape)
      && Sorted(cmp, Entries(shape))
      && nnodes + wraps * GUINT_RANGE == Size(shape)
    }

    method CountUp()
      modifies this`nnodes, this`wraps
      ensures nnodes == Increment(old(nnodes))
      ensures nnodes + wraps * GUINT_RANGE == old(nnodes + wraps * GUINT_RANGE) + 1
    {
      wraps := if nnodes == GUINT_RANGE - 1 then wraps + 1 else wraps;
      nnodes := Increment(nnodes);
    }

    method CountDown()
      modifies this`nnodes, this`wraps
      ensures nnodes == Decrement(old(nnodes))
      ensures nnodes + wraps * GUINT_RANGE == old(nnodes + wraps * GUINT_RANGE) - 1
    {
      wraps := if nnodes == 0 then wraps - 1 else wraps;
      nnodes := Decrement(nnodes);
    }

    /** g_tree_new_full */
    constructor (cmp: Compare, hasKeyDestroy: bool, hasValueDestroy: bool)
      ensures Valid() && shape == Leaf && refCount == 1
      ensures this.cmp == cmp && this.hasKeyDestroy == hasKeyDestroy && this.hasValueDestroy == hasValueDestroy
      ensures nodes == {} && nnodes == 0 && destroyedKeys == [] && destroyedValues == []
    {
      root := null;
      this.cmp := cmp;
      this.hasKeyDestroy, this.hasValueDestroy := hasKeyDestroy, hasValueDestroy;
      nnodes, wraps, refCount := 0, 0, 1;
      destroyedKeys, destroyedValues := [], [];
      shape, nodes := Leaf, {};
    }

    // ----- searching

    /** g_tree_find_node */
    method FindNode(key: int) returns (node: Node?)
      requires Valid() && Searchable(cmp, key, Entries(shape))
      ensures var found := Lookup(cmp, key, Entries(shape));
        if found.Some? then node == found.value.node else node == null
    {
      node := root;
      if node == null { return; }
      ghost var c, t := Top, shape;
      while true
        invariant node != null && At(key, node, c, t)
        decreases t
      {
        AtChild(key, node, c, t);
        var r := cmp(key, node.key);
        if r == 0 {
          Stop(cmp, key, c, t);
          return;
        } else if r < 0 {
          if !node.leftChild { Stop(cmp, key, c, t); return null; }
          c, t := InLeft(c, t.e, t.bal, t.right), t.left;
          node := node.left;
        } else {
          if !node.rightChild { Stop(cmp, key, c, t); return null; }
          c, t := InRight(c, t.left, t.e, t.bal), t.right;
          node := node.right;
        }
      }
    }

    /** The search for `key` has come down to the node at the root of `t`. */
    ghost predicate At(key: int, node: Node, c: Context, t: Shape)
      reads this, nodes
    {
      && t.Bin? && node == t.e.node && Plug(c, t) == shape && Zipped(c, t, nodes)
      && AllAbove(cmp, key, Before(c)) && AllBelow(cmp, key, After(c))
    }

    lemma {:induction false} AtChild(key: int, node: Node, c: Context, t: Shape)
      requires At(key, node, c, t) && Searchable(cmp, key, Entries(shape))
      ensures node.key == t.e.key && node.leftChild == t.left.Bin? && node.rightChild == t.right.Bin?
      ensures cmp(key, t.e.key) < 0 && t.left.Bin? ==>
        node.left != null && At(key, node.left, InLeft(c, t.e, t.bal, t.right), t.left)
      ensures cmp(key, t.e.key) > 0 && t.right.Bin? ==>
        node.right != null && At(key, node.right, InRight(c, t.left, t.e, t.bal), t.right)
      ensures |Path(c)| + Height(t) <= Height(shape)
    {
      ZippedDown(c, t, nodes);
      Narrow(cmp, key, c, t);
      PlugHeight(c, t);
    }

    /** `path[idx++] = node` */
    static method Push(path: array<Node?>, idx: nat, node: Node, ghost c: Context, ghost d: Context) returns (idx': nat)
      requires OnPath(path, idx, c) && idx < path.Length && !d.Top? && d.up == c && d.e.node == node
      modifies path
      ensures OnPath(path, idx', d)
    {
      path[idx] := node;
      idx' := idx + 1;
    }

    /**
     The search loop with which insertion and removal start.  Every ancestor of
     the node where it stops is pushed; the 40 slots are enough because each
     push goes one level down.
     */
    method Descend(key: int, path: array<Node?>)
      returns (node: Node, idx: nat, r: int, ghost c: Context, ghost t: Shape)
      requires Valid() && root != null && Searchable(cmp, key, Entries(shape))
      requires path.Length == MAX_GTREE_HEIGHT && Height(shape) <= MAX_GTREE_HEIGHT
      modifies path
      ensures At(key, node, c, t) && OnPath(path, idx, c) && r == cmp(key, t.e.key)
      ensures (r < 0 ==> t.left.Leaf?) && (r > 0 ==> t.right.Leaf?)
    {
      idx := 0;
      path[idx] := null;
      idx := idx + 1;
      node := root;
      c, t := Top, shape;
      while true
        invariant At(key, node, c, t) && OnPath(path, idx, c)
        decreases t
      {
        AtChild(key, node, c, t);
        r := cmp(key, node.key);
        if r == 0 {
          return;
        } else if r < 0 {
          if !node.leftChild { return; }
          idx := Push(path, idx, node, c, InLeft(c, t.e, t.bal, t.right));
          node := node.left;
          c, t := InLeft(c, t.e, t.bal, t.right), t.left;
        } else {
          if !node.rightChild { return; }
          idx := Push(path, idx, node, c, InRight(c, t.left, t.e, t.bal));
          c, t := InRight(c, t.left, t.e, t.bal), t.right;
          node := node.right;
        }
      }
    }

    // ----- restoring the balance

    /**
     One turn of either upward loop, up to its exit test: rebalance the node if
     it is off by two and hang the result where the node was.
     */
    method Repair(node: Node, bparent: Node?, leftNode: bool, ghost c: Context, ghost t: Shape) returns (r: Node)
      requires Zipped(c, t, nodes) && NearlyAvl(t) && root == RootOf(Plug(c, t))
      requires node == t.e.node && bparent == Parent(c) && leftNode == c.InLeft?
      modifies this`root, nodes
      ensures r == Rebalance(t).e.node && r.balance == Rebalance(t).bal
      ensures Zipped(c, Rebalance(t), nodes) && root == RootOf(Plug(c, Rebalance(t)))
    {
      ghost var u := Rebalance(t);
      RebalanceEntries(t);
      r := node;
      if node.balance < -1 || node.balance > 1 {
        r := BalanceNode(node, t, Pred(c), Succ(c), nodes);
        assert RepCtx(c, node);
        Replant(r, bparent, leftNode, node, c, t, u);
      }
    }

    /** The new root of the subtree takes the place of the old one. */
    method Replant(r: Node, bparent: Node?, leftNode: bool, ghost node: Node, ghost c: Context, ghost t: Shape,
                   ghost u: Shape)
      requires u.Bin? && r == u.e.node && bparent == Parent(c) && leftNode == c.InLeft?
      requires CtxNodes(c) <= nodes && Nodes(u) <= nodes && CtxDistinct(c) && CtxNodes(c) !! Nodes(u)
      requires RepCtx(c, node) && Rep(u, Pred(c), Succ(c)) && root == RootOf(Plug(c, t))
      modifies this`root, nodes
      ensures RepCtx(c, r) && Rep(u, Pred(c), Succ(c)) && root == RootOf(Plug(c, u))
      ensures r.balance == old(r.balance)
    {
      if bparent == null {
        root := r;
      } else {
        PlugRoot(c, t, u);
        Relink(bparent, leftNode, r, c, node, nodes);
        assert Rep(u, Pred(c), Succ(c));
      }
    }

    /** Where an upward loop stands: `node` is the root of `t`, its ancestors are on the path. */
    ghost predicate Climbing(node: Node, path: array<Node?>, idx: nat, c: Context, t: Shape)
      reads this, nodes, path
    {
      && Zipped(c, t, nodes) && root == RootOf(Plug(c, t))
      && t.Bin? && node == t.e.node && OnPath(path, idx, c)
    }

    /** One turn of either upward loop, up to its exit test. */
    method Turn(node: Node, path: array<Node?>, idx: nat, ghost c: Context, ghost t: Shape)
      returns (r: Node, bparent: Node?, leftNode: bool)
      requires Climbing(node, path, idx, c, t) && NearlyAvl(t)
      modifies this`root, nodes
      ensures bparent == Parent(c) && leftNode == c.InLeft? && r.balance == Rebalance(t).bal
      ensures Climbing(r, path, idx, c, Rebalance(t))
    {
      Pop(path, idx, c);
      bparent := path[idx - 1];
      if bparent != null { Side(c, t, nodes); }
      assert bparent == null || bparent.left == node || bparent.right == node;
      leftNode := bparent != null && node == bparent.left;
      r := Repair(node, bparent, leftNode, c, t);
    }

    /** The same with what it means for the loop after an insertion. */
    method TurnGrown(node: Node, path: array<Node?>, idx: nat, ghost c: Context, ghost t: Shape, ghost h: nat)
      returns (r: Node, bparent: Node?, leftNode: bool)
      requires Climbing(node, path, idx, c, t) && Grown(c, t, h)
      modifies this`root, nodes
      ensures bparent == Parent(c) && leftNode == c.InLeft? && r.balance == Rebalance(t).bal
      ensures Climbing(r, path, idx, c, Rebalance(t)) && Entries(Plug(c, Rebalance(t))) == Entries(Plug(c, t))
      ensures r.balance == 0 || bparent == null ==> Avl(Plug(c, Rebalance(t)))
      ensures r.balance != 0 && bparent != null ==>
        -1 <= c.bal <= 1 && Grown(c.up, Close(c, Rebalance(t), if leftNode then -1 else 1), HeightAbove(c, h))
    {
      GrownStep(c, t, h);
      SameEntries(c, t);
      r, bparent, leftNode := Turn(node, path, idx, c, t);
    }

    /** The same with what it means for the loop after a removal. */
    method TurnShrunk(node: Node, path: array<Node?>, idx: nat, ghost c: Context, ghost t: Shape, ghost h: nat)
      returns (r: Node, bparent: Node?, leftNode: bool)
      requires Climbing(node, path, idx, c, t) && Shrunk(c, t, h)
      modifies this`root, nodes
      ensures bparent == Parent(c) && leftNode == c.InLeft? && r.balance == Rebalance(t).bal
      ensures Climbing(r, path, idx, c, Rebalance(t)) && Entries(Plug(c, Rebalance(t))) == Entries(Plug(c, t))
      ensures r.balance != 0 || bparent == null ==> Avl(Plug(c, Rebalance(t)))
      ensures r.balance == 0 && bparent != null ==>
        -1 <= c.bal <= 1 && Shrunk(c.up, Close(c, Rebalance(t), if leftNode then 1 else -1), HeightAbove(c, h))
    {
      ShrunkStep(c, t, h);
      SameEntries(c, t);
      r, bparent, leftNode := Turn(node, path, idx, c, t);
    }

    /** The parent's balance follows the change of height below it, and the loop goes up. */
    method Ascend(node: Node, bparent: Node, path: array<Node?>, idx: nat, d: int, ghost c: Context, ghost t: Shape)
      requires Climbing(node, path, idx, c, t) && !c.Top? && bparent == c.e.node
      requires -1 <= c.bal <= 1 && -1 <= d <= 1
      modifies nodes
      ensures idx >= 1 && Climbing(bparent, path, idx - 1, c.up, Close(c, t, d))
    {
      PlugRoot(c, t, t);
      Pop(path, idx, c);
      Tilt(bparent, d, c, t, nodes);
    }

    /** The loop at the end of g_tree_insert_internal. */
    method RestoreAfterInsert(node0: Node, path: array<Node?>, idx0: nat, ghost c0: Context, ghost t0: Shape,
                              ghost h0: nat)
      requires Climbing(node0, path, idx0, c0, t0) && Grown(c0, t0, h0)
      modifies this`root, this`shape, nodes
      ensures Zipped(Top, shape, nodes) && root == RootOf(shape)
      ensures Avl(shape) && Entries(shape) == Entries(Plug(c0, t0))
    {
      var node: Node, idx := node0, idx0;
      ghost var c, t, h := c0, t0, h0;
      while true
        invariant Climbing(node, path, idx, c, t) && Grown(c, t, h)
        invariant Entries(Plug(c, t)) == Entries(Plug(c0, t0))
        decreases c
      {
        var bparent, leftNode;
        node, bparent, leftNode := TurnGrown(node, path, idx, c, t, h);
        t := Rebalance(t);
        if node.balance == 0 || bparent == null {
          shape := Plug(c, t);
          ZippedPlug(c, t, nodes);
          return;
        }
        CloseEntries(c, t, if leftNode then -1 else 1);
        Ascend(node, bparent, path, idx, if leftNode then -1 else 1, c, t);
        node, idx, h := bparent, idx - 1, HeightAbove(c, h);
        c, t := c.up, Close(c, t, if leftNode then -1 else 1);
      }
    }

    /** A new node is hung below the node where the search stopped. */
    method Hang(key: int, value: int, node: Node, r: int, path: array<Node?>, idx: nat, ghost c: Context,
                ghost t: Shape)
      returns (ret: Node)
      requires Zipped(c, t, nodes) && t.Bin? && node == t.e.node && root == RootOf(Plug(c, t)) && OnPath(path, idx, c)
      requires (r < 0 && t.left.Leaf?) || (r > 0 && t.right.Leaf?)
      requires -1 <= t.bal <= 1
      modifies this`nnodes, this`wraps, this`nodes, node
      ensures fresh(ret) && nodes == old(nodes) + {ret} && nnodes == Increment(old(nnodes))
      ensures nnodes + wraps * GUINT_RANGE == old(nnodes + wraps * GUINT_RANGE) + 1
      ensures Climbing(node, path, idx, c, With(t, r, Entry(ret, key, value)))
    {
      if r < 0 {
        ret := AttachLeft(node, key, value, c, t, nodes);
      } else {
        ret := AttachRight(node, key, value, c, t, nodes);
      }
      CountUp();
      nodes := nodes + {ret};
      NewRoot(c, t, With(t, r, Entry(ret, key, value)));
    }

    /** Everything in g_tree_insert_internal once the search has stopped at a missing child. */
    method InsertAt(key: int, value: int, replace: bool, node: Node, r: int, path: array<Node?>, idx: nat,
                    ghost c: Context, ghost t: Shape) returns (ret: Node)
      requires Valid() && Searchable(cmp, key, Entries(shape)) && Mirrored(cmp, key, Entries(shape))
      requires At(key, node, c, t) && OnPath(path, idx, c) && r == cmp(key, t.e.key)
      requires (r < 0 && t.left.Leaf?) || (r > 0 && t.right.Leaf?)
      modifies this`root, this`nnodes, this`wraps, this`shape, this`nodes, nodes
      ensures Valid() && nnodes == Increment(old(nnodes))
      ensures fresh(ret) && nodes == old(nodes) + {ret}
      ensures Entries(shape) == Inserted(cmp, old(Entries(shape)), key, value, replace, ret)
      ensures Lookup(cmp, key, old(Entries(shape))) == None
    {
      PlugAvl(c, t);
      ret := Hang(key, value, node, r, path, idx, c, t);
      InsertFacts(cmp, key, value, replace, c, t, ret);
      RestoreAfterInsert(node, path, idx, c, With(t, r, Entry(ret, key, value)), Height(t));
      SizeIsLength(shape);
    }

    /** The destroy notifications for an entry that is overwritten. */
    method NotifyOverwritten(key: int, replace: bool, node: Node)
      modifies this`destroyedKeys, this`destroyedValues
      ensures destroyedValues == old(destroyedValues) + (if hasValueDestroy then [node.value] else [])
      ensures destroyedKeys == old(destroyedKeys) + (if hasKeyDestroy then [if replace then node.key else key] else [])
    {
      if hasValueDestroy { destroyedValues := destroyedValues + [node.value]; }
      if replace {
        if hasKeyDestroy { destroyedKeys := destroyedKeys + [node.key]; }
      } else {
        if hasKeyDestroy { destroyedKeys := destroyedKeys + [key]; }
      }
    }

    /** `node->value = value`, and `node->key = key` if the key is replaced. */
    method StoreExisting(key: int, value: int, replace: bool, node: Node, ghost c: Context, ghost t: Shape)
      requires Valid() && Searchable(cmp, key, Entries(shape)) && Mirrored(cmp, key, Entries(shape))
      requires At(key, node, c, t) && cmp(key, t.e.key) == 0
      modifies this`shape, node
      ensures Valid()
      ensures Entries(shape) == Inserted(cmp, old(Entries(shape)), key, value, replace, node)
    {
      var newKey := if replace then key else node.key;
      ghost var u := t.(e := Entry(node, newKey, value));
      Overwrite(node, newKey, value, c, t, nodes);
      ExistingEntry(cmp, key, value, replace, c, t);
      ExistingShape(c, t, u.e);
      ZippedPlug(c, u, nodes);
      shape := Plug(c, u);
    }

    /** The branch of g_tree_insert_internal for a key that is there already. */
    method SetExisting(key: int, value: int, replace: bool, node: Node, ghost c: Context, ghost t: Shape)
      returns (ghost found: Option<Entry>)
      requires Valid() && Searchable(cmp, key, Entries(shape)) && Mirrored(cmp, key, Entries(shape))
      requires At(key, node, c, t) && cmp(key, t.e.key) == 0
      modifies this`shape, this`destroyedKeys, this`destroyedValues, node
      ensures Valid() && found.Some? && found == Lookup(cmp, key, old(Entries(shape)))
      ensures Entries(shape) == Inserted(cmp, old(Entries(shape)), key, value, replace, node)
      ensures Outcome(key, replace, found, node, nodes, nnodes, old(destroyedKeys), old(destroyedValues))
    {
      Stop(cmp, key, c, t);
      found := Some(t.e);
      NotifyOverwritten(key, replace, node);
      StoreExisting(key, value, replace, node, c, t);
    }

    /** The part of g_tree_insert_internal that deals with a tree that is not empty. */
    method InsertSearch(key: int, value: int, replace: bool) returns (ret: Node, ghost found: Option<Entry>)
      requires Valid() && Searchable(cmp, key, Entries(shape)) && Mirrored(cmp, key, Entries(shape))
      requires root != null && Height(shape) <= MAX_GTREE_HEIGHT
      modifies this`root, this`nnodes, this`wraps, this`shape, this`nodes, this`destroyedKeys, this`destroyedValues
      modifies nodes
      ensures Valid() && found == Lookup(cmp, key, old(Entries(shape)))
      ensures Entries(shape) == Inserted(cmp, old(Entries(shape)), key, value, replace, ret)
      ensures Outcome(key, replace, found, ret, old(nodes), old(nnodes), old(destroyedKeys), old(destroyedValues))
      ensures found.None? ==> fresh(ret)
    {
      var path := new Node?[MAX_GTREE_HEIGHT];
      var node, idx, r, c, t := Descend(key, path);
      if r == 0 {
        ret := node;
        found := SetExisting(key, value, replace, node, c, t);
      } else {
        found := None;
        ret := InsertAt(key, value, replace, node, r, path, idx, c, t);
      }
    }

    /** What an insertion does besides changing the entries. */
    ghost predicate Outcome(key: int, replace: bool, found: Option<Entry>, ret: Node,
                            nodes0: set<Node>, nnodes0: guint, keys0: seq<int>, values0: seq<int>)
      reads this
    {
      if found.Some? then
        && ret == found.value.node && nodes == nodes0 && nnodes == nnodes0
        && destroyedValues == values0 + (if hasValueDestroy then [found.value.value] else [])
        && destroyedKeys == keys0 + (if hasKeyDestroy then [if replace then found.value.key else key] else [])
      else
        && nodes == nodes0 + {ret} && nnodes == Increment(nnodes0)
        && destroyedValues == values0 && destroyedKeys == keys0
    }

    /** g_tree_insert_internal */
    method InsertInternal(key: int, value: int, replace: bool) returns (ret: Node)
      requires Valid() && Searchable(cmp, key, Entries(shape)) && Mirrored(cmp, key, Entries(shape))
      requires Height(shape) <= MAX_GTREE_HEIGHT
      modifies this, nodes
      ensures Valid() && refCount == old(refCount)
      ensures Entries(shape) == Inserted(cmp, old(Entries(shape)), key, value, replace, ret)
      ensures var found := Lookup(cmp, key, old(Entries(shape)));
        && Outcome(key, replace, found, ret, old(nodes), old(nnodes), old(destroyedKeys), old(destroyedValues))
        && (found.None? ==> fresh(ret))
    {
      if root == null {
        ret := InsertFirst(key, value, replace);
      } else {
        ghost var found;
        ret, found := InsertSearch(key, value, replace);
      }
    }

    method InsertFirst(key: int, value: int, ghost replace: bool) returns (ret: Node)
      requires Valid() && root == null
      modifies this`root, this`nnodes, this`wraps, this`shape, this`nodes
      ensures Valid() && fresh(ret) && nodes == old(nodes) + {ret} && nnodes == Increment(old(nnodes))
      ensures Entries(shape) == Inserted(cmp, old(Entries(shape)), key, value, replace, ret)
      ensures Lookup(cmp, key, old(Entries(shape))) == None
    {
      ret := new Node(key, value);
      root := ret;
      CountUp();
      shape := Bin(Leaf, Entry(ret, key, value), 0, Leaf);
      nodes := nodes + {ret};
      BinNodes(Leaf, shape.e, 0, Leaf);
      BinAvl(Leaf, shape.e, 0, Leaf);
      assert Rep(Leaf, null, ret) && Rep(Leaf, ret, null);
    }

    /** The loop at the end of g_tree_remove_internal. */
    method RestoreAfterRemove(node0: Node, path: array<Node?>, idx0: nat, ghost c0: Context, ghost t0: Shape,
                              ghost h0: nat)
      requires Climbing(node0, path, idx0, c0, t0) && Shrunk(c0, t0, h0)
      modifies this`root, this`shape, nodes
      ensures Zipped(Top, shape, nodes) && root == RootOf(shape)
      ensures Avl(shape) && Entries(shape) == Entries(Plug(c0, t0))
    {
      var balance: Node, idx := node0, idx0;
      ghost var c, t, h := c0, t0, h0;
      while true
        invariant Climbing(balance, path, idx, c, t) && Shrunk(c, t, h)
        invariant Entries(Plug(c, t)) == Entries(Plug(c0, t0))
        decreases c
      {
        var bparent, leftNode;
        balance, bparent, leftNode := TurnShrunk(balance, path, idx, c, t, h);
        t := Rebalance(t);
        if balance.balance != 0 || bparent == null {
          shape := Plug(c, t);
          ZippedPlug(c, t, nodes);
          return;
        }
        CloseEntries(c, t, if leftNode then 1 else -1);
        Ascend(balance, bparent, path, idx, if leftNode then 1 else -1, c, t);
        balance, idx, h := bparent, idx - 1, HeightAbove(c, h);
        c, t := c.up, Close(c, t, if leftNode then 1 else -1);
      }
    }

    // ----- removal

    /**
     A node has been taken out.  Either there is nothing left to rebalance, or
     `balance` is the lowest node whose height may have changed.
     */
    ghost predicate Unlinked(balance: Node?, path: array<Node?>, idx: nat, c: Context, t: Shape, h: nat, es: seq<Entry>)
      reads this, nodes, path
    {
      if balance == null
      then c.Top? && Zipped(Top, t, nodes) && root == RootOf(t) && Avl(t) && Entries(t) == es
      else Climbing(balance, path, idx, c, t) && Shrunk(c, t, h) && Entries(Plug(c, t)) == es
    }

    /** The tree is open at `c`; `u` is about to fill the hole where `gone` hangs. */
    ghost predicate Opened(path: array<Node?>, idx: nat, gone: Node, c: Context, u: Shape)
      reads this, nodes, path
    {
      && OnPath(path, idx + 1, c) && CtxNodes(c) <= nodes && Nodes(u) <= nodes
      && CtxDistinct(c) && Distinct(u) && CtxNodes(c) !! Nodes(u)
      && RepCtx(c, gone) && Rep(u, Pred(c), Succ(c))
      && gone !in CtxNodes(c) && (!c.Top? ==> root == RootOf(Plug(c, u)))
    }

    /** `parent->left = node->right` and its three siblings, with the change of the parent's balance. */
    method Promote(parent: Node?, leftNode: bool, child: Node, path: array<Node?>, idx: nat,
                   ghost gone: Node, ghost c: Context, ghost u: Shape, ghost h: nat)
      requires Opened(path, idx, gone, c, u) && u.Bin? && child == u.e.node
      requires parent == Parent(c) && leftNode == c.InLeft?
      requires CtxAvl(c, h) && Avl(u) && Height(u) == h - 1
      modifies this`root, nodes
      ensures Unlinked(parent, path, idx, UpCtx(c), UpShape(c, u), UpHeight(c, h), Entries(Plug(c, u)))
    {
      if parent == null {
        root := child;
      } else {
        Relink(parent, leftNode, child, c, gone, nodes);
        Fall(parent, leftNode, path, idx, c, u, h);
      }
    }

    /** The parent's balance after the subtree on one side has become one lower. */
    method Fall(parent: Node, leftNode: bool, path: array<Node?>, idx: nat, ghost c: Context, ghost u: Shape,
                ghost h: nat)
      requires Zipped(c, u, nodes) && OnPath(path, idx + 1, c) && root == RootOf(Plug(c, u))
      requires !c.Top? && parent == c.e.node && leftNode == c.InLeft?
      requires CtxAvl(c, h) && Avl(u) && Height(u) == h - 1
      modifies nodes
      ensures Unlinked(parent, path, idx, UpCtx(c), UpShape(c, u), UpHeight(c, h), Entries(Plug(c, u)))
    {
      var d := if leftNode then 1 else -1;
      Pop(path, idx + 1, c);
      PlugRoot(c, u, u);
      CloseEntries(c, u, d);
      ShrunkUp(c, u, h);
      Tilt(parent, d, c, u, nodes);
    }

    /** The node has no children. */
    method RemoveLeaf(node: Node, parent: Node?, leftNode: bool, path: array<Node?>, idx: nat, ghost c: Context,
                      ghost h: nat)
      requires Opened(path, idx, node, c, Leaf) && node.left == Pred(c) && node.right == Succ(c)
      requires parent == Parent(c) && leftNode == c.InLeft? && CtxAvl(c, h) && h == 1
      modifies this`root, nodes
      ensures Unlinked(parent, path, idx, UpCtx(c), UpShape(c, Leaf), UpHeight(c, h), Entries(Plug(c, Leaf)))
    {
      if parent == null {
        root := null;
      } else {
        Unhook(parent, leftNode, node, c, nodes);
        Fall(parent, leftNode, path, idx, c, Leaf, h);
      }
    }

    /** Everything known about the node to be removed; it has left `nodes` already. */
    ghost predicate Doomed(node: Node, path: array<Node?>, idx: nat, c: Context, t: Shape)
      reads this, nodes, node, path
    {
      && node !in nodes && Zipped(c, t, nodes + {node}) && t.Bin? && node == t.e.node
      && OnPath(path, idx + 1, c) && root == RootOf(Plug(c, t)) && Avl(Plug(c, t))
    }

    lemma {:induction false} DoomedFacts(node: Node, path: array<Node?>, idx: nat, c: Context, t: Shape)
      requires Doomed(node, path, idx, c, t)
      ensures CellOf(t, Pred(c), Succ(c)) && RepCtx(c, node)
      ensures Rep(t.left, Pred(c), node) && Rep(t.right, node, Succ(c))
      ensures CtxNodes(c) <= nodes && Nodes(t.left) <= nodes && Nodes(t.right) <= nodes
      ensures CtxDistinct(c) && Distinct(t.left) && Distinct(t.right) && Nodes(t.left) !! Nodes(t.right)
      ensures CtxNodes(c) !! Nodes(t.left) && CtxNodes(c) !! Nodes(t.right)
      ensures CtxAvl(c, Height(t)) && Avl(t.left) && Avl(t.right) && -1 <= t.bal <= 1
      ensures Height(t) == 1 + Max(Height(t.left), Height(t.right)) && t.bal == Height(t.right) - Height(t.left)
      ensures !c.Top? ==> forall u :: RootOf(Plug(c, u)) == root
    {
      PlugAvl(c, t);
      BinAvl(t.left, t.e, t.bal, t.right);
      if !c.Top? {
        forall u ensures RootOf(Plug(c, u)) == root { PlugRoot(c, t, u); }
      }
    }

    /** The node has a right child only. */
    method RemoveRightOnly(node: Node, parent: Node?, leftNode: bool, path: array<Node?>, idx: nat,
                           ghost c: Context, ghost t: Shape)
      requires Doomed(node, path, idx, c, t) && t.left.Leaf? && t.right.Bin?
      requires parent == Parent(c) && leftNode == c.InLeft?
      modifies this`root, nodes
      ensures Unlinked(parent, path, idx, UpCtx(c), UpShape(c, t.right), UpHeight(c, Height(t)),
                       Entries(Plug(c, t.right)))
    {
      OpenRight(node, path, idx, c, t);
      DoomedAvl(c, t);
      Promote(parent, leftNode, node.right, path, idx, node, c, t.right, Height(t));
    }

    /** The first node of the right subtree gets the left thread of the node that goes. */
    method OpenRight(node: Node, path: array<Node?>, idx: nat, ghost c: Context, ghost t: Shape)
      requires Doomed(node, path, idx, c, t) && t.left.Leaf? && t.right.Bin?
      modifies nodes
      ensures Opened(path, idx, node, c, t.right) && node.right == t.right.e.node
    {
      DoomedFacts(node, path, idx, c, t);
      RethreadFirst(node, c, t.right);
    }

    /** The first node of the subtree gets the left thread of `node`. */
    method RethreadFirst(node: Node, ghost c: Context, ghost u: Shape)
      requires CtxNodes(c) <= nodes && Nodes(u) <= nodes && Distinct(u) && CtxNodes(c) !! Nodes(u) && u.Bin?
      requires node.rightChild && node.right == u.e.node && node.left == Pred(c)
      requires RepCtx(c, node) && Rep(u, node, Succ(c))
      modifies nodes
      ensures RepCtx(c, node) && Rep(u, Pred(c), Succ(c))
    {
      var tmp := NextNode(node, u, Succ(c));
      FirstInside(u, Succ(c));
      ThreadFirst(tmp, node.left, u, node, Succ(c), nodes);
      assert RepCtx(c, node);
    }

    /** The last node of the subtree gets the right thread of `node`. */
    method RethreadLast(node: Node, ghost c: Context, ghost u: Shape)
      requires CtxNodes(c) <= nodes && Nodes(u) <= nodes && Distinct(u) && CtxNodes(c) !! Nodes(u) && u.Bin?
      requires node.leftChild && node.left == u.e.node && node.right == Succ(c)
      requires RepCtx(c, node) && Rep(u, Pred(c), node)
      modifies nodes
      ensures RepCtx(c, node) && Rep(u, Pred(c), Succ(c))
    {
      var tmp := PreviousNode(node, u, Pred(c));
      LastInside(u, Pred(c));
      ThreadLast(tmp, node.right, u, Pred(c), node, nodes);
      assert RepCtx(c, node);
    }

    /** The node has a left child only. */
    method RemoveLeftOnly(node: Node, parent: Node?, leftNode: bool, path: array<Node?>, idx: nat,
                          ghost c: Context, ghost t: Shape)
      requires Doomed(node, path, idx, c, t) && t.left.Bin? && t.right.Leaf?
      requires parent == Parent(c) && leftNode == c.InLeft?
      modifies this`root, nodes
      ensures Unlinked(parent, path, idx, UpCtx(c), UpShape(c, t.left), UpHeight(c, Height(t)),
                       Entries(Plug(c, t.left)))
    {
      OpenLeft(node, path, idx, c, t);
      DoomedAvl(c, t);
      Promote(parent, leftNode, node.left, path, idx, node, c, t.left, Height(t));
    }

    /** The last node of the left subtree gets the right thread of the node that goes. */
    method OpenLeft(node: Node, path: array<Node?>, idx: nat, ghost c: Context, ghost t: Shape)
      requires Doomed(node, path, idx, c, t) && t.left.Bin? && t.right.Leaf?
      modifies nodes
      ensures Opened(path, idx, node, c, t.left) && node.left == t.left.e.node
    {
      DoomedFacts(node, path, idx, c, t);
      RethreadLast(node, c, t.left);
    }

    lemma {:induction false} DoomedRight(node: Node, path: array<Node?>, idx: nat, c: Context, t: Shape)
      requires Doomed(node, path, idx, c, t) && t.right.Bin?
      ensures Rep(t.right, node, Succ(c)) && Nodes(t.right) <= nodes && node.right == t.right.e.node
    {
      BinNodes(t.left, t.e, t.bal, t.right);
    }

    static lemma {:induction false} DoomedAvl(c: Context, t: Shape)
      requires t.Bin? && Avl(Plug(c, t))
      ensures CtxAvl(c, Height(t)) && Avl(t.left) && Avl(t.right) && -1 <= t.bal <= 1
      ensures t.left.Leaf? ==> Height(t.right) == Height(t) - 1
      ensures t.right.Leaf? ==> Height(t.left) == Height(t) - 1
    {
      PlugAvl(c, t);
      BinAvl(t.left, t.e, t.bal, t.right);
    }

    /** `tree->root = next`, `parent->left = next` or `parent->right = next` */
    method Install(parent: Node?, leftNode: bool, next: Node, ghost gone: Node, ghost c: Context, ghost u: Shape)
      requires CtxNodes(c) <= nodes && Nodes(u) <= nodes && u.Bin? && next == u.e.node
      requires CtxDistinct(c) && Distinct(u) && CtxNodes(c) !! Nodes(u)
      requires RepCtx(c, gone) && Rep(u, Pred(c), Succ(c))
      requires parent == Parent(c) && leftNode == c.InLeft? && (!c.Top? ==> root == RootOf(Plug(c, u)))
      modifies this`root, nodes
      ensures Zipped(c, u, nodes) && root == RootOf(Plug(c, u))
    {
      if parent == null {
        root := next;
      } else {
        Relink(parent, leftNode, next, c, gone, nodes);
      }
    }

    /** `path[old_idx]` names the successor: what is above `balance` after it has moved up. */
    static lemma {:induction false} SuccessorPath(path: array<Node?>, idx0: nat, c: Context, t: Shape, k: nat)
      requires t.Bin? && IsFirst(t.right, k) && idx0 == |Path(c)| && idx0 + 1 + k < path.Length
      requires path[0] == null && forall i :: 1 <= i <= idx0 ==> path[i] == Path(c)[i - 1]
      requires path[idx0 + 1] == LeftSub(t.right, k).e.node
      requires forall i :: idx0 + 1 < i <= idx0 + 1 + k ==> path[i] == EdgeNode(t.right, i - idx0 - 2)
      ensures k == 0 ==> OnPath(path, idx0 + 1, c)
      ensures k > 0 ==>
        && HasLeft(t.right, k - 1) && path[idx0 + 1 + k] == LeftSub(t.right, k - 1).e.node
        && OnPath(path, idx0 + 1 + k, LeftCtx(InRight(c, t.left, LeftSub(t.right, k).e, t.bal), t.right, k - 1))
    {
      if k > 0 {
        LeftStep(t.right, k);
        EdgeNodeIs(t.right, k - 1);
        var c0 := InRight(c, t.left, LeftSub(t.right, k).e, t.bal);
        var d := LeftCtx(c0, t.right, k - 1);
        LeftPlug(c0, t.right, k - 1, Leaf);
        assert Path(c0) == Path(c) + [LeftSub(t.right, k).e.node];
        forall i | 1 <= i < idx0 + 1 + k ensures path[i] == Path(d)[i - 1] {
          EdgePath(c0, t.right, k - 1, i - 1);
        }
      }
    }

    /** The successor and its parent are found, and the path is the one of the tree to come. */
    static method WalkToSuccessor(node: Node, path: array<Node?>, idx0: nat, ghost c: Context, ghost t: Shape,
                                  ghost s: Node?, ghost nodes: set<Node>)
      returns (next: Node, nextp: Node, balance: Node, idx: nat, ghost k: nat)
      requires t.Bin? && t.right.Bin? && OnPath(path, idx0 + 1, c) && |Path(c)| + Height(t) <= path.Length
      requires Rep(t.right, node, s) && Nodes(t.right) <= nodes && node.right == t.right.e.node
      modifies path
      ensures IsFirst(t.right, k) && next == LeftSub(t.right, k).e.node
      ensures k == 0 ==> nextp == node && balance == next && OnPath(path, idx, c)
      ensures k > 0 ==> HasLeft(t.right, k - 1) && nextp == balance == LeftSub(t.right, k - 1).e.node
      ensures k > 0 ==> OnPath(path, idx, LeftCtx(InRight(c, t.left, LeftSub(t.right, k).e, t.bal), t.right, k - 1))
    {
      var oldIdx := idx0 + 1;
      next, nextp, idx, k := FindSuccessor(node, path, oldIdx, t.right, s, nodes);
      path[oldIdx] := next;
      SuccessorPath(path, idx0, c, t, k);
      balance := path[idx];
    }

    /** The successor replaces the node, in the subtree and below the parent. */
    method SwapIn(node: Node, next: Node, nextp: Node, parent: Node?, leftNode: bool, ghost c: Context,
                  ghost t: Shape, ghost k: nat)
      requires node !in nodes && Zipped(c, t, nodes + {node})
      requires t.Bin? && node == t.e.node && root == RootOf(Plug(c, t))
      requires t.left.Bin? && IsFirst(t.right, k) && -1 <= t.bal <= 1
      requires parent == Parent(c) && leftNode == c.InLeft?
      requires next == LeftSub(t.right, k).e.node && (k == 0 ==> nextp == node)
      requires k > 0 ==> HasLeft(t.right, k - 1) && nextp == LeftSub(t.right, k - 1).e.node
      requires k > 0 ==> -1 <= LeftSub(t.right, k - 1).bal <= 1
      modifies this`root, node`balance, nodes
      ensures Zipped(c, Successor(t, k), nodes) && root == RootOf(Plug(c, Successor(t, k)))
    {
      SuccessorNodes(t, k);
      if !c.Top? { PlugRoot(c, t, Successor(t, k)); }
      ReplaceBySuccessor(node, next, nextp, t, k, Pred(c), Succ(c), nodes);
      assert RepCtx(c, node);
      Install(parent, leftNode, next, node, c, Successor(t, k));
    }

    /** The node has two children: its successor takes its place. */
    method RemoveTwo(node: Node, parent: Node?, leftNode: bool, path: array<Node?>, idx0: nat, ghost c: Context,
                     ghost t: Shape)
      returns (balance: Node, idx: nat, ghost k: nat)
      requires Doomed(node, path, idx0, c, t) && t.left.Bin? && t.right.Bin?
      requires parent == Parent(c) && leftNode == c.InLeft?
      requires |Path(c)| + Height(t) <= path.Length
      modifies this`root, node`balance, nodes, path
      ensures IsFirst(t.right, k) && Zipped(c, Successor(t, k), nodes) && root == RootOf(Plug(c, Successor(t, k)))
      ensures k == 0 ==> balance == Successor(t, 0).e.node && OnPath(path, idx, c)
      ensures k > 0 ==> HasLeft(t.right, k - 1) && balance == LeftSub(t.right, k - 1).e.node
      ensures k > 0 ==> OnPath(path, idx, LeftCtx(InRight(c, t.left, LeftSub(t.right, k).e, t.bal), t.right, k - 1))
    {
      DoomedAvl(c, t);
      DoomedRight(node, path, idx0, c, t);
      ghost var all := nodes + {node};
      assert Zipped(c, t, all);
      var next, nextp;
      next, nextp, balance, idx, k := WalkToSuccessor(node, path, idx0, c, t, Succ(c), nodes);
      assert Zipped(c, t, all);
      if k > 0 { LeftSubAvl(t.right, k - 1); }
      SwapIn(node, next, nextp, parent, leftNode, c, t, k);
    }

    /** The four child cases of g_tree_remove_internal, before the climb that restores the balances. */
    method Unlink(node: Node, parent: Node?, leftNode: bool, path: array<Node?>, idx0: nat, ghost c: Context,
                  ghost t: Shape)
      returns (balance: Node?, idx: nat, ghost d: Context, ghost u: Shape, ghost h: nat)
      requires Doomed(node, path, idx0, c, t) && parent == Parent(c) && leftNode == c.InLeft?
      requires |Path(c)| + Height(t) <= path.Length
      modifies this`root, node`balance, nodes, path
      ensures Unlinked(balance, path, idx, d, u, h, Without(c, t))
    {
      balance, idx := parent, idx0;
      d, h := UpCtx(c), UpHeight(c, Height(t));
      DoomedFacts(node, path, idx0, c, t);
      WithoutFacts(c, t);
      if !node.leftChild {
        if !node.rightChild {
          u := UpShape(c, Leaf);
          RemoveLeaf(node, parent, leftNode, path, idx, c, Height(t));
        } else {
          u := UpShape(c, t.right);
          RemoveRightOnly(node, parent, leftNode, path, idx, c, t);
        }
      } else if !node.rightChild {
        u := UpShape(c, t.left);
        RemoveLeftOnly(node, parent, leftNode, path, idx, c, t);
      } else {
        balance, idx, d, u, h := UnlinkTwo(node, parent, leftNode, path, idx0, c, t);
      }
    }

    method UnlinkTwo(node: Node, parent: Node?, leftNode: bool, path: array<Node?>, idx0: nat, ghost c: Context,
                     ghost t: Shape)
      returns (balance: Node, idx: nat, ghost d: Context, ghost u: Shape, ghost h: nat)
      requires Doomed(node, path, idx0, c, t) && parent == Parent(c) && leftNode == c.InLeft?
      requires t.left.Bin? && t.right.Bin? && |Path(c)| + Height(t) <= path.Length
      modifies this`root, node`balance, nodes, path
      ensures Unlinked(balance, path, idx, d, u, h, Without(c, t))
    {
      ghost var k;
      balance, idx, k := RemoveTwo(node, parent, leftNode, path, idx0, c, t);
      d, u, h := Lowered(c, t, k, nodes);
      SuccessorWithout(c, t, k);
    }

    /** The zipper at the lowest node whose height may have changed. */
    static lemma {:induction false} Lowered(c: Context, t: Shape, k: nat, nodes: set<Node>)
      returns (d: Context, u: Shape, h: nat)
      requires t.Bin? && IsFirst(t.right, k) && Avl(Plug(c, t)) && Zipped(c, Successor(t, k), nodes)
      ensures u.Bin? && Zipped(d, u, nodes) && Plug(d, u) == Plug(c, Successor(t, k)) && Shrunk(d, u, h)
      ensures k == 0 ==> d == c && u == Successor(t, 0)
      ensures k > 0 ==> HasLeft(t.right, k - 1) && u.e == LeftSub(t.right, k - 1).e
      ensures k > 0 ==> d == LeftCtx(InRight(c, t.left, LeftSub(t.right, k).e, t.bal), t.right, k - 1)
    {
      if k == 0 {
        d, u, h := c, Successor(t, 0), Height(t);
        SuccessorShrunk(c, t);
      } else {
        LeftStep(t.right, k);
        CutShrunk(c, t, k);
        var w := LeftSub(t.right, k - 1);
        d := LeftCtx(InRight(c, t.left, LeftSub(t.right, k).e, t.bal), t.right, k - 1);
        u, h := WithoutLeft(w), Height(w);
        ZippedPlug(d, u, nodes);
        ZippedPlug(c, Successor(t, k), nodes);
      }
    }

    /** g_slice_free: the memory of a freed node may hold anything afterwards. */
    static method Free(node: Node)
      modifies node
    {
      node.key, node.value, node.balance := *, *, *;
      node.left, node.right, node.leftChild, node.rightChild := *, *, *, *;
    }

    /** The destroy notifications for an entry that is dropped. */
    method NotifyDropped(node: Node)
      modifies this`destroyedKeys, this`destroyedValues
      ensures destroyedKeys == old(destroyedKeys) + (if hasKeyDestroy then [node.key] else [])
      ensures destroyedValues == old(destroyedValues) + (if hasValueDestroy then [node.value] else [])
    {
      if hasKeyDestroy { destroyedKeys := destroyedKeys + [node.key]; }
      if hasValueDestroy { destroyedValues := destroyedValues + [node.value]; }
    }

    /** `parent = path[--idx]` and on which side of it the node hangs */
    method FindParent(node: Node, path: array<Node?>, idx: nat, ghost c: Context, ghost t: Shape)
      returns (parent: Node?, leftNode: bool)
      requires Zipped(c, t, nodes) && t.Bin? && node == t.e.node && OnPath(path, idx, c)
      ensures parent == Parent(c) && leftNode == c.InLeft?
    {
      Pop(path, idx, c);
      parent := path[idx - 1];
      if parent != null { Side(c, t, nodes); }
      assert parent == null || parent.left == node || parent.right == node;
      leftNode := parent != null && node == parent.left;
    }

    /** From the moment the node has been found to the end of the climb. */
    method UnlinkAndRestore(node: Node, parent: Node?, leftNode: bool, path: array<Node?>, idx0: nat,
                            ghost c: Context, ghost t: Shape)
      requires Doomed(node, path, idx0, c, t) && parent == Parent(c) && leftNode == c.InLeft?
      requires |Path(c)| + Height(t) <= path.Length
      modifies this`root, this`shape, node`balance, nodes, path
      ensures Zipped(Top, shape, nodes) && root == RootOf(shape) && Avl(shape) && Entries(shape) == Without(c, t)
    {
      var balance, idx, d, u, h := Unlink(node, parent, leftNode, path, idx0, c, t);
      if balance != null {
        RestoreAfterRemove(balance, path, idx, d, u, h);
      } else {
        shape := u;
      }
    }

    /** The node found leaves the set of nodes; nothing else changes yet. */
    ghost method Condemn(key: int, node: Node, path: array<Node?>, idx: nat, c: Context, t: Shape)
      requires Valid() && At(key, node, c, t) && OnPath(path, idx, c)
      modifies this`nodes
      ensures nodes == old(nodes) - {node} && Doomed(node, path, idx - 1, c, t)
      ensures |Path(c)| + Height(t) <= Height(shape)
    {
      nodes := nodes - {node};
      assert nodes + {node} == old(nodes);
      PlugHeight(c, t);
    }

    /** g_tree_remove_internal once the key has been found, on the heap. */
    method CutOut(key: int, node: Node, path: array<Node?>, idx: nat, ghost c: Context, ghost t: Shape)
      requires Valid() && At(key, node, c, t) && OnPath(path, idx, c) && Height(shape) <= path.Length
      modifies this`root, this`shape, this`nodes, nodes, path
      ensures nodes == old(nodes) - {node} && Zipped(Top, shape, nodes) && root == RootOf(shape)
      ensures node.key == old(node.key) && node.value == old(node.value)
      ensures Avl(shape) && Entries(shape) == Without(c, t)
    {
      var parent, leftNode := FindParent(node, path, idx, c, t);
      Condemn(key, node, path, idx, c, t);
      UnlinkAndRestore(node, parent, leftNode, path, idx - 1, c, t);
    }

    /** g_tree_remove_internal once the key has been found, without the final notifications. */
    method TakeOut(key: int, node: Node, path: array<Node?>, idx: nat, ghost c: Context, ghost t: Shape)
      requires Valid() && Searchable(cmp, key, Entries(shape)) && At(key, node, c, t) && cmp(key, t.e.key) == 0
      requires OnPath(path, idx, c) && path.Length == MAX_GTREE_HEIGHT && Height(shape) <= MAX_GTREE_HEIGHT
      modifies this`root, this`nnodes, this`wraps, this`shape, this`nodes, nodes, path
      ensures nodes == old(nodes) - {node} && nnodes == Decrement(old(nnodes)) && Valid()
      ensures node.key == old(node.key) && node.value == old(node.value)
      ensures Entries(shape) == Removed(cmp, old(Entries(shape)), key)
    {
      CutSorted(key, node, path, idx, c, t);
      CountDown();
    }

    /** The same without the count: the entries stay sorted. */
    method CutSorted(key: int, node: Node, path: array<Node?>, idx: nat, ghost c: Context, ghost t: Shape)
      requires Valid() && Searchable(cmp, key, Entries(shape)) && At(key, node, c, t) && cmp(key, t.e.key) == 0
      requires OnPath(path, idx, c) && Height(shape) <= path.Length
      modifies this`root, this`shape, this`nodes, nodes, path
      ensures nodes == old(nodes) - {node} && Zipped(Top, shape, nodes) && root == RootOf(shape) && Avl(shape)
      ensures node.key == old(node.key) && node.value == old(node.value)
      ensures Entries(shape) == Removed(cmp, old(Entries(shape)), key)
      ensures Sorted(cmp, Entries(shape)) && Size(shape) == old(Size(shape)) - 1
    {
      WithoutFits(cmp, key, c, t);
      CutOut(key, node, path, idx, c, t);
      SizeIsLength(shape);
    }

    /** What a removal does besides changing the entries. */
    ghost predicate Dropped(e: Entry, steal: bool, nodes0: set<Node>, nnodes0: guint, keys0: seq<int>,
                            values0: seq<int>)
      reads this
    {
      && nodes == nodes0 - {e.node} && nnodes == Decrement(nnodes0)
      && destroyedKeys == keys0 + (if hasKeyDestroy && !steal then [e.key] else [])
      && destroyedValues == values0 + (if hasValueDestroy && !steal then [e.value] else [])
    }

    /** The notifications, and the release of the node. */
    method Discard(node: Node, steal: bool)
      requires Valid() && node !in nodes
      modifies this`destroyedKeys, this`destroyedValues, node
      ensures Valid()
      ensures destroyedKeys == old(destroyedKeys) + (if hasKeyDestroy && !steal then [old(node.key)] else [])
      ensures destroyedValues == old(destroyedValues) + (if hasValueDestroy && !steal then [old(node.value)] else [])
    {
      if !steal { NotifyDropped(node); }
      Free(node);
    }

    /** g_tree_remove_internal */
    method RemoveInternal(key: int, steal: bool) returns (removed: bool)
      requires Valid() && Searchable(cmp, key, Entries(shape)) && Height(shape) <= MAX_GTREE_HEIGHT
      modifies this, nodes
      ensures Valid() && refCount == old(refCount)
      ensures removed <==> Found(cmp, key, old(Entries(shape)))
      ensures Entries(shape) == Removed(cmp, old(Entries(shape)), key)
      ensures !removed ==> unchanged(this) && unchanged(nodes)
      ensures removed ==>
        Dropped(Lookup(cmp, key, old(Entries(shape))).value, steal,
                old(nodes), old(nnodes), old(destroyedKeys), old(destroyedValues))
    {
      if root == null { return false; }
      removed := RemoveSearch(key, steal);
    }

    /** The search, and the removal of what it found. */
    method RemoveSearch(key: int, steal: bool) returns (removed: bool)
      requires Valid() && Searchable(cmp, key, Entries(shape)) && root != null && Height(shape) <= MAX_GTREE_HEIGHT
      modifies this`root, this`nnodes, this`wraps, this`shape, this`nodes, this`destroyedKeys, this`destroyedValues
      modifies nodes
      ensures Valid() && (removed <==> Found(cmp, key, old(Entries(shape))))
      ensures Entries(shape) == Removed(cmp, old(Entries(shape)), key)
      ensures !removed ==> unchanged(this) && unchanged(nodes)
      ensures removed ==>
        Dropped(Lookup(cmp, key, old(Entries(shape))).value, steal,
                old(nodes), old(nnodes), old(destroyedKeys), old(destroyedValues))
    {
      var path := new Node?[MAX_GTREE_HEIGHT];
      var node, idx, r, c, t := Descend(key, path);
      Stop(cmp, key, c, t);
      removed := r == 0;
      if removed {
        RemoveFound(key, steal, node, path, idx, c, t);
      }
    }

    method RemoveFound(key: int, steal: bool, node: Node, path: array<Node?>, idx: nat, ghost c: Context,
                       ghost t: Shape)
      requires Valid() && Searchable(cmp, key, Entries(shape)) && At(key, node, c, t) && cmp(key, t.e.key) == 0
      requires OnPath(path, idx, c) && path.Length == MAX_GTREE_HEIGHT && Height(shape) <= MAX_GTREE_HEIGHT
      modifies this`root, this`nnodes, this`wraps, this`shape, this`nodes, this`destroyedKeys, this`destroyedValues
      modifies nodes, path
      ensures Valid() && Entries(shape) == Removed(cmp, old(Entries(shape)), key)
      ensures Dropped(t.e, steal, old(nodes), old(nnodes), old(destroyedKeys), old(destroyedValues))
    {
      TakeOut(key, node, path, idx, c, t);
      Discard(node, steal);
    }

    // ----- traversal

    /** g_tree_node_first */
    method First() returns (tmp: Node?)
      requires Valid()
      ensures tmp == if Entries(shape) == [] then null else Entries(shape)[0].node
    {
      if root == null { return null; }
      tmp := Leftmost(root, shape, null, null);
      FirstIsFirst(shape, null);
    }

    /** g_tree_node_last */
    method Last() returns (tmp: Node?)
      requires Valid()
      ensures tmp == if Entries(shape) == [] then null else Entries(shape)[|Entries(shape)| - 1].node
    {
      if root == null { return null; }
      tmp := Rightmost(root, shape, null, null);
      LastIsLast(shape, null);
    }

    /** g_tree_node_next on the node at place `i` */
    method Next(node: Node, ghost i: nat) returns (tmp: Node?)
      requires Valid() && i < |Entries(shape)| && node == Entries(shape)[i].node
      ensures tmp == if i + 1 < |Entries(shape)| then Entries(shape)[i + 1].node else null
    {
      ghost var l, lp, r, rs := Neighbours(shape, null, null, i);
      tmp := NextNode(node, r, rs);
    }

    /** g_tree_node_previous on the node at place `i` */
    method Previous(node: Node, ghost i: nat) returns (tmp: Node?)
      requires Valid() && i < |Entries(shape)| && node == Entries(shape)[i].node
      ensures tmp == if i > 0 then Entries(shape)[i - 1].node else null
    {
      ghost var l, lp, r, rs := Neighbours(shape, null, null, i);
      tmp := PreviousNode(node, l, lp);
    }

    /**
     g_tree_foreach.  The callback is a function of a state of its own and of the
     entry: it gives the next state and says whether to stop.  `n` calls are made.
     */
    method Foreach<S>(visit: (S, int, int) -> (S, bool), start: S) returns (state: S, ghost n: nat)
      requires Valid()
      ensures Visited(visit, start, Entries(shape), state, n)
    {
      state, n := start, 0;
      if root == null { return; }
      var node := First();
      state, n := VisitFrom(visit, start, node);
    }

    /** The loop of g_tree_foreach. */
    method VisitFrom<S>(visit: (S, int, int) -> (S, bool), start: S, first: Node?) returns (state: S, ghost n: nat)
      requires Visiting(visit, start, start, first, 0)
      ensures Visited(visit, start, Entries(shape), state, n)
    {
      var node, stop := first, false;
      state, n := start, 0;
      while node != null
        invariant Visiting(visit, start, state, node, n)
        decreases |Entries(shape)| - n
      {
        state, stop, node := Visit(visit, start, state, node, n);
        n := n + 1;
        if stop { return; }
      }
    }

    /** The state of the loop: `n` calls have been made, and `node` is next. */
    ghost predicate Visiting<S>(visit: (S, int, int) -> (S, bool), start: S, state: S, node: Node?, n: nat)
      reads this, nodes
    {
      && Valid() && n <= |Entries(shape)| && node == NodeOr(Entries(shape), n, null)
      && state == Accumulated(visit, start, Entries(shape), n) && GoesOn(visit, start, Entries(shape), n)
    }

    /** One turn of the loop: the callback, and the next node unless it said stop. */
    method Visit<S>(visit: (S, int, int) -> (S, bool), ghost start: S, state: S, node: Node, ghost n: nat)
      returns (state': S, stop: bool, next: Node?)
      requires Visiting(visit, start, state, node, n)
      ensures n < |Entries(shape)|
      ensures if stop then Visited(visit, start, Entries(shape), state', n + 1)
              else Visiting(visit, start, state', next, n + 1)
    {
      EntryHeld(n);
      var result := visit(state, node.key, node.value);
      state', stop := result.0, result.1;
      next := null;
      if !stop {
        next := Next(node, n);
      }
    }

    lemma {:induction false} EntryHeld(i: nat)
      requires Valid() && i < |Entries(shape)|
      ensures var e := Entries(shape)[i]; e.node.key == e.key && e.node.value == e.value
    {
      AllFrom(shape, null, null, 0);
      RepFromStart(shape, i);
      var r, rs := NextFrom(shape, null, null, i);
    }

    /** A node that is found holds the value of its entry. */
    lemma {:induction false} LookupHeld(key: int)
      requires Valid() && Found(cmp, key, Entries(shape))
      ensures var e := Lookup(cmp, key, Entries(shape)).value; e.node.key == e.key && e.node.value == e.value
    {
      EntryHeld(Rank(cmp, key, Entries(shape)));
    }

    // ----- clearing and releasing

    /** One turn of the loop in g_tree_remove_all: the node is notified and freed, the rest stays intact. */
    method DropOne(node: Node, ghost s: Shape, ghost i: nat) returns (next: Node?)
      requires RepFrom(s, null, null, i) && NodesFrom(s, i) <= nodes && Distinct(s)
      requires i < |Entries(s)| && node == Entries(s)[i].node
      modifies this`destroyedKeys, this`destroyedValues, node
      ensures next == NodeOr(Entries(s), i + 1, null)
      ensures RepFrom(s, null, null, i + 1)
      ensures destroyedKeys == old(destroyedKeys) + (if hasKeyDestroy then [Entries(s)[i].key] else [])
      ensures destroyedValues == old(destroyedValues) + (if hasValueDestroy then [Entries(s)[i].value] else [])
    {
      ghost var r, rs := NextFrom(s, null, null, i);
      next := NextNode(node, r, rs);
      RepFromNext(s, null, null, i);
      NotLater(s, i);
      FromShrinks(s, i);
      NotifyDropped(node);
      Free(node);
    }

    method DropLogged(node: Node, ghost i: nat, ghost keys0: seq<int>, ghost values0: seq<int>) returns (next: Node?)
      requires Distinct(shape) && i < |Entries(shape)| && node == Entries(shape)[i].node
      requires RepFrom(shape, null, null, i) && NodesFrom(shape, i) <= nodes
      requires Logged(Entries(shape), i, keys0, values0)
      modifies this`destroyedKeys, this`destroyedValues, node
      ensures next == NodeOr(Entries(shape), i + 1, null)
      ensures RepFrom(shape, null, null, i + 1) && NodesFrom(shape, i + 1) <= nodes
      ensures Logged(Entries(shape), i + 1, keys0, values0)
    {
      FromShrinks(shape, i);
      next := DropOne(node, shape, i);
      LoggedStep(Entries(shape), i, keys0, values0);
    }

    /** The loop of g_tree_remove_all.  `freed` lists the nodes that are freed, in order. */
    method FreeAll() returns (ghost freed: seq<Node>)
      requires Valid()
      modifies this`destroyedKeys, this`destroyedValues, nodes
      ensures destroyedKeys == old(destroyedKeys) + (if hasKeyDestroy then Keys(Entries(shape)) else [])
      ensures destroyedValues == old(destroyedValues) + (if hasValueDestroy then Values(Entries(shape)) else [])
      ensures freed == NodeSeq(Entries(shape))
    {
      ghost var es := Entries(shape);
      var node := First();
      AllFrom(shape, null, null, 0);
      freed := FreeFrom(node, destroyedKeys, destroyedValues);
      assert es[..|es|] == es;
    }

    /** The first `i` entries have been notified, after what was logged before. */
    ghost predicate Logged(es: seq<Entry>, i: nat, keys0: seq<int>, values0: seq<int>)
      requires i <= |es|
      reads this
    {
      && destroyedKeys == keys0 + (if hasKeyDestroy then Keys(es[..i]) else [])
      && destroyedValues == values0 + (if hasValueDestroy then Values(es[..i]) else [])
    }

    /** The state of the loop in g_tree_remove_all: the first `i` nodes are freed, and the others are as they were. */
    ghost predicate Freeing(node: Node?, i: nat, freed: seq<Node>, keys0: seq<int>, values0: seq<int>)
      reads this, nodes
    {
      && i <= |Entries(shape)| && node == NodeOr(Entries(shape), i, null) && Distinct(shape)
      && NodesFrom(shape, i) <= nodes && RepFrom(shape, null, null, i)
      && freed == NodeSeq(Entries(shape)[..i]) && Logged(Entries(shape), i, keys0, values0)
    }

    /** The loop itself. */
    method FreeFrom(first: Node?, ghost keys0: seq<int>, ghost values0: seq<int>) returns (ghost freed: seq<Node>)
      requires Freeing(first, 0, [], keys0, values0)
      modifies this`destroyedKeys, this`destroyedValues, nodes
      ensures Freeing(null, |Entries(shape)|, freed, keys0, values0)
    {
      freed := [];
      var node := first;
      ghost var i := 0;
      while node != null
        invariant Freeing(node, i, freed, keys0, values0)
        decreases |Entries(shape)| - i
      {
        node, freed := FreeOne(node, i, freed, keys0, values0);
        i := i + 1;
      }
    }

    /** One turn of the loop. */
    method FreeOne(node: Node, ghost i: nat, ghost freed0: seq<Node>, ghost keys0: seq<int>, ghost values0: seq<int>)
      returns (next: Node?, ghost freed: seq<Node>)
      requires Freeing(node, i, freed0, keys0, values0)
      modifies this`destroyedKeys, this`destroyedValues, nodes
      ensures i < |Entries(shape)| && Freeing(next, i + 1, freed, keys0, values0)
    {
      NodeFrom(shape, i);
      KeysStep(Entries(shape), i);
      freed := freed0 + [node];
      next := DropLogged(node, i, keys0, values0);
    }

    lemma {:induction false} LoggedStep(es: seq<Entry>, i: nat, keys0: seq<int>, values0: seq<int>)
      requires i < |es|
      ensures keys0 + (if hasKeyDestroy then Keys(es[..i]) else []) + (if hasKeyDestroy then [es[i].key] else [])
           == keys0 + (if hasKeyDestroy then Keys(es[..i + 1]) else [])
      ensures values0 + (if hasValueDestroy then Values(es[..i]) else [])
           + (if hasValueDestroy then [es[i].value] else [])
           == values0 + (if hasValueDestroy then Values(es[..i + 1]) else [])
    {
      KeysStep(es, i);
    }

    /** g_tree_remove_all */
    method RemoveAll() returns (ghost freed: seq<Node>)
      requires Valid()
      modifies this`root, this`nnodes, this`wraps, this`shape, this`nodes, this`destroyedKeys, this`destroyedValues
      modifies nodes
      ensures Valid() && shape == Leaf && nnodes == 0 && nodes == {}
      ensures destroyedKeys == old(destroyedKeys) + (if hasKeyDestroy then Keys(old(Entries(shape))) else [])
      ensures destroyedValues == old(destroyedValues) + (if hasValueDestroy then Values(old(Entries(shape))) else [])
      ensures freed == NodeSeq(old(Entries(shape)))
      ensures forall j, k :: 0 <= j < k < |freed| ==> freed[j] != freed[k]
    {
      DistinctEntries(shape);
      freed := FreeAll();
      root := null;
      nnodes, wraps := 0, 0;
      shape, nodes := Leaf, {};
    }

    /** g_tree_ref */
    method Ref()
      modifies this`refCount
      ensures refCount == old(refCount) + 1
    {
      refCount := refCount + 1;
    }

    /** g_tree_unref: the last reference takes the entries and the tree with it. */
    method Unref() returns (released: bool, ghost freed: seq<Node>)
      requires Valid()
      modifies this, nodes
      ensures refCount == old(refCount) - 1 && Valid()
      ensures released <==> refCount == 0
      ensures !released ==>
        && freed == [] && shape == old(shape)
        && destroyedKeys == old(destroyedKeys) && destroyedValues == old(destroyedValues)
      ensures released ==>
        && shape == Leaf && freed == NodeSeq(old(Entries(shape)))
        && destroyedKeys == old(destroyedKeys) + (if hasKeyDestroy then Keys(old(Entries(shape))) else [])
        && destroyedValues == old(destroyedValues) + (if hasValueDestroy then Values(old(Entries(shape))) else [])
    {
      refCount := refCount - 1;
      released, freed := false, [];
      if refCount == 0 {
        freed := RemoveAll();
        released := true;
      }
    }

    /**
     g_tree_destroy.  On the last reference it clears the tree twice; still
     every key and value is destroyed once and every node is freed once.
     */
    method Destroy() returns (released: bool, ghost freed: seq<Node>)
      requires Valid()
      modifies this, nodes
      ensures Valid() && shape == Leaf && refCount == old(refCount) - 1
      ensures released <==> refCount == 0
      ensures destroyedKeys == old(destroyedKeys) + (if hasKeyDestroy then Keys(old(Entries(shape))) else [])
      ensures destroyedValues == old(destroyedValues) + (if hasValueDestroy then Values(old(Entries(shape))) else [])
      ensures freed == NodeSeq(old(Entries(shape)))
      ensures forall j, k :: 0 <= j < k < |freed| ==> freed[j] != freed[k]
    {
      freed := RemoveAll();
      ghost var again;
      released, again := Unref();
      freed := freed + again;
    }

    // ----- the public operations, with a bound on the number of nodes

    /** Up to 2^32 nodes, `nnodes` is their number. */
    lemma {:induction false} CountExact()
      requires Valid() && Size(shape) < GUINT_RANGE
      ensures nnodes == Size(shape)
    {
    }

    /** g_tree_insert */
    method Insert(key: int, value: int) returns (ret: Node)
      requires Valid() && Searchable(cmp, key, Entries(shape)) && Mirrored(cmp, key, Entries(shape))
      requires Size(shape) < PATH_NODE_LIMIT
      modifies this, nodes
      ensures Valid() && refCount == old(refCount)
      ensures Entries(shape) == Inserted(cmp, old(Entries(shape)), key, value, false, ret)
      ensures var found := Lookup(cmp, key, old(Entries(shape)));
        && Outcome(key, false, found, ret, old(nodes), old(nnodes), old(destroyedKeys), old(destroyedValues))
        && (found.None? ==> fresh(ret))
    {
      HeightFits(shape);
      ret := InsertInternal(key, value, false);
    }

    /** g_tree_remove */
    method Remove(key: int) returns (removed: bool)
      requires Valid() && Searchable(cmp, key, Entries(shape)) && Size(shape) < PATH_NODE_LIMIT
      modifies this, nodes
      ensures Valid() && refCount == old(refCount)
      ensures removed <==> Found(cmp, key, old(Entries(shape)))
      ensures Entries(shape) == Removed(cmp, old(Entries(shape)), key)
      ensures !removed ==> unchanged(this) && unchanged(nodes)
      ensures removed ==>
        Dropped(Lookup(cmp, key, old(Entries(shape))).value, false,
                old(nodes), old(nnodes), old(destroyedKeys), old(destroyedValues))
    {
      HeightFits(shape);
      removed := RemoveInternal(key, false);
    }
  }

  lemma {:induction false} HeightFits(t: Shape)
    requires Avl(t) && Size(t) < PATH_NODE_LIMIT
    ensures Height(t) <= MAX_GTREE_HEIGHT
  {
    PathBound(t);
  }

  /** The callback's state after it was called for the first `n` entries. */
  ghost function Accumulated<S>(visit: (S, int, int) -> (S, bool), start: S, es: seq<Entry>, n: nat): S
    requires n <= |es|
  {
    if n == 0 then start else visit(Accumulated(visit, start, es, n - 1), es[n - 1].key, es[n - 1].value).0
  }

  /** The callback asks to stop when it is called for the entry at place `j`. */
  ghost predicate Stops<S>(visit: (S, int, int) -> (S, bool), start: S, es: seq<Entry>, j: nat)
    requires j < |es|
  {
    visit(Accumulated(visit, start, es, j), es[j].key, es[j].value).1
  }

  /** It does not ask to stop for any of the first `n` entries. */
  ghost predicate GoesOn<S>(visit: (S, int, int) -> (S, bool), start: S, es: seq<Entry>, n: nat)
    requires n <= |es|
  {
    n > 0 ==> GoesOn(visit, start, es, n - 1) && !Stops(visit, start, es, n - 1)
  }

  /** `n` calls were made, for the first entries in order, up to the first that asks to stop, and left `state`. */
  ghost predicate Visited<S>(visit: (S, int, int) -> (S, bool), start: S, es: seq<Entry>, state: S, n: nat) {
    && n <= |es| && state == Accumulated(visit, start, es, n)
    && (n > 0 ==> GoesOn(visit, start, es, n - 1))
    && (n < |es| ==> n > 0 && Stops(visit, start, es, n - 1))
  }

  ghost function Keys(es: seq<Entry>): seq<int> {
    seq(|es|, i requires 0 <= i < |es| => es[i].key)
  }

  ghost function Values(es: seq<Entry>): seq<int> {
    seq(|es|, i requires 0 <= i < |es| => es[i].value)
  }

  ghost function NodeSeq(es: seq<Entry>): seq<Node> {
    seq(|es|, i requires 0 <= i < |es| => es[i].node)
  }

  lemma {:induction false} KeysStep(es: seq<Entry>, i: nat)
    requires i < |es|
    ensures NodeSeq(es[..i + 1]) == NodeSeq(es[..i]) + [es[i].node]
    ensures Keys(es[..i + 1]) == Keys(es[..i]) + [es[i].key]
    ensures Values(es[..i + 1]) == Values(es[..i]) + [es[i].value]
  {
  }

  lemma {:induction false} DistinctEntries(t: Shape)
    requires Distinct(t)
    ensures forall j, k :: 0 <= j < k < |Entries(t)| ==> Entries(t)[j].node != Entries(t)[k].node
  {
    forall j, k | 0 <= j < k < |Entries(t)| ensures Entries(t)[j].node != Entries(t)[k].node {
      EntriesDistinct(t, j, k);
    }
  }

  /** The entries of the tree without the one at the root of `t`. */
  ghost function Without(c: Context, t: Shape): seq<Entry>
    requires t.Bin?
  {
    (Before(c) + Entries(t.left)) + (Entries(t.right) + After(c))
  }

  lemma {:induction false} WithoutFacts(c: Context, t: Shape)
    requires t.Bin?
    ensures t.left.Leaf? ==> Entries(Plug(c, t.right)) == Without(c, t)
    ensures t.right.Leaf? ==> Entries(Plug(c, t.left)) == Without(c, t)
  {
    PlugEntries(c, t.left);
    PlugEntries(c, t.right);
  }

  lemma {:induction false} SuccessorWithout(c: Context, t: Shape, k: nat)
    requires t.Bin? && IsFirst(t.right, k)
    ensures Entries(Plug(c, Successor(t, k))) == Without(c, t)
  {
    PlugEntries(c, Successor(t, k));
    SuccessorEntries(t, k);
    Regroup4(Before(c), Entries(t.left), Entries(t.right), After(c));
  }

  lemma {:induction false} Regroup4(a: seq<Entry>, l: seq<Entry>, r: seq<Entry>, b: seq<Entry>)
    ensures a + (l + r) + b == (a + l) + (r + b)
  {
  }

  lemma {:induction false} WithoutIsRemoved(cmp: Compare, key: int, c: Context, t: Shape)
    requires t.Bin? && Searchable(cmp, key, Entries(Plug(c, t))) && cmp(key, t.e.key) == 0
    requires AllAbove(cmp, key, Before(c)) && AllBelow(cmp, key, After(c))
    ensures Without(c, t) == Removed(cmp, Entries(Plug(c, t)), key)
    ensures |Without(c, t)| == Size(Plug(c, t)) - 1
  {
    Stop(cmp, key, c, t);
    PlugMiddle(c, t);
    SpliceOut(Before(c) + Entries(t.left), t.e, Entries(t.right) + After(c));
    SizeIsLength(Plug(c, t));
  }

  lemma {:induction false} WithoutFits(cmp: Compare, key: int, c: Context, t: Shape)
    requires t.Bin? && Searchable(cmp, key, Entries(Plug(c, t))) && cmp(key, t.e.key) == 0
    requires AllAbove(cmp, key, Before(c)) && AllBelow(cmp, key, After(c)) && Sorted(cmp, Entries(Plug(c, t)))
    ensures Without(c, t) == Removed(cmp, Entries(Plug(c, t)), key) && Sorted(cmp, Without(c, t))
    ensures |Without(c, t)| == Size(Plug(c, t)) - 1
  {
    WithoutIsRemoved(cmp, key, c, t);
    RemovedSorted(cmp, Entries(Plug(c, t)), key);
  }

  lemma {:induction false} SpliceOut(xs: seq<Entry>, e: Entry, ys: seq<Entry>)
    ensures var es := xs + [e] + ys; es[..|xs|] + es[|xs| + 1..] == xs + ys
  {
  }

  // The zipper after the parent's balance has been lowered on the side of the hole.

  ghost function UpCtx(c: Context): Context { if c.Top? then Top else c.up }

  ghost function UpShape(c: Context, u: Shape): Shape {
    if c.Top? then u else Close(c, u, if c.InLeft? then 1 else -1)
  }

  ghost function UpHeight(c: Context, h: nat): nat { if c.Top? then h else HeightAbove(c, h) }

  /** The node with a new leaf on the side that a comparison result names. */
  ghost function With(t: Shape, r: int, e: Entry): Shape
    requires t.Bin?
  {
    if r < 0 then WithLeft(t, e) else WithRight(t, e)
  }

  lemma {:induction false} NewRoot(c: Context, t: Shape, u: Shape)
    requires t.Bin? && u.Bin? && t.e == u.e
    ensures RootOf(Plug(c, t)) == RootOf(Plug(c, u))
  {
    if !c.Top? { PlugRoot(c, t, u); }
  }

  /** A leaf hung where the search stopped lands at the rank of its key. */
  lemma {:induction false} NewEntry(cmp: Compare, key: int, value: int, replace: bool, c: Context, t: Shape, node: Node)
    requires t.Bin? && Searchable(cmp, key, Entries(Plug(c, t)))
    requires AllAbove(cmp, key, Before(c)) && AllBelow(cmp, key, After(c))
    requires var r := cmp(key, t.e.key); (r < 0 && t.left.Leaf?) || (r > 0 && t.right.Leaf?)
    ensures var es := Entries(Plug(c, t));
      && !Found(cmp, key, es)
      && Entries(Plug(c, With(t, cmp(key, t.e.key), Entry(node, key, value))))
         == Inserted(cmp, es, key, value, replace, node)
  {
    Stop(cmp, key, c, t);
    PlugMiddle(c, t);
    var es, e := Entries(Plug(c, t)), Entry(node, key, value);
    assert Entries(Bin(Leaf, e, 0, Leaf)) == [e];
    PlugMiddle(c, With(t, cmp(key, t.e.key), e));
    if cmp(key, t.e.key) < 0 {
      SpliceBefore(Before(c), e, t.e, Entries(t.right) + After(c));
    } else {
      SpliceAfter(Before(c) + Entries(t.left), e, t.e, After(c));
    }
  }

  /** Overwriting the entry of a key that is there keeps the shape of the tree. */
  lemma {:induction false} ExistingShape(c: Context, t: Shape, e: Entry)
    requires t.Bin? && Avl(Plug(c, t)) && e.node == t.e.node
    ensures var u := t.(e := e);
      && Avl(Plug(c, u)) && RootOf(Plug(c, u)) == RootOf(Plug(c, t)) && Size(Plug(c, u)) == Size(Plug(c, t))
  {
    var u := t.(e := e);
    PlugAvl(c, t);
    PlugAvl(c, u);
    BinAvl(u.left, u.e, u.bal, u.right);
    BinAvl(t.left, t.e, t.bal, t.right);
    if !c.Top? { PlugRoot(c, t, u); }
    PlugMiddle(c, t);
    PlugMiddle(c, u);
    SizeIsLength(Plug(c, t));
    SizeIsLength(Plug(c, u));
  }

  lemma {:induction false} ExistingEntry(cmp: Compare, key: int, value: int, replace: bool, c: Context, t: Shape)
    requires t.Bin? && Searchable(cmp, key, Entries(Plug(c, t)))
    requires Sorted(cmp, Entries(Plug(c, t))) && Mirrored(cmp, key, Entries(Plug(c, t)))
    requires AllAbove(cmp, key, Before(c)) && AllBelow(cmp, key, After(c)) && cmp(key, t.e.key) == 0
    ensures var es, u := Entries(Plug(c, t)), t.(e := Entry(t.e.node, if replace then key else t.e.key, value));
      && Entries(Plug(c, u)) == Inserted(cmp, es, key, value, replace, t.e.node)
      && Sorted(cmp, Entries(Plug(c, u)))
  {
    var es, u := Entries(Plug(c, t)), t.(e := Entry(t.e.node, if replace then key else t.e.key, value));
    Stop(cmp, key, c, t);
    PlugMiddle(c, t);
    PlugMiddle(c, u);
    var xs, ys := Before(c) + Entries(t.left), Entries(t.right) + After(c);
    SpliceOver(xs, t.e, u.e, ys);
    InsertedSorted(cmp, es, key, value, replace, t.e.node);
  }

  lemma {:induction false} SpliceOver(xs: seq<Entry>, e: Entry, f: Entry, ys: seq<Entry>)
    ensures (xs + [e] + ys)[|xs| := f] == xs + [f] + ys
  {
  }

  lemma {:induction false} InsertFacts(cmp: Compare, key: int, value: int, replace: bool, c: Context, t: Shape,
                                       node: Node)
    requires t.Bin? && Avl(Plug(c, t)) && Searchable(cmp, key, Entries(Plug(c, t)))
    requires Sorted(cmp, Entries(Plug(c, t))) && Mirrored(cmp, key, Entries(Plug(c, t)))
    requires AllAbove(cmp, key, Before(c)) && AllBelow(cmp, key, After(c))
    requires var r := cmp(key, t.e.key); (r < 0 && t.left.Leaf?) || (r > 0 && t.right.Leaf?)
    ensures var es, u := Entries(Plug(c, t)), With(t, cmp(key, t.e.key), Entry(node, key, value));
      && Lookup(cmp, key, es) == None
      && Grown(c, u, Height(t))
      && Entries(Plug(c, u)) == Inserted(cmp, es, key, value, replace, node)
      && Sorted(cmp, Entries(Plug(c, u)))
      && |Entries(Plug(c, u))| == Size(Plug(c, t)) + 1
  {
    NewEntry(cmp, key, value, replace, c, t, node);
    WithGrown(c, t, Entry(node, key, value));
    InsertedSorted(cmp, Entries(Plug(c, t)), key, value, replace, node);
    SizeIsLength(Plug(c, t));
  }

  lemma {:induction false} SpliceBefore(a: seq<Entry>, e: Entry, x: Entry, b: seq<Entry>)
    ensures var es := (a + []) + [x] + b; (a + [e]) + [x] + b == es[..|a|] + [e] + es[|a|..]
  {
  }

  lemma {:induction false} SpliceAfter(a: seq<Entry>, e: Entry, x: Entry, b: seq<Entry>)
    ensures var es := a + [x] + ([] + b); a + [x] + ([e] + b) == es[..|a| + 1] + [e] + es[|a| + 1..]
  {
  }

  lemma {:induction false} SameEntries(c: Context, t: Shape)
    requires NearlyAvl(t)
    ensures Entries(Plug(c, Rebalance(t))) == Entries(Plug(c, t))
  {
    RebalanceEntries(t);
    PlugEntries(c, t);
    PlugEntries(c, Rebalance(t));
  }

  lemma {:induction false} CloseEntries(c: Context, t: Shape, d: int)
    requires !c.Top?
    ensures Entries(Plug(c.up, Close(c, t, d))) == Entries(Plug(c, t))
  {
    PlugEntries(c.up, Close(c, t, d));
    PlugEntries(c.up, Close(c, t, 0));
    assert Entries(Close(c, t, d)) == Entries(Close(c, t, 0));
  }

  lemma {:induction false} PlugMiddle(c: Context, t: Shape)
    requires t.Bin?
    ensures Entries(Plug(c, t)) == (Before(c) + Entries(t.left)) + [t.e] + (Entries(t.right) + After(c))
  {
    PlugEntries(c, t);
    Regroup3(Before(c), Entries(t.left), t.e, Entries(t.right), After(c));
  }

  lemma {:induction false} Regroup3(a: seq<Entry>, l: seq<Entry>, e: Entry, r: seq<Entry>, b: seq<Entry>)
    ensures a + (l + [e] + r) + b == (a + l) + [e] + (r + b)
    ensures [e] + r + b == [e] + (r + b)
  {
  }

  /** What one comparison at the node under the hole decides. */
  lemma {:induction false} Narrow(cmp: Compare, key: int, c: Context, t: Shape)
    requires t.Bin? && Searchable(cmp, key, Entries(Plug(c, t)))
    requires AllAbove(cmp, key, Before(c)) && AllBelow(cmp, key, After(c))
    ensures cmp(key, t.e.key) < 0 ==> AllBelow(cmp, key, After(InLeft(c, t.e, t.bal, t.right)))
    ensures cmp(key, t.e.key) > 0 ==> AllAbove(cmp, key, Before(InRight(c, t.left, t.e, t.bal)))
  {
    PlugMiddle(c, t);
    SearchStep(cmp, key, Before(c) + Entries(t.left), t.e, Entries(t.right) + After(c));
    Regroup3(Before(c), Entries(t.left), t.e, Entries(t.right), After(c));
  }

  /** Where the search stops: at the key, or at the place where it is missing. */
  lemma {:induction false} Stop(cmp: Compare, key: int, c: Context, t: Shape)
    requires t.Bin? && Searchable(cmp, key, Entries(Plug(c, t)))
    requires AllAbove(cmp, key, Before(c)) && AllBelow(cmp, key, After(c))
    ensures var es, r, i := Entries(Plug(c, t)), cmp(key, t.e.key), |Before(c) + Entries(t.left)|;
      && (r == 0 ==> Lookup(cmp, key, es) == Some(t.e) && Rank(cmp, key, es) == i)
      && (r < 0 && t.left.Leaf? ==> Lookup(cmp, key, es) == None && Rank(cmp, key, es) == i)
      && (r > 0 && t.right.Leaf? ==> Lookup(cmp, key, es) == None && Rank(cmp, key, es) == i + 1)
  {
    PlugMiddle(c, t);
    var xs, ys := Before(c) + Entries(t.left), Entries(t.right) + After(c);
    LookupAround(cmp, key, xs, t.e, ys);
    if t.left.Leaf? { assert xs == Before(c); }
    if t.right.Leaf? { assert ys == After(c); }
  }
}
