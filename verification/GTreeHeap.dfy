/**
 Node objects against shapes: the pointers, flags and threads of glib/gtree.c,
 the two rotations, and the walk to a neighbour along children and threads.
 */
module GTreeHeap {
  import opened GTreeShape

  /** One node's fields: children where the flags say so, threads elsewhere. */
  ghost predicate Cell(e: Entry, bal: int, l: Node?, p: Node?, r: Node?, s: Node?)
    reads e.node
  {
    var n := e.node;
    && n.key == e.key && n.value == e.value && n.balance == bal
    && n.leftChild == (l != null) && n.left == (if l != null then l else p)
    && n.rightChild == (r != null) && n.right == (if r != null then r else s)
  }

  /**
   The nodes of `t` hold `t`; threads that leave it point at `p` and `s`.
   */
  ghost predicate Rep(t: Shape, p: Node?, s: Node?)
    reads Nodes(t)
  {
    t.Bin? ==>
      && Cell(t.e, t.bal, RootOf(t.left), p, RootOf(t.right), s)
      && Rep(t.left, p, t.e.node)
      && Rep(t.right, t.e.node, s)
  }

  ghost predicate CellOf(t: Shape, p: Node?, s: Node?)
    requires t.Bin?
    reads t.e.node
  {
    Cell(t.e, t.bal, RootOf(t.left), p, RootOf(t.right), s)
  }

  /** The nodes around a hole, when the root of what fills it is `h`. */
  ghost predicate RepCtx(c: Context, h: Node?)
    reads CtxNodes(c)
  {
    match c
    case Top => true
    case InLeft(up, e, b, r) =>
      Cell(e, b, h, Pred(up), RootOf(r), Succ(up)) && Rep(r, e.node, Succ(up)) && RepCtx(up, e.node)
    case InRight(up, l, e, b) =>
      Cell(e, b, RootOf(l), Pred(up), h, Succ(up)) && Rep(l, Pred(up), e.node) && RepCtx(up, e.node)
  }

  lemma {:induction false} RepPlug(c: Context, t: Shape)
    ensures Rep(Plug(c, t), null, null) <==> RepCtx(c, RootOf(t)) && Rep(t, Pred(c), Succ(c))
    decreases c
  {
    match c
    case Top =>
    case InLeft(up, e, b, r) => RepPlug(up, Bin(t, e, b, r));
    case InRight(up, l, e, b) => RepPlug(up, Bin(l, e, b, t));
  }

  /** The whole tree, opened at the hole of `c`; `nodes` holds all its nodes. */
  ghost predicate Zipped(c: Context, t: Shape, nodes: set<Node>)
    reads nodes
  {
    && CtxNodes(c) <= nodes && Nodes(t) <= nodes
    && CtxDistinct(c) && Distinct(t) && CtxNodes(c) !! Nodes(t)
    && RepCtx(c, RootOf(t)) && Rep(t, Pred(c), Succ(c))
  }

  lemma {:induction false} ZippedPlug(c: Context, t: Shape, nodes: set<Node>)
    ensures Zipped(c, t, nodes) <==> Zipped(Top, Plug(c, t), nodes)
  {
    RepPlug(c, t);
    PlugNodes(c, t);
  }

  /** Following one child pointer moves the hole one level down. */
  lemma {:induction false} ZippedDown(c: Context, t: Shape, nodes: set<Node>)
    requires t.Bin?
    ensures Zipped(c, t, nodes) <==> Zipped(InLeft(c, t.e, t.bal, t.right), t.left, nodes)
    ensures Zipped(c, t, nodes) <==> Zipped(InRight(c, t.left, t.e, t.bal), t.right, nodes)
  {
    ZippedPlug(c, t, nodes);
    ZippedPlug(InLeft(c, t.e, t.bal, t.right), t.left, nodes);
    ZippedPlug(InRight(c, t.left, t.e, t.bal), t.right, nodes);
  }

  lemma {:induction false} NeighboursInContext(c: Context)
    ensures Pred(c) != null ==> Pred(c) in CtxNodes(c)
    ensures Succ(c) != null ==> Succ(c) in CtxNodes(c)
  {
    if !c.Top? { NeighboursInContext(c.up); }
  }

  /** `bparent->left == node` tells on which side of its parent a node hangs. */
  lemma {:induction false} Side(c: Context, t: Shape, nodes: set<Node>)
    requires Zipped(c, t, nodes) && t.Bin? && !c.Top?
    ensures c.InLeft? <==> c.e.node.left == t.e.node
    ensures c.InRight? ==> c.e.node.right == t.e.node
  {
    NeighboursInContext(c.up);
  }

  lemma {:induction false} PlugRoot(c: Context, t: Shape, u: Shape)
    requires !c.Top?
    ensures RootOf(Plug(c, t)) == RootOf(Plug(c, u))
    ensures forall d :: RootOf(Plug(c.up, Close(c, t, d))) == RootOf(Plug(c, t))
    decreases c
  {
    if !c.up.Top? {
      PlugRoot(c.up, Close(c, t, 0), Close(c, u, 0));
      forall d ensures RootOf(Plug(c.up, Close(c, t, d))) == RootOf(Plug(c, t)) {
        PlugRoot(c.up, Close(c, t, 0), Close(c, t, d));
      }
    }
  }

  lemma {:induction false} SameContext(c: Context, d: int)
    requires !c.Top?
    ensures var k := c.(bal := c.bal + d);
      CtxNodes(k) == CtxNodes(c) && CtxDistinct(k) == CtxDistinct(c) && Pred(k) == Pred(c) && Succ(k) == Succ(c)
  {
  }

  /** Writing the parent of the hole leaves the rest of the context alone. */
  ghost predicate RestOfContext(c: Context)
    requires !c.Top?
    reads CtxNodes(c)
  {
    && RepCtx(c.up, c.e.node)
    && if c.InLeft? then Rep(c.right, c.e.node, Succ(c.up)) else Rep(c.left, Pred(c.up), c.e.node)
  }

  ghost predicate ParentCell(c: Context, h: Node?)
    requires !c.Top?
    reads c.e.node
  {
    if c.InLeft? then Cell(c.e, c.bal, h, Pred(c.up), RootOf(c.right), Succ(c.up))
    else Cell(c.e, c.bal, RootOf(c.left), Pred(c.up), h, Succ(c.up))
  }

  lemma {:induction false} ContextParts(c: Context, h: Node?)
    requires !c.Top?
    ensures RepCtx(c, h) <==> ParentCell(c, h) && RestOfContext(c)
  {
  }

  /** A write to the parent of the hole only. */
  method BumpBalance(bparent: Node, d: int, ghost c: Context, ghost h: Node?, ghost nodes: set<Node>)
    requires !c.Top? && bparent == c.e.node && CtxNodes(c) <= nodes && CtxDistinct(c) && RepCtx(c, h)
    requires -1 <= c.bal <= 1 && -1 <= d <= 1
    modifies bparent
    ensures RepCtx(c.(bal := c.bal + d), h)
  {
    assert RestOfContext(c);
    bparent.balance := bparent.balance + d;
    assert RestOfContext(c);
    ContextParts(c.(bal := c.bal + d), h);
  }

  /** `bparent->balance += d` */
  method Tilt(bparent: Node, d: int, ghost c: Context, ghost t: Shape, ghost nodes: set<Node>)
    requires Zipped(c, t, nodes) && !c.Top? && bparent == c.e.node
    requires -1 <= c.bal <= 1 && -1 <= d <= 1
    modifies bparent
    ensures Zipped(c.up, Close(c, t, d), nodes)
  {
    SameContext(c, d);
    BumpBalance(bparent, d, c, RootOf(t), nodes);
    assert Zipped(c.(bal := c.bal + d), t, nodes);
    ZippedDown(c.up, Close(c, t, d), nodes);
  }

  /** `bparent->left = node` or `bparent->right = node` after a rotation below. */
  method Relink(bparent: Node, leftNode: bool, node: Node, ghost c: Context, ghost h: Node, ghost nodes: set<Node>)
    requires !c.Top? && bparent == c.e.node && leftNode == c.InLeft?
    requires CtxNodes(c) <= nodes && CtxDistinct(c) && RepCtx(c, h)
    modifies bparent
    ensures RepCtx(c, node)
  {
    assert RestOfContext(c);
    if leftNode {
      bparent.left := node;
    } else {
      bparent.right := node;
    }
    assert RestOfContext(c);
    ContextParts(c, node);
  }

  /** The parent of a leaf that is taken out gets the leaf's thread back. */
  method Unhook(parent: Node, leftNode: bool, node: Node, ghost c: Context, ghost nodes: set<Node>)
    requires !c.Top? && parent == c.e.node && leftNode == c.InLeft? && node != parent
    requires CtxNodes(c) <= nodes && CtxDistinct(c) && RepCtx(c, node)
    requires node.left == Pred(c) && node.right == Succ(c)
    modifies parent
    ensures RepCtx(c, null)
  {
    assert RestOfContext(c);
    if leftNode {
      parent.leftChild := false;
      parent.left := node.left;
    } else {
      parent.rightChild := false;
      parent.right := node.right;
    }
    assert RestOfContext(c);
    ContextParts(c, null);
  }

  // ----- neighbours

  ghost function FirstNode(t: Shape, s: Node?): Node? {
    if t.Leaf? then s else FirstNode(t.left, t.e.node)
  }

  ghost function LastNode(t: Shape, p: Node?): Node? {
    if t.Leaf? then p else LastNode(t.right, t.e.node)
  }

  lemma {:induction false} FirstIsFirst(t: Shape, s: Node?)
    ensures FirstNode(t, s) == if t.Leaf? then s else Entries(t)[0].node
  {
    if t.Bin? { FirstIsFirst(t.left, t.e.node); }
  }

  lemma {:induction false} LastIsLast(t: Shape, p: Node?)
    ensures LastNode(t, p) == if t.Leaf? then p else Entries(t)[|Entries(t)| - 1].node
  {
    if t.Bin? { LastIsLast(t.right, t.e.node); }
  }

  /** `while (tmp->left_child) tmp = tmp->left` */
  method Leftmost(node: Node, ghost t: Shape, ghost p: Node?, ghost s: Node?) returns (tmp: Node)
    requires t.Bin? && node == t.e.node && Rep(t, p, s)
    ensures tmp == FirstNode(t, s)
  {
    tmp := node;
    ghost var u, r := t, s;
    while tmp.leftChild
      invariant u.Bin? && tmp == u.e.node && Rep(u, p, r)
      invariant FirstNode(u, r) == FirstNode(t, s)
      decreases u
    {
      tmp, u, r := tmp.left, u.left, u.e.node;
    }
  }

  /** `while (tmp->right_child) tmp = tmp->right` */
  method Rightmost(node: Node, ghost t: Shape, ghost p: Node?, ghost s: Node?) returns (tmp: Node)
    requires t.Bin? && node == t.e.node && Rep(t, p, s)
    ensures tmp == LastNode(t, p)
  {
    tmp := node;
    ghost var u, r := t, p;
    while tmp.rightChild
      invariant u.Bin? && tmp == u.e.node && Rep(u, r, s)
      invariant LastNode(u, r) == LastNode(t, p)
      decreases u
    {
      tmp, u, r := tmp.right, u.right, u.e.node;
    }
  }

  /** g_tree_node_next: it reads only the node and what lies to its right. */
  method NextNode(node: Node, ghost right: Shape, ghost s: Node?) returns (tmp: Node?)
    requires node.rightChild == right.Bin? && node.right == (if right.Bin? then right.e.node else s)
    requires Rep(right, node, s)
    ensures tmp == FirstNode(right, s)
  {
    tmp := node.right;
    if node.rightChild {
      tmp := Leftmost(tmp, right, node, s);
    }
  }

  /** g_tree_node_previous */
  method PreviousNode(node: Node, ghost left: Shape, ghost p: Node?) returns (tmp: Node?)
    requires node.leftChild == left.Bin? && node.left == (if left.Bin? then left.e.node else p)
    requires Rep(left, p, node)
    ensures tmp == LastNode(left, p)
  {
    tmp := node.left;
    if node.leftChild {
      tmp := Rightmost(tmp, left, p, node);
    }
  }

  // ----- new leaves

  ghost function WithLeft(t: Shape, e: Entry): Shape
    requires t.Bin?
  {
    Bin(Bin(Leaf, e, 0, Leaf), t.e, t.bal - 1, t.right)
  }

  ghost function WithRight(t: Shape, e: Entry): Shape
    requires t.Bin?
  {
    Bin(t.left, t.e, t.bal + 1, Bin(Leaf, e, 0, Leaf))
  }

  lemma {:induction false} WithNodes(t: Shape, e: Entry)
    requires t.Bin? && e.node !in Nodes(t) && Distinct(t)
    ensures t.left.Leaf? ==> Nodes(WithLeft(t, e)) == Nodes(t) + {e.node} && Distinct(WithLeft(t, e))
    ensures t.right.Leaf? ==> Nodes(WithRight(t, e)) == Nodes(t) + {e.node} && Distinct(WithRight(t, e))
  {
    BinNodes(Leaf, e, 0, Leaf);
  }

  lemma {:induction false} WithGrown(c: Context, t: Shape, e: Entry)
    requires t.Bin? && Avl(Plug(c, t))
    ensures t.left.Leaf? ==> Grown(c, WithLeft(t, e), Height(t))
    ensures t.right.Leaf? ==> Grown(c, WithRight(t, e), Height(t))
  {
    PlugAvl(c, t);
    BinAvl(Leaf, e, 0, Leaf);
    BinAvl(t.left, t.e, t.bal, t.right);
    var u := WithLeft(t, e);
    BinAvl(u.left, u.e, u.bal, u.right);
    var v := WithRight(t, e);
    BinAvl(v.left, v.e, v.bal, v.right);
  }

  /** The branch of g_tree_insert_internal that hangs a new node on the left, on the nodes it writes. */
  method LinkLeft(node: Node, key: int, value: int, ghost t: Shape, ghost p: Node?, ghost s: Node?)
    returns (child: Node)
    requires t.Bin? && t.left.Leaf? && node == t.e.node && -1 <= t.bal <= 1 && CellOf(t, p, s)
    modifies node
    ensures fresh(child)
    ensures var u := WithLeft(t, Entry(child, key, value)); CellOf(u, p, s) && Rep(u.left, p, node)
  {
    child := new Node(key, value);
    child.left := node.left;
    child.right := node;
    node.left := child;
    node.leftChild := true;
    node.balance := node.balance - 1;
  }

  method LinkRight(node: Node, key: int, value: int, ghost t: Shape, ghost p: Node?, ghost s: Node?)
    returns (child: Node)
    requires t.Bin? && t.right.Leaf? && node == t.e.node && -1 <= t.bal <= 1 && CellOf(t, p, s)
    modifies node
    ensures fresh(child)
    ensures var u := WithRight(t, Entry(child, key, value)); CellOf(u, p, s) && Rep(u.right, node, s)
  {
    child := new Node(key, value);
    child.right := node.right;
    child.left := node;
    node.right := child;
    node.rightChild := true;
    node.balance := node.balance + 1;
  }

  method AttachLeft(node: Node, key: int, value: int, ghost c: Context, ghost t: Shape, ghost nodes: set<Node>)
    returns (child: Node)
    requires Zipped(c, t, nodes) && t.Bin? && t.left.Leaf? && node == t.e.node && -1 <= t.bal <= 1
    modifies node
    ensures fresh(child)
    ensures Zipped(c, WithLeft(t, Entry(child, key, value)), nodes + {child})
  {
    assert Rep(t.right, node, Succ(c));
    child := LinkLeft(node, key, value, t, Pred(c), Succ(c));
    assert Rep(t.right, node, Succ(c));
    assert RepCtx(c, node);
    WithNodes(t, Entry(child, key, value));
  }

  method AttachRight(node: Node, key: int, value: int, ghost c: Context, ghost t: Shape, ghost nodes: set<Node>)
    returns (child: Node)
    requires Zipped(c, t, nodes) && t.Bin? && t.right.Leaf? && node == t.e.node && -1 <= t.bal <= 1
    modifies node
    ensures fresh(child)
    ensures Zipped(c, WithRight(t, Entry(child, key, value)), nodes + {child})
  {
    assert Rep(t.left, Pred(c), node);
    child := LinkRight(node, key, value, t, Pred(c), Succ(c));
    assert Rep(t.left, Pred(c), node);
    assert RepCtx(c, node);
    WithNodes(t, Entry(child, key, value));
  }

  /** The key is there already: its node gets the new value and perhaps the new key. */
  method Overwrite(node: Node, key: int, value: int, ghost c: Context, ghost t: Shape, ghost nodes: set<Node>)
    requires Zipped(c, t, nodes) && t.Bin? && node == t.e.node
    modifies node
    ensures Zipped(c, t.(e := Entry(node, key, value)), nodes)
  {
    assert RepCtx(c, node);
    OverwriteCell(node, key, value, t, Pred(c), Succ(c), nodes);
    assert RepCtx(c, node);
    BinNodes(t.left, Entry(node, key, value), t.bal, t.right);
  }

  method OverwriteCell(node: Node, key: int, value: int, ghost t: Shape, ghost p: Node?, ghost s: Node?,
                       ghost nodes: set<Node>)
    requires t.Bin? && node == t.e.node && Rep(t, p, s) && Distinct(t) && Nodes(t) <= nodes
    modifies node
    ensures Rep(t.(e := Entry(node, key, value)), p, s)
  {
    assert Rep(t.left, p, node) && Rep(t.right, node, s);
    node.value := value;
    node.key := key;
    assert Rep(t.left, p, node) && Rep(t.right, node, s);
  }

  // ----- rotations in place

  /** The balance fits into the field it is stored in. */
  predicate Storable(bal: int) { -128 <= bal <= 127 }

  /** What is left of a balance when it is stored; two balances were added or subtracted. */
  function Gint8(bal: int): gint8
    requires -384 <= bal <= 383
  {
    if bal < -128 then bal + 256 else if bal > 127 then bal - 256 else bal
  }

  /** The rotated tree with the balances as they are stored. */
  ghost function StoredLeft(t: Shape): Shape
    requires t.Bin? && t.right.Bin? && Storable(t.bal) && Storable(t.right.bal)
  {
    var u := RotateLeft(t);
    u.(bal := Gint8(u.bal), left := u.left.(bal := Gint8(u.left.bal)))
  }

  ghost function StoredRight(t: Shape): Shape
    requires t.Bin? && t.left.Bin? && Storable(t.bal) && Storable(t.left.bal)
  {
    var u := RotateRight(t);
    u.(bal := Gint8(u.bal), right := u.right.(bal := Gint8(u.right.bal)))
  }

  /** For these balances of a node and of its right child the left rotation stays within gint8. */
  predicate FitsLeft(a: int, b: int) {
    if b <= 0 then a > -128 && (if a >= 1 then b > -128 else a + b >= -126)
    else a >= b - 127 && (a <= b ==> a >= -126)
  }

  /** For these balances of a node and of its left child the right rotation stays within gint8. */
  predicate FitsRight(a: int, b: int) {
    if b <= 0 then a - b <= 126 && (a >= b ==> a <= 125)
    else a < 127 && (if a <= -1 then b < 127 else a + b <= 125)
  }

  /** On a tree with true balances the left rotation stores true balances exactly for these two. */
  lemma {:induction false} StoredLeftExact(t: Shape)
    requires t.Bin? && t.right.Bin? && Storable(t.bal) && Storable(t.right.bal) && Exact(t)
    ensures Exact(StoredLeft(t)) <==> FitsLeft(t.bal, t.right.bal)
  {
    RotateLeftExact(t);
    assert FitsLeft(t.bal, t.right.bal) <==> Storable(RotateLeft(t).bal) && Storable(RotateLeft(t).left.bal);
  }

  lemma {:induction false} StoredRightExact(t: Shape)
    requires t.Bin? && t.left.Bin? && Storable(t.bal) && Storable(t.left.bal) && Exact(t)
    ensures Exact(StoredRight(t)) <==> FitsRight(t.bal, t.left.bal)
  {
    RotateRightExact(t);
    assert FitsRight(t.bal, t.left.bal) <==> Storable(RotateRight(t).bal) && Storable(RotateRight(t).right.bal);
  }

  /** All balances of the tree can be stored. */
  ghost predicate AllStorable(t: Shape) {
    t.Bin? ==> Storable(t.bal) && AllStorable(t.left) && AllStorable(t.right)
  }

  /** Entries one above the other, the last one on top: a tree of left children only. */
  lemma {:induction false} LeftSpine(es: seq<Entry>) returns (t: Shape)
    requires |es| <= 129
    ensures Exact(t) && AllStorable(t) && Height(t) == |es| && Entries(t) == es
    ensures es != [] ==> t.Bin? && t.bal == 1 - |es|
  {
    if es == [] {
      t := Leaf;
    } else {
      var n := |es| - 1;
      var l := LeftSpine(es[..n]);
      t := Bin(l, es[n], -n, Leaf);
      assert es == es[..n] + [es[n]] + [];
    }
  }

  lemma {:induction false} RightSpine(es: seq<Entry>) returns (t: Shape)
    requires |es| <= 128
    ensures Exact(t) && AllStorable(t) && Height(t) == |es| && Entries(t) == es
    ensures es != [] ==> t.Bin? && t.bal == |es| - 1
  {
    if es == [] {
      t := Leaf;
    } else {
      var r := RightSpine(es[1..]);
      t := Bin(Leaf, es[0], |es| - 1, r);
      assert es == [] + [es[0]] + es[1..];
    }
  }

  /** Any 257 entries form a tree, two left spines below one node, that a left rotation leaves with a wrong balance. */
  lemma {:induction false} LeftRotationOverflows(es: seq<Entry>) returns (t: Shape)
    requires |es| == 257 && OwnNodes(es)
    ensures t.Bin? && t.right.Bin? && Exact(t) && AllStorable(t) && Distinct(t) && Entries(t) == es
    ensures t.bal == 0 && t.right.bal == -127
    ensures RotateLeft(t).bal == -129 && StoredLeft(t).bal == 127 && !Exact(StoredLeft(t))
  {
    var l := LeftSpine(es[..128]);
    var r := LeftSpine(es[129..]);
    t := Bin(l, es[128], 0, r);
    assert es == es[..128] + [es[128]] + es[129..];
    DistinctFromEntries(t);
    StoredLeftExact(t);
  }

  /** The same for a right rotation of two right spines. */
  lemma {:induction false} RightRotationOverflows(es: seq<Entry>) returns (t: Shape)
    requires |es| == 257 && OwnNodes(es)
    ensures t.Bin? && t.left.Bin? && Exact(t) && AllStorable(t) && Distinct(t) && Entries(t) == es
    ensures t.bal == 0 && t.left.bal == 127
    ensures RotateRight(t).bal == 129 && StoredRight(t).bal == -127 && !Exact(StoredRight(t))
  {
    var l := RightSpine(es[..128]);
    var r := RightSpine(es[129..]);
    t := Bin(l, es[128], 0, r);
    assert es == es[..128] + [es[128]] + es[129..];
    DistinctFromEntries(t);
    StoredRightExact(t);
  }

  /** The rotations of g_tree_node_balance never come near these limits. */
  lemma {:induction false} BalancingFits(t: Shape)
    requires NearlyAvl(t)
    ensures t.bal == 2 ==> t.right.Bin? && FitsLeft(t.bal, t.right.bal)
    ensures t.bal == -2 ==> t.left.Bin? && FitsRight(t.bal, t.left.bal)
    ensures t.bal == -2 && t.left.bal > 0 ==> t.left.right.Bin? && FitsLeft(t.left.bal, t.left.right.bal)
    ensures t.bal == 2 && t.right.bal < 0 ==> t.right.left.Bin? && FitsRight(t.right.bal, t.right.left.bal)
  {
    HeavyChild(t);
  }

  /** g_tree_node_rotate_left, on the two nodes it writes. */
  method TurnLeft(node: Node, ghost t: Shape, ghost p: Node?, ghost s: Node?) returns (right: Node)
    requires t.Bin? && t.right.Bin? && t.e.node == node && t.right.e.node != node
    requires CellOf(t, p, s) && CellOf(t.right, node, s)
    requires Storable(t.bal) && Storable(t.right.bal)
    modifies node, t.right.e.node
    ensures right == t.right.e.node
    ensures CellOf(StoredLeft(t), p, s) && CellOf(StoredLeft(t).left, p, right)
  {
    right := node.right;
    if right.leftChild {
      node.right := right.left;
    } else {
      node.rightChild := false;
      right.leftChild := true;
    }
    right.left := node;

    var aBal: int, bBal: int := node.balance, right.balance;
    right.balance := Gint8(if bBal <= 0 then (if aBal >= 1 then bBal - 1 else aBal + bBal - 2)
                           else (if aBal <= bBal then aBal - 2 else bBal - 1));
    node.balance := Gint8(if bBal <= 0 then aBal - 1 else aBal - bBal - 1);
  }

  /** g_tree_node_rotate_right, on the two nodes it writes. */
  method TurnRight(node: Node, ghost t: Shape, ghost p: Node?, ghost s: Node?) returns (left: Node)
    requires t.Bin? && t.left.Bin? && t.e.node == node && t.left.e.node != node
    requires CellOf(t, p, s) && CellOf(t.left, p, node)
    requires Storable(t.bal) && Storable(t.left.bal)
    modifies node, t.left.e.node
    ensures left == t.left.e.node
    ensures CellOf(StoredRight(t), p, s) && CellOf(StoredRight(t).right, left, s)
  {
    left := node.left;
    if left.rightChild {
      node.left := left.right;
    } else {
      node.leftChild := false;
      left.rightChild := true;
    }
    left.right := node;

    var aBal: int, bBal: int := node.balance, left.balance;
    left.balance := Gint8(if bBal <= 0 then (if bBal > aBal then bBal + 1 else aBal + 2)
                          else (if aBal <= -1 then bBal + 1 else aBal + bBal + 2));
    node.balance := Gint8(if bBal <= 0 then aBal - bBal + 1 else aBal + 1);
  }

  /**
   The whole rotation: every thread of the tree stays right, also in the parts
   that are not written.  `nodes` is any set that holds the nodes of the tree.
   */
  method RotateLeftNode(node: Node, ghost t: Shape, ghost p: Node?, ghost s: Node?, ghost nodes: set<Node>)
    returns (right: Node)
    requires t.Bin? && t.right.Bin? && t.e.node == node
    requires Rep(t, p, s) && Distinct(t) && Nodes(t) <= nodes
    requires Storable(t.bal) && Storable(t.right.bal)
    modifies node, t.right.e.node
    ensures right == t.right.e.node
    ensures Rep(StoredLeft(t), p, s)
  {
    BinNodes(t.right.left, t.right.e, t.right.bal, t.right.right);
    ghost var a, b, c, y := t.left, t.right.left, t.right.right, t.right.e.node;
    assert Rep(t.right, node, s);
    assert Rep(a, p, node) && Rep(b, node, y) && Rep(c, y, s);
    right := TurnLeft(node, t, p, s);
    assert Rep(StoredLeft(t).left, p, right);
  }

  method RotateRightNode(node: Node, ghost t: Shape, ghost p: Node?, ghost s: Node?, ghost nodes: set<Node>)
    returns (left: Node)
    requires t.Bin? && t.left.Bin? && t.e.node == node
    requires Rep(t, p, s) && Distinct(t) && Nodes(t) <= nodes
    requires Storable(t.bal) && Storable(t.left.bal)
    modifies node, t.left.e.node
    ensures left == t.left.e.node
    ensures Rep(StoredRight(t), p, s)
  {
    BinNodes(t.left.left, t.left.e, t.left.bal, t.left.right);
    ghost var a, b, c, y := t.left.left, t.left.right, t.right, t.left.e.node;
    assert Rep(t.left, p, node);
    assert Rep(a, p, y) && Rep(b, y, node) && Rep(c, node, s);
    left := TurnRight(node, t, p, s);
    assert Rep(StoredRight(t).right, left, s);
  }

  /** The inner half of a double rotation: `node->left = rotate_left(node->left)`. */
  method RotateLeftChild(node: Node, ghost t: Shape, ghost p: Node?, ghost s: Node?, ghost nodes: set<Node>)
    requires t.Bin? && t.left.Bin? && t.left.right.Bin? && t.e.node == node
    requires Rep(t, p, s) && Distinct(t) && Nodes(t) <= nodes
    requires -2 <= t.left.bal <= 2 && -2 <= t.left.right.bal <= 2
    modifies node, t.left.e.node, t.left.right.e.node
    ensures Rep(t.(left := RotateLeft(t.left)), p, s)
  {
    BinNodes(t.left.left, t.left.e, t.left.bal, t.left.right);
    assert CellOf(t, p, s) && Rep(t.left, p, node) && Rep(t.right, node, s);
    RotateLeftEntries(t.left);
    var l := RotateLeftNode(node.left, t.left, p, node, nodes);
    assert Rep(t.right, node, s);
    SetLeft(node, l, t, RotateLeft(t.left), p, s, nodes);
  }

  /** `node->left = l`, for a child `l` in place of another */
  method SetLeft(node: Node, l: Node, ghost t: Shape, ghost u: Shape, ghost p: Node?, ghost s: Node?,
                 ghost nodes: set<Node>)
    requires t.Bin? && t.left.Bin? && t.e.node == node && u.Bin? && l == u.e.node
    requires node !in Nodes(u) && node !in Nodes(t.right) && Nodes(u) <= nodes && Nodes(t.right) <= nodes
    requires CellOf(t, p, s) && Rep(u, p, node) && Rep(t.right, node, s)
    modifies node
    ensures Rep(t.(left := u), p, s)
  {
    node.left := l;
    assert Rep(u, p, node) && Rep(t.right, node, s);
  }

  method SetRight(node: Node, r: Node, ghost t: Shape, ghost u: Shape, ghost p: Node?, ghost s: Node?,
                  ghost nodes: set<Node>)
    requires t.Bin? && t.right.Bin? && t.e.node == node && u.Bin? && r == u.e.node
    requires node !in Nodes(u) && node !in Nodes(t.left) && Nodes(u) <= nodes && Nodes(t.left) <= nodes
    requires CellOf(t, p, s) && Rep(u, node, s) && Rep(t.left, p, node)
    modifies node
    ensures Rep(t.(right := u), p, s)
  {
    node.right := r;
    assert Rep(u, node, s) && Rep(t.left, p, node);
  }

  method RotateRightChild(node: Node, ghost t: Shape, ghost p: Node?, ghost s: Node?, ghost nodes: set<Node>)
    requires t.Bin? && t.right.Bin? && t.right.left.Bin? && t.e.node == node
    requires Rep(t, p, s) && Distinct(t) && Nodes(t) <= nodes
    requires -2 <= t.right.bal <= 2 && -2 <= t.right.left.bal <= 2
    modifies node, t.right.e.node, t.right.left.e.node
    ensures Rep(t.(right := RotateRight(t.right)), p, s)
  {
    BinNodes(t.right.left, t.right.e, t.right.bal, t.right.right);
    assert CellOf(t, p, s) && Rep(t.left, p, node) && Rep(t.right, node, s);
    RotateRightEntries(t.right);
    var r := RotateRightNode(node.right, t.right, node, s, nodes);
    assert Rep(t.left, p, node);
    SetRight(node, r, t, RotateRight(t.right), p, s, nodes);
  }

  lemma {:induction false} HeavyChild(t: Shape)
    requires NearlyAvl(t)
    ensures t.bal == -2 ==> t.left.Bin? && -1 <= t.left.bal <= 1
    ensures t.bal == -2 && t.left.bal > 0 ==> t.left.right.Bin? && -1 <= t.left.right.bal <= 1
    ensures t.bal == 2 ==> t.right.Bin? && -1 <= t.right.bal <= 1
    ensures t.bal == 2 && t.right.bal < 0 ==> t.right.left.Bin? && -1 <= t.right.left.bal <= 1
  {
    if t.bal == -2 && t.left.bal > 0 { assert Avl(t.left.right); }
    if t.bal == 2 && t.right.bal < 0 { assert Avl(t.right.left); }
  }

  /** The left half of g_tree_node_balance: the node is left-heavy by two. */
  method BalanceLeftHeavy(node: Node, ghost t: Shape, ghost p: Node?, ghost s: Node?, ghost nodes: set<Node>)
    returns (r: Node)
    requires NearlyAvl(t) && t.bal == -2 && t.e.node == node
    requires Rep(t, p, s) && Distinct(t) && Nodes(t) <= nodes
    modifies Nodes(t)
    ensures r == Rebalance(t).e.node && Rep(Rebalance(t), p, s)
  {
    HeavyChild(t);
    ghost var u := t;
    if node.left.balance > 0 {
      u := t.(left := RotateLeft(t.left));
      RotateLeftEntries(t.left);
      RotateLeftChild(node, t, p, s, nodes);
    }
    r := RotateRightNode(node, u, p, s, nodes);
  }

  method BalanceRightHeavy(node: Node, ghost t: Shape, ghost p: Node?, ghost s: Node?, ghost nodes: set<Node>)
    returns (r: Node)
    requires NearlyAvl(t) && t.bal == 2 && t.e.node == node
    requires Rep(t, p, s) && Distinct(t) && Nodes(t) <= nodes
    modifies Nodes(t)
    ensures r == Rebalance(t).e.node && Rep(Rebalance(t), p, s)
  {
    HeavyChild(t);
    ghost var u := t;
    if node.right.balance < 0 {
      u := t.(right := RotateRight(t.right));
      RotateRightEntries(t.right);
      RotateRightChild(node, t, p, s, nodes);
    }
    r := RotateLeftNode(node, u, p, s, nodes);
  }

  /** g_tree_node_balance */
  method BalanceNode(node: Node, ghost t: Shape, ghost p: Node?, ghost s: Node?, ghost nodes: set<Node>)
    returns (r: Node)
    requires NearlyAvl(t) && t.e.node == node
    requires Rep(t, p, s) && Distinct(t) && Nodes(t) <= nodes
    modifies Nodes(t)
    ensures r == Rebalance(t).e.node && Rep(Rebalance(t), p, s)
  {
    r := node;
    if node.balance < -1 {
      r := BalanceLeftHeavy(node, t, p, s, nodes);
    } else if node.balance > 1 {
      r := BalanceRightHeavy(node, t, p, s, nodes);
    }
  }
}
