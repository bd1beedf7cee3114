/**
 The left and right edges of a tree: walking down them, redirecting the thread
 at their end, and cutting off the first node.  This is what
 g_tree_remove_internal does to the neighbours of the node it takes out.
 */
module GTreeSpine {
  import opened GTreeShape
  import opened GTreeHeap

  // ----- k steps down the left edge

  ghost predicate HasLeft(t: Shape, k: nat) {
    t.Bin? && (k > 0 ==> HasLeft(t.left, k - 1))
  }

  ghost function LeftSub(t: Shape, k: nat): Shape
    requires HasLeft(t, k)
    ensures LeftSub(t, k).Bin?
  {
    if k == 0 then t else LeftSub(t.left, k - 1)
  }

  /** The tree with the subtree `k` steps down its left edge replaced. */
  ghost function LeftPut(t: Shape, k: nat, v: Shape): Shape
    requires HasLeft(t, k)
  {
    if k == 0 then v else Bin(LeftPut(t.left, k - 1, v), t.e, t.bal, t.right)
  }

  ghost function LeftSucc(t: Shape, s: Node?, k: nat): Node?
    requires HasLeft(t, k)
  {
    if k == 0 then s else LeftSucc(t.left, t.e.node, k - 1)
  }

  ghost function LeftCtx(c: Context, t: Shape, k: nat): Context
    requires HasLeft(t, k)
    decreases k
  {
    if k == 0 then c else LeftCtx(InLeft(c, t.e, t.bal, t.right), t.left, k - 1)
  }

  ghost function LeftRestNodes(t: Shape, k: nat): set<Node>
    requires HasLeft(t, k)
  {
    if k == 0 then {} else LeftRestNodes(t.left, k - 1) + {t.e.node} + Nodes(t.right)
  }

  /** The part of the tree that is not in the subtree `k` steps down. */
  ghost predicate LeftRest(t: Shape, s: Node?, k: nat)
    requires HasLeft(t, k)
    reads LeftRestNodes(t, k)
  {
    k > 0 ==>
      && Cell(t.e, t.bal, RootOf(t.left), null, RootOf(t.right), s)
      && Rep(t.right, t.e.node, s)
      && LeftRest(t.left, t.e.node, k - 1)
  }

  lemma {:induction false} LeftSplit(t: Shape, k: nat, v: Shape, p: Node?, s: Node?)
    requires HasLeft(t, k) && RootOf(v) == RootOf(LeftSub(t, k))
    ensures RootOf(LeftPut(t, k, v)) == RootOf(t)
    ensures Rep(LeftPut(t, k, v), p, s) <==> LeftRest(t, s, k) && Rep(v, p, LeftSucc(t, s, k))
  {
    if k > 0 {
      LeftSplit(t.left, k - 1, v, p, t.e.node);
    }
  }

  lemma {:induction false} LeftPutSame(t: Shape, k: nat)
    requires HasLeft(t, k)
    ensures LeftPut(t, k, LeftSub(t, k)) == t
  {
    if k > 0 { LeftPutSame(t.left, k - 1); }
  }

  lemma {:induction false} LeftDistinct(t: Shape, k: nat)
    requires HasLeft(t, k) && Distinct(t)
    ensures Distinct(LeftSub(t, k)) && Nodes(LeftSub(t, k)) <= Nodes(t)
  {
    if k > 0 { LeftDistinct(t.left, k - 1); }
  }

  lemma {:induction false} LeftNodes(t: Shape, k: nat, v: Shape)
    requires HasLeft(t, k)
    ensures Nodes(LeftPut(t, k, v)) == LeftRestNodes(t, k) + Nodes(v)
    ensures Distinct(t) && Distinct(v) && Nodes(v) <= Nodes(LeftSub(t, k)) ==>
      Distinct(LeftPut(t, k, v)) && LeftRestNodes(t, k) !! Nodes(v)
  {
    if k > 0 {
      LeftNodes(t.left, k - 1, v);
      LeftNodes(t.left, k - 1, LeftSub(t, k));
      LeftPutSame(t.left, k - 1);
    }
  }

  lemma {:induction false} LeftPlug(c: Context, t: Shape, k: nat, v: Shape)
    requires HasLeft(t, k)
    ensures Plug(LeftCtx(c, t, k), v) == Plug(c, LeftPut(t, k, v))
    ensures |Path(LeftCtx(c, t, k))| == |Path(c)| + k
    decreases k
  {
    if k > 0 { LeftPlug(InLeft(c, t.e, t.bal, t.right), t.left, k - 1, v); }
  }

  lemma {:induction false} LeftDepthBound(t: Shape, k: nat)
    requires HasLeft(t, k)
    ensures k < Height(t)
  {
    if k > 0 { LeftDepthBound(t.left, k - 1); }
  }

  lemma {:induction false} FirstOnEdge(t: Shape, s: Node?) returns (k: nat)
    requires t.Bin?
    ensures HasLeft(t, k) && LeftSub(t, k).left.Leaf? && LeftSub(t, k).e.node == FirstNode(t, s)
  {
    if t.left.Leaf? {
      k := 0;
    } else {
      k := FirstOnEdge(t.left, t.e.node);
      k := k + 1;
    }
  }

  // ----- the same down the right edge

  ghost predicate HasRight(t: Shape, k: nat) {
    t.Bin? && (k > 0 ==> HasRight(t.right, k - 1))
  }

  ghost function RightSub(t: Shape, k: nat): Shape
    requires HasRight(t, k)
    ensures RightSub(t, k).Bin?
  {
    if k == 0 then t else RightSub(t.right, k - 1)
  }

  ghost function RightPred(t: Shape, p: Node?, k: nat): Node?
    requires HasRight(t, k)
  {
    if k == 0 then p else RightPred(t.right, t.e.node, k - 1)
  }

  ghost function RightRestNodes(t: Shape, k: nat): set<Node>
    requires HasRight(t, k)
  {
    if k == 0 then {} else RightRestNodes(t.right, k - 1) + {t.e.node} + Nodes(t.left)
  }

  ghost predicate RightRest(t: Shape, p: Node?, k: nat)
    requires HasRight(t, k)
    reads RightRestNodes(t, k)
  {
    k > 0 ==>
      && Cell(t.e, t.bal, RootOf(t.left), p, RootOf(t.right), null)
      && Rep(t.left, p, t.e.node)
      && RightRest(t.right, t.e.node, k - 1)
  }

  lemma {:induction false} RightSplit(t: Shape, k: nat, p: Node?, s: Node?)
    requires HasRight(t, k)
    ensures Rep(t, p, s) <==> RightRest(t, p, k) && Rep(RightSub(t, k), RightPred(t, p, k), s)
  {
    if k > 0 { RightSplit(t.right, k - 1, t.e.node, s); }
  }

  lemma {:induction false} RightNodes(t: Shape, k: nat)
    requires HasRight(t, k) && Distinct(t)
    ensures Nodes(t) == RightRestNodes(t, k) + Nodes(RightSub(t, k))
    ensures RightRestNodes(t, k) !! Nodes(RightSub(t, k)) && Distinct(RightSub(t, k))
  {
    if k > 0 { RightNodes(t.right, k - 1); }
  }

  lemma {:induction false} LastOnEdge(t: Shape, p: Node?) returns (k: nat)
    requires t.Bin?
    ensures HasRight(t, k) && RightSub(t, k).right.Leaf? && RightSub(t, k).e.node == LastNode(t, p)
  {
    if t.right.Leaf? {
      k := 0;
    } else {
      k := LastOnEdge(t.right, t.e.node);
      k := k + 1;
    }
  }

  // ----- redirecting the outermost threads

  /** `tmp->left = q` for the first node of a tree. */
  method ThreadFirst(tmp: Node, q: Node?, ghost t: Shape, ghost p: Node?, ghost s: Node?, ghost nodes: set<Node>)
    requires t.Bin? && Rep(t, p, s) && Distinct(t) && Nodes(t) <= nodes && tmp == FirstNode(t, s)
    modifies tmp
    ensures Rep(t, q, s)
  {
    ghost var k := FirstOnEdge(t, s);
    ghost var v := LeftSub(t, k);
    ghost var s1 := LeftSucc(t, s, k);
    LeftPutSame(t, k);
    LeftDistinct(t, k);
    LeftNodes(t, k, v);
    LeftSplit(t, k, v, p, s);
    assert Rep(v.right, tmp, s1);
    tmp.left := q;
    assert Rep(v.right, tmp, s1) && Rep(v, q, s1);
    LeftSplit(t, k, v, q, s);
  }

  /** `tmp->right = q` for the last node of a tree. */
  method ThreadLast(tmp: Node, q: Node?, ghost t: Shape, ghost p: Node?, ghost s: Node?, ghost nodes: set<Node>)
    requires t.Bin? && Rep(t, p, s) && Distinct(t) && Nodes(t) <= nodes && tmp == LastNode(t, p)
    modifies tmp
    ensures Rep(t, p, q)
  {
    ghost var k := LastOnEdge(t, p);
    ghost var v := RightSub(t, k);
    ghost var p1 := RightPred(t, p, k);
    RightNodes(t, k);
    RightSplit(t, k, p, s);
    assert Rep(v.left, p1, tmp);
    tmp.right := q;
    assert Rep(v.left, p1, tmp) && Rep(v, p1, q);
    RightSplit(t, k, p, q);
  }

  // ----- taking out the in-order successor of a node with two children

  /** The subtree of the successor's parent once the successor is gone. */
  ghost function WithoutLeft(w: Shape): Shape
    requires w.Bin? && w.left.Bin?
  {
    Bin(w.left.right, w.e, w.bal + 1, w.right)
  }

  /** `r` without its first node, which lies `k` steps down the left edge. */
  ghost function CutFirst(r: Shape, k: nat): Shape
    requires HasLeft(r, k)
  {
    if k == 0 then r.right else LeftStep(r, k); LeftPut(r, k - 1, WithoutLeft(LeftSub(r, k - 1)))
  }

  lemma {:induction false} LeftStep(t: Shape, k: nat)
    requires HasLeft(t, k)
    ensures k > 0 ==> HasLeft(t, k - 1) && LeftSub(t, k - 1).left == LeftSub(t, k)
    ensures LeftSub(t, k).left.Bin? ==> HasLeft(t, k + 1)
  {
    if k > 0 { LeftStep(t.left, k - 1); }
  }

  ghost predicate IsFirst(r: Shape, k: nat) {
    HasLeft(r, k) && LeftSub(r, k).left.Leaf?
  }

  lemma {:induction false} CutNodes(r: Shape, k: nat)
    requires IsFirst(r, k) && Distinct(r)
    ensures Nodes(CutFirst(r, k)) == Nodes(r) - {LeftSub(r, k).e.node} && Distinct(CutFirst(r, k))
    ensures LeftSub(r, k).e.node in Nodes(r)
  {
    LeftDistinct(r, k);
    if k > 0 {
      LeftStep(r, k);
      var w := LeftSub(r, k - 1);
      LeftDistinct(r, k - 1);
      BinNodes(w.left.left, w.left.e, w.left.bal, w.left.right);
      BinNodes(w.left.right, w.e, w.bal + 1, w.right);
      LeftPutSame(r, k - 1);
      LeftNodes(r, k - 1, w);
      LeftNodes(r, k - 1, WithoutLeft(w));
    }
  }

  /** nextp lets go of next, on the node it writes. */
  method Release(next: Node, nextp: Node, ghost w: Shape, ghost p: Node?, ghost s: Node?, ghost nodes: set<Node>)
    requires w.Bin? && w.left.Bin? && w.left.left.Leaf? && Rep(w, p, s) && Distinct(w) && Nodes(w) <= nodes
    requires nextp == w.e.node && next == w.left.e.node && -1 <= w.bal <= 1
    modifies nextp
    ensures Rep(WithoutLeft(w), next, s)
  {
    ghost var g := w.left.right;
    BinNodes(Leaf, w.left.e, w.left.bal, g);
    assert Rep(w.left, p, nextp) && Rep(g, next, nextp) && Rep(w.right, nextp, s);
    if next.rightChild {
      nextp.left := next.right;
    } else {
      nextp.leftChild := false;
    }
    nextp.balance := nextp.balance + 1;
    assert Rep(g, next, nextp) && Rep(w.right, nextp, s);
  }

  method CutNext(next: Node, nextp: Node, ghost r: Shape, ghost k: nat, ghost p: Node?, ghost s: Node?,
                 ghost nodes: set<Node>)
    requires k > 0 && IsFirst(r, k) && Rep(r, p, s) && Distinct(r) && Nodes(r) <= nodes
    requires HasLeft(r, k - 1) && nextp == LeftSub(r, k - 1).e.node && next == LeftSub(r, k).e.node
    requires -1 <= LeftSub(r, k - 1).bal <= 1
    modifies nextp
    ensures Rep(CutFirst(r, k), next, s)
  {
    LeftStep(r, k);
    ghost var w := LeftSub(r, k - 1);
    LeftDistinct(r, k - 1);
    LeftPutSame(r, k - 1);
    LeftNodes(r, k - 1, w);
    LeftSplit(r, k - 1, w, p, s);
    Release(next, nextp, w, p, LeftSucc(r, s, k - 1), nodes);
    LeftSplit(r, k - 1, WithoutLeft(w), next, s);
  }

  /** Where next hangs after it has been taken out: it owns the rest of the right subtree. */
  ghost predicate Holds(next: Node, f: Entry, right: Shape, s: Node?)
    reads next, Nodes(right)
  {
    && f.node == next && next.key == f.key && next.value == f.value
    && next.rightChild == right.Bin? && next.right == (if right.Bin? then right.e.node else s)
    && Rep(right, next, s)
  }

  lemma {:induction false} CutRoot(r: Shape, k: nat)
    requires IsFirst(r, k) && k > 0
    ensures RootOf(CutFirst(r, k)) == RootOf(r)
  {
    LeftStep(r, k);
    if k > 1 { assert RootOf(LeftPut(r, k - 1, WithoutLeft(LeftSub(r, k - 1)))) == r.e.node; }
  }

  /** Takes `next` out of the subtree, when it is not the node's own child. */
  method DetachDeep(node: Node, next: Node, nextp: Node, ghost r: Shape, ghost k: nat, ghost s: Node?,
                    ghost nodes: set<Node>)
    requires IsFirst(r, k) && Rep(r, node, s) && Distinct(r) && Nodes(r) <= nodes && node !in Nodes(r)
    requires next == LeftSub(r, k).e.node && node.right == r.e.node
    requires k > 0 && HasLeft(r, k - 1) && nextp == LeftSub(r, k - 1).e.node && -1 <= LeftSub(r, k - 1).bal <= 1
    modifies next, nextp
    ensures Holds(next, LeftSub(r, k).e, CutFirst(r, k), s)
  {
    LeftStep(r, k);
    CutNodes(r, k);
    CutRoot(r, k);
    NextCell(r, k, node, s);
    ParentInside(r, k);
    CutNext(next, nextp, r, k, node, s, nodes);
    next.rightChild := true;
    next.right := node.right;
    assert Rep(CutFirst(r, k), next, s);
  }

  lemma {:induction false} ParentInside(r: Shape, k: nat)
    requires HasLeft(r, k) && k > 0 && HasLeft(r, k - 1) && Distinct(r)
    ensures LeftSub(r, k - 1).e.node in Nodes(r) && LeftSub(r, k - 1).e.node != LeftSub(r, k).e.node
  {
    LeftStep(r, k);
    LeftDistinct(r, k - 1);
  }

  /** Takes `next` out of the subtree it comes from. */
  method DetachNext(node: Node, next: Node, nextp: Node, ghost r: Shape, ghost k: nat, ghost s: Node?,
                    ghost nodes: set<Node>)
    requires IsFirst(r, k) && Rep(r, node, s) && Distinct(r) && Nodes(r) <= nodes && node !in Nodes(r)
    requires next == LeftSub(r, k).e.node && node.right == r.e.node && -1 <= node.balance <= 1
    requires k == 0 ==> nextp == node
    requires k > 0 ==> HasLeft(r, k - 1) && nextp == LeftSub(r, k - 1).e.node && -1 <= LeftSub(r, k - 1).bal <= 1
    modifies node`balance, Nodes(r)
    ensures node.balance == (if k == 0 then old(node.balance) - 1 else old(node.balance))
    ensures Holds(next, LeftSub(r, k).e, CutFirst(r, k), s)
  {
    if k > 0 { ParentInside(r, k); }
    CutNodes(r, k);
    if nextp != node {
      DetachDeep(node, next, nextp, r, k, s, nodes);
    } else {
      assert Rep(r.right, next, s);
      node.balance := node.balance - 1;
      assert Rep(r.right, next, s);
    }
  }

  lemma {:induction false} NextCell(r: Shape, k: nat, p: Node?, s: Node?)
    requires HasLeft(r, k) && Rep(r, p, s)
    ensures var f := LeftSub(r, k).e; f.node.key == f.key && f.node.value == f.value
  {
    LeftPutSame(r, k);
    LeftSplit(r, k, LeftSub(r, k), p, s);
  }

  /** The thread of the in-order predecessor is turned to `next`. */
  method RedirectPrev(node: Node, next: Node, ghost l: Shape, ghost p: Node?, ghost nodes: set<Node>)
    requires l.Bin? && Rep(l, p, node) && node.left == l.e.node && Distinct(l) && Nodes(l) <= nodes
    modifies Nodes(l)
    ensures Rep(l, p, next)
  {
    var prev := node.left;
    prev := Rightmost(prev, l, p, node);
    LastInside(l, p);
    ThreadLast(prev, next, l, p, node, nodes);
  }

  /** `next` takes over the left subtree and the balance of `node`. */
  method TakePlace(node: Node, next: Node, ghost f: Entry, ghost l: Shape, ghost right: Shape,
                   ghost p: Node?, ghost s: Node?, ghost nodes: set<Node>)
    requires l.Bin? && Rep(l, p, next) && Holds(next, f, right, s) && node.left == l.e.node && node != next
    requires next !in Nodes(l) && next !in Nodes(right) && Nodes(l) <= nodes && Nodes(right) <= nodes
    modifies next
    ensures Rep(Bin(l, f, node.balance, right), p, s)
  {
    next.leftChild := true;
    next.left := node.left;
    next.balance := node.balance;
    assert Rep(l, p, next) && Rep(right, next, s);
  }

  lemma {:induction false} LastInside(t: Shape, p: Node?)
    requires t.Bin?
    ensures LastNode(t, p) in Nodes(t)
  {
    if t.right.Bin? { LastInside(t.right, t.e.node); }
  }

  lemma {:induction false} FirstInside(t: Shape, s: Node?)
    requires t.Bin?
    ensures FirstNode(t, s) in Nodes(t)
  {
    if t.left.Bin? { FirstInside(t.left, t.e.node); }
  }

  // ----- what the removal does to the entries and to the heights

  lemma {:induction false} CutEntries(r: Shape, k: nat)
    requires IsFirst(r, k)
    ensures Entries(r) == [LeftSub(r, k).e] + Entries(CutFirst(r, k))
  {
    if k > 0 {
      LeftStep(r, k);
      CutEntries(r.left, k - 1);
      if k > 1 {
        LeftStep(r.left, k - 1);
        assert CutFirst(r, k) == Bin(CutFirst(r.left, k - 1), r.e, r.bal, r.right);
      }
    }
  }

  /** The node that replaces the one taken out, with its new subtrees. */
  ghost function Successor(t: Shape, k: nat): Shape
    requires t.Bin? && IsFirst(t.right, k)
  {
    Bin(t.left, LeftSub(t.right, k).e, if k == 0 then t.bal - 1 else t.bal, CutFirst(t.right, k))
  }

  lemma {:induction false} SuccessorEntries(t: Shape, k: nat)
    requires t.Bin? && IsFirst(t.right, k)
    ensures Entries(Successor(t, k)) == Entries(t.left) + Entries(t.right)
  {
    CutEntries(t.right, k);
  }

  lemma {:induction false} SuccessorNodes(t: Shape, k: nat)
    requires t.Bin? && IsFirst(t.right, k) && Distinct(t)
    ensures Nodes(Successor(t, k)) == Nodes(t) - {t.e.node} && Distinct(Successor(t, k))
  {
    CutNodes(t.right, k);
    var u := Successor(t, k);
    BinNodes(u.left, u.e, u.bal, u.right);
  }

  /** The successor was the right child itself: the right side is one lower. */
  lemma {:induction false} SuccessorShrunk(c: Context, t: Shape)
    requires t.Bin? && t.right.Bin? && t.right.left.Leaf? && Avl(Plug(c, t))
    ensures Shrunk(c, Successor(t, 0), Height(t))
  {
    PlugAvl(c, t);
    BinAvl(t.left, t.e, t.bal, t.right);
    BinAvl(Leaf, t.right.e, t.right.bal, t.right.right);
    var u := Successor(t, 0);
    BinAvl(u.left, u.e, u.bal, u.right);
  }

  /** The successor lay deeper: what was above it is one lower on its left. */
  lemma {:induction false} ReleasedShrunk(d: Context, w: Shape)
    requires w.Bin? && w.left.Bin? && w.left.left.Leaf? && Avl(Plug(d, w))
    ensures Shrunk(d, WithoutLeft(w), Height(w))
  {
    PlugAvl(d, w);
    BinAvl(w.left, w.e, w.bal, w.right);
    BinAvl(Leaf, w.left.e, w.left.bal, w.left.right);
    var u := WithoutLeft(w);
    BinAvl(u.left, u.e, u.bal, u.right);
  }

  lemma {:induction false} CutShrunk(c: Context, t: Shape, k: nat)
    requires t.Bin? && k > 0 && IsFirst(t.right, k) && HasLeft(t.right, k - 1) && Avl(Plug(c, t))
    ensures var d := LeftCtx(InRight(c, t.left, LeftSub(t.right, k).e, t.bal), t.right, k - 1);
      var w := LeftSub(t.right, k - 1);
      && w.left.Bin? && Shrunk(d, WithoutLeft(w), Height(w))
      && Plug(d, WithoutLeft(w)) == Plug(c, Successor(t, k))
  {
    LeftStep(t.right, k);
    var c0, w := InRight(c, t.left, LeftSub(t.right, k).e, t.bal), LeftSub(t.right, k - 1);
    LeftPutSame(t.right, k - 1);
    LeftPlug(c0, t.right, k - 1, w);
    LeftPlug(c0, t.right, k - 1, WithoutLeft(w));
    var u := t.(e := LeftSub(t.right, k).e);
    PlugAvl(c, t);
    PlugAvl(c, u);
    BinAvl(t.left, t.e, t.bal, t.right);
    BinAvl(u.left, u.e, u.bal, u.right);
    ReleasedShrunk(LeftCtx(c0, t.right, k - 1), w);
  }

  lemma {:induction false} LeftSubAvl(t: Shape, k: nat)
    requires HasLeft(t, k) && Avl(t)
    ensures Avl(LeftSub(t, k))
  {
    if k > 0 { LeftSubAvl(t.left, k - 1); }
  }

  /** The successor takes the place of a node with two children. */
  method ReplaceBySuccessor(node: Node, next: Node, nextp: Node, ghost t: Shape, ghost k: nat,
                            ghost p: Node?, ghost s: Node?, ghost nodes: set<Node>)
    requires t.Bin? && t.left.Bin? && IsFirst(t.right, k) && node == t.e.node && Rep(t, p, s) && Distinct(t)
    requires Nodes(t.left) <= nodes && Nodes(t.right) <= nodes && -1 <= t.bal <= 1
    requires next == LeftSub(t.right, k).e.node && (k == 0 ==> nextp == node)
    requires k > 0 ==> HasLeft(t.right, k - 1) && nextp == LeftSub(t.right, k - 1).e.node
    requires k > 0 ==> -1 <= LeftSub(t.right, k - 1).bal <= 1
    modifies node`balance, Nodes(t.left), Nodes(t.right)
    ensures Rep(Successor(t, k), p, s)
  {
    ghost var f, right := LeftSub(t.right, k).e, CutFirst(t.right, k);
    CutNodes(t.right, k);
    assert Rep(t.left, p, node);
    DetachNext(node, next, nextp, t.right, k, s, nodes);
    assert Rep(t.left, p, node);
    RedirectPrev(node, next, t.left, p, nodes);
    assert Rep(right, next, s);
    TakePlace(node, next, f, t.left, right, p, s, nodes);
  }

  // ----- the descent to the successor

  /** The node `i` steps down the left edge. */
  ghost function EdgeNode(r: Shape, i: nat): Node? {
    if r.Leaf? then null else if i == 0 then r.e.node else EdgeNode(r.left, i - 1)
  }

  lemma {:induction false} EdgeNodeIs(r: Shape, k: nat)
    requires HasLeft(r, k)
    ensures EdgeNode(r, k) == LeftSub(r, k).e.node
  {
    if k > 0 { EdgeNodeIs(r.left, k - 1); }
  }

  lemma {:induction false} EdgePath(c: Context, r: Shape, k: nat, i: nat)
    requires HasLeft(r, k) && i < |Path(c)| + k
    ensures i < |Path(LeftCtx(c, r, k))|
    ensures Path(LeftCtx(c, r, k))[i] == (if i < |Path(c)| then Path(c)[i] else EdgeNode(r, i - |Path(c)|))
    decreases k
  {
    LeftPlug(c, r, k, Leaf);
    if k > 0 {
      var d := InLeft(c, r.e, r.bal, r.right);
      assert Path(d) == Path(c) + [r.e.node];
      EdgePath(d, r.left, k - 1, i);
    }
  }

  lemma {:induction false} EdgeStep(r: Shape, k: nat)
    requires HasLeft(r, k) && LeftSub(r, k).left.Bin?
    ensures HasLeft(r, k + 1) && LeftSub(r, k + 1) == LeftSub(r, k).left && k + 1 < Height(r)
    ensures EdgeNode(r, k) == LeftSub(r, k).e.node
  {
    LeftStep(r, k);
    LeftStep(r, k + 1);
    LeftDepthBound(r, k + 1);
    EdgeNodeIs(r, k);
  }

  /** The descent to the in-order successor and its parent, recorded on the path. */
  method FindSuccessor(node: Node, path: array<Node?>, oldIdx: nat, ghost r: Shape, ghost s: Node?,
                       ghost nodes: set<Node>)
    returns (next: Node, nextp: Node, idx: nat, ghost k: nat)
    requires r.Bin? && Rep(r, node, s) && Nodes(r) <= nodes && node.right == r.e.node
    requires oldIdx + Height(r) <= path.Length
    modifies path
    ensures IsFirst(r, k) && next == LeftSub(r, k).e.node && idx == oldIdx + k < path.Length
    ensures k == 0 ==> nextp == node
    ensures k > 0 ==> HasLeft(r, k - 1) && nextp == LeftSub(r, k - 1).e.node
    ensures forall i :: 0 <= i < path.Length ==>
      path[i] == (if oldIdx < i <= idx then EdgeNode(r, i - oldIdx - 1) else old(path[i]))
  {
    next, nextp, idx, k := node.right, node, oldIdx, 0;
    ghost var t := s;
    LeftDepthBound(r, 0);
    while next.leftChild
      invariant HasLeft(r, k) && next == LeftSub(r, k).e.node && idx == oldIdx + k < path.Length
      invariant Rep(LeftSub(r, k), node, t)
      invariant k == 0 ==> nextp == node
      invariant k > 0 ==> HasLeft(r, k - 1) && nextp == LeftSub(r, k - 1).e.node
      invariant Nodes(LeftSub(r, k)) <= nodes
      invariant forall i :: 0 <= i < path.Length ==>
        path[i] == (if oldIdx < i <= idx then EdgeNode(r, i - oldIdx - 1) else old(path[i]))
      decreases LeftSub(r, k)
    {
      EdgeStep(r, k);
      idx := idx + 1;
      path[idx] := next;
      nextp := next;
      next, t, k := next.left, next, k + 1;
    }
  }
}
