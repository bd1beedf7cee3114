/**
 The mathematical side of the balanced tree in glib/gtree.c: what a tree of
 nodes looks like when every pointer has been followed.

 A `Shape` records, for each node of the tree, the node object, its key and
 value and the balance factor that is *stored* in it.  Whether the stored
 balance is the true one is a separate predicate (`Exact`), because the C code
 works on trees where it is temporarily wrong.  A `Context` is a shape with a
 hole: it is what the C array `path[]` stands for.
 */
module GTreeShape {
  type gint8 = x: int | -128 <= x <= 127

  /** struct _GTreeNode */
  class Node {
    var key: int
    var value: int
    var left: Node?
    var right: Node?
    var balance: gint8
    var leftChild: bool
    var rightChild: bool

    /** g_tree_node_new */
    constructor (key: int, value: int)
      ensures this.key == key && this.value == value
      ensures left == null && right == null && balance == 0
      ensures !leftChild && !rightChild
    {
      balance := 0;
      left, right := null, null;
      leftChild, rightChild := false, false;
      this.key, this.value := key, value;
    }
  }

  datatype Entry = Entry(node: Node, key: int, value: int)

  datatype Shape = Leaf | Bin(left: Shape, e: Entry, bal: int, right: Shape)

  datatype Context =
    | Top
    | InLeft(up: Context, e: Entry, bal: int, right: Shape)
    | InRight(up: Context, left: Shape, e: Entry, bal: int)

  ghost function Max(a: int, b: int): int { if a < b then b else a }

  ghost function Height(t: Shape): nat {
    if t.Leaf? then 0 else 1 + Max(Height(t.left), Height(t.right))
  }

  ghost function Size(t: Shape): nat {
    if t.Leaf? then 0 else Size(t.left) + 1 + Size(t.right)
  }

  ghost function Nodes(t: Shape): set<Node> {
    if t.Leaf? then {} else Nodes(t.left) + {t.e.node} + Nodes(t.right)
  }

  /** The in-order sequence of the tree. */
  ghost function Entries(t: Shape): seq<Entry> {
    if t.Leaf? then [] else Entries(t.left) + [t.e] + Entries(t.right)
  }

  ghost predicate Distinct(t: Shape) {
    t.Bin? ==>
      && t.e.node !in Nodes(t.left) && t.e.node !in Nodes(t.right)
      && Nodes(t.left) !! Nodes(t.right)
      && Distinct(t.left) && Distinct(t.right)
  }

  /** Every stored balance is the true difference of heights. */
  ghost predicate Exact(t: Shape) {
    t.Bin? ==>
      && t.bal == Height(t.right) - Height(t.left)
      && Exact(t.left) && Exact(t.right)
  }

  ghost predicate Avl(t: Shape) {
    t.Bin? ==>
      && t.bal == Height(t.right) - Height(t.left)
      && -1 <= t.bal <= 1
      && Avl(t.left) && Avl(t.right)
  }

  /** A node whose children are balanced but which may itself be off by two. */
  ghost predicate NearlyAvl(t: Shape) {
    && t.Bin? && Avl(t.left) && Avl(t.right)
    && t.bal == Height(t.right) - Height(t.left) && -2 <= t.bal <= 2
  }

  ghost function RootOf(t: Shape): Node? {
    if t.Leaf? then null else t.e.node
  }

  // ----- shapes with a hole

  ghost function Plug(c: Context, t: Shape): Shape
    decreases c
  {
    match c
    case Top => t
    case InLeft(up, e, b, r) => Plug(up, Bin(t, e, b, r))
    case InRight(up, l, e, b) => Plug(up, Bin(l, e, b, t))
  }

  ghost function CtxNodes(c: Context): set<Node> {
    match c
    case Top => {}
    case InLeft(up, e, _, r) => CtxNodes(up) + {e.node} + Nodes(r)
    case InRight(up, l, e, _) => CtxNodes(up) + {e.node} + Nodes(l)
  }

  ghost predicate CtxDistinct(c: Context) {
    match c
    case Top => true
    case InLeft(up, e, _, r) =>
      CtxDistinct(up) && Distinct(r) && e.node !in CtxNodes(up) && e.node !in Nodes(r) && Nodes(r) !! CtxNodes(up)
    case InRight(up, l, e, _) =>
      CtxDistinct(up) && Distinct(l) && e.node !in CtxNodes(up) && e.node !in Nodes(l) && Nodes(l) !! CtxNodes(up)
  }

  /** What precedes and what follows the hole in the in-order sequence. */
  ghost function Before(c: Context): seq<Entry> {
    match c
    case Top => []
    case InLeft(up, _, _, _) => Before(up)
    case InRight(up, l, e, _) => Before(up) + Entries(l) + [e]
  }

  ghost function After(c: Context): seq<Entry> {
    match c
    case Top => []
    case InLeft(up, e, _, r) => [e] + Entries(r) + After(up)
    case InRight(up, _, _, _) => After(up)
  }

  /** The nodes a thread leaving the hole to the left or right must point at. */
  ghost function Pred(c: Context): Node? {
    match c
    case Top => null
    case InLeft(up, _, _, _) => Pred(up)
    case InRight(_, _, e, _) => e.node
  }

  ghost function Succ(c: Context): Node? {
    match c
    case Top => null
    case InLeft(_, e, _, _) => e.node
    case InRight(up, _, _, _) => Succ(up)
  }

  /** The node just above the hole. */
  ghost function Parent(c: Context): Node? {
    if c.Top? then null else c.e.node
  }

  /** The ancestors of the hole, outermost first, as `path[1..]` stores them. */
  ghost function Path(c: Context): seq<Node?> {
    if c.Top? then [] else Path(c.up) + [c.e.node]
  }

  /** The context is balanced once a tree of height `h` sits in its hole. */
  ghost predicate CtxAvl(c: Context, h: nat) {
    match c
    case Top => true
    case InLeft(up, _, b, r) =>
      Avl(r) && b == Height(r) - h && -1 <= b <= 1 && CtxAvl(up, 1 + Max(h, Height(r)))
    case InRight(up, l, _, b) =>
      Avl(l) && b == h - Height(l) && -1 <= b <= 1 && CtxAvl(up, 1 + Max(h, Height(l)))
  }

  lemma {:induction false} PlugEntries(c: Context, t: Shape)
    ensures Entries(Plug(c, t)) == Before(c) + Entries(t) + After(c)
    decreases c
  {
    match c
    case Top =>
    case InLeft(up, e, b, r) =>
      PlugEntries(up, Bin(t, e, b, r));
      Outward(Before(up), Entries(t), e, Entries(r), After(up));
    case InRight(up, l, e, b) =>
      PlugEntries(up, Bin(l, e, b, t));
      Outward(Before(up), Entries(l), e, Entries(t), After(up));
  }

  lemma {:induction false} Outward(a: seq<Entry>, l: seq<Entry>, e: Entry, r: seq<Entry>, b: seq<Entry>)
    ensures a + (l + [e] + r) + b == a + l + ([e] + r + b)
    ensures a + (l + [e] + r) + b == (a + l + [e]) + r + b
  {
  }

  lemma {:induction false} PlugNodes(c: Context, t: Shape)
    ensures Nodes(Plug(c, t)) == CtxNodes(c) + Nodes(t)
    ensures Distinct(Plug(c, t)) <==> CtxDistinct(c) && Distinct(t) && CtxNodes(c) !! Nodes(t)
    decreases c
  {
    match c
    case Top =>
    case InLeft(up, e, b, r) => PlugNodes(up, Bin(t, e, b, r));
    case InRight(up, l, e, b) => PlugNodes(up, Bin(l, e, b, t));
  }

  lemma {:induction false} BinAvl(l: Shape, e: Entry, b: int, r: Shape)
    ensures var t := Bin(l, e, b, r);
      && Height(t) == 1 + Max(Height(l), Height(r))
      && (Exact(t) <==> b == Height(r) - Height(l) && Exact(l) && Exact(r))
      && (Avl(t) <==> b == Height(r) - Height(l) && -1 <= b <= 1 && Avl(l) && Avl(r))
  {
  }

  lemma {:induction false} BinNodes(l: Shape, e: Entry, b: int, r: Shape)
    ensures var t := Bin(l, e, b, r);
      && Entries(t) == Entries(l) + [e] + Entries(r)
      && Nodes(t) == Nodes(l) + {e.node} + Nodes(r)
      && (Distinct(t) <==> e.node !in Nodes(l) && e.node !in Nodes(r) && Nodes(l) !! Nodes(r)
                           && Distinct(l) && Distinct(r))
  {
  }

  /** One level of a context: the parent in place of the hole. */
  lemma {:induction false} LevelLeft(up: Context, e: Entry, b: int, r: Shape, t: Shape, u: Shape)
    requires u == Bin(t, e, b, r)
    ensures Avl(u) && CtxAvl(up, Height(u)) <==> Avl(t) && CtxAvl(InLeft(up, e, b, r), Height(t))
  {
    BinAvl(t, e, b, r);
    assert CtxAvl(InLeft(up, e, b, r), Height(t)) <==>
           Avl(r) && b == Height(r) - Height(t) && -1 <= b <= 1 && CtxAvl(up, 1 + Max(Height(t), Height(r)));
  }

  lemma {:induction false} LevelRight(up: Context, l: Shape, e: Entry, b: int, t: Shape, u: Shape)
    requires u == Bin(l, e, b, t)
    ensures Avl(u) && CtxAvl(up, Height(u)) <==> Avl(t) && CtxAvl(InRight(up, l, e, b), Height(t))
  {
    BinAvl(l, e, b, t);
    assert CtxAvl(InRight(up, l, e, b), Height(t)) <==>
           Avl(l) && b == Height(t) - Height(l) && -1 <= b <= 1 && CtxAvl(up, 1 + Max(Height(t), Height(l)));
  }

  /** A context is balanced for exactly the trees that make the whole balanced. */
  lemma {:induction false} PlugAvl(c: Context, t: Shape)
    ensures Avl(Plug(c, t)) <==> Avl(t) && CtxAvl(c, Height(t))
    decreases c
  {
    match c
    case Top =>
    case InLeft(up, e, b, r) =>
      LevelLeft(up, e, b, r, t, Bin(t, e, b, r));
      PlugAvl(up, Bin(t, e, b, r));
    case InRight(up, l, e, b) =>
      LevelRight(up, l, e, b, t, Bin(l, e, b, t));
      PlugAvl(up, Bin(l, e, b, t));
  }

  lemma {:induction false} PlugHeight(c: Context, t: Shape)
    ensures |Path(c)| + Height(t) <= Height(Plug(c, t))
    decreases c
  {
    match c
    case Top =>
    case InLeft(up, e, b, r) => PlugHeight(up, Bin(t, e, b, r));
    case InRight(up, l, e, b) => PlugHeight(up, Bin(l, e, b, t));
  }

  lemma {:induction false} SizeIsLength(t: Shape)
    ensures Size(t) == |Entries(t)|
  {
    if t.Bin? {
      SizeIsLength(t.left);
      SizeIsLength(t.right);
    }
  }

  lemma {:induction false} EntryNodes(t: Shape, i: nat)
    requires i < |Entries(t)|
    ensures Entries(t)[i].node in Nodes(t)
  {
    if i < |Entries(t.left)| {
      EntryNodes(t.left, i);
    } else if i > |Entries(t.left)| {
      EntryNodes(t.right, i - |Entries(t.left)| - 1);
    }
  }

  /** No node occurs twice in the in-order sequence. */
  lemma {:induction false} EntriesDistinct(t: Shape, i: nat, j: nat)
    requires Distinct(t) && i < j < |Entries(t)|
    ensures Entries(t)[i].node != Entries(t)[j].node
  {
    var m := |Entries(t.left)|;
    if j < m {
      EntriesDistinct(t.left, i, j);
    } else if i > m {
      EntriesDistinct(t.right, i - m - 1, j - m - 1);
    } else {
      EntryNodes(t, i);
      if i < m { EntryNodes(t.left, i); }
      if j > m { EntryNodes(t.right, j - m - 1); }
    }
  }

  // ----- rotations

  /** g_tree_node_rotate_left on values. */
  ghost function RotateLeft(t: Shape): Shape
    requires t.Bin? && t.right.Bin?
  {
    var a, b := t.bal, t.right.bal;
    var rightBal := if b <= 0 then (if a >= 1 then b - 1 else a + b - 2)
                    else (if a <= b then a - 2 else b - 1);
    var nodeBal := if b <= 0 then a - 1 else a - b - 1;
    Bin(Bin(t.left, t.e, nodeBal, t.right.left), t.right.e, rightBal, t.right.right)
  }

  /** g_tree_node_rotate_right on values. */
  ghost function RotateRight(t: Shape): Shape
    requires t.Bin? && t.left.Bin?
  {
    var a, b := t.bal, t.left.bal;
    var leftBal := if b <= 0 then (if b > a then b + 1 else a + 2)
                   else (if a <= -1 then b + 1 else a + b + 2);
    var nodeBal := if b <= 0 then a - b + 1 else a + 1;
    Bin(t.left.left, t.left.e, leftBal, Bin(t.left.right, t.e, nodeBal, t.right))
  }

  /** g_tree_node_balance on values. */
  ghost function Rebalance(t: Shape): Shape
    requires NearlyAvl(t)
  {
    if t.bal < -1 then
      RotateRight(if t.left.bal > 0 then t.(left := RotateLeft(t.left)) else t)
    else if t.bal > 1 then
      RotateLeft(if t.right.bal < 0 then t.(right := RotateRight(t.right)) else t)
    else t
  }

  /** On trees of any heights, the rewritten balances are the true ones. */
  lemma {:induction false} RotateLeftExact(t: Shape)
    requires t.Bin? && t.right.Bin? && Exact(t)
    ensures Exact(RotateLeft(t))
  {
    var r := RotateLeft(t);
    BinAvl(t.right.left, t.right.e, t.right.bal, t.right.right);
    BinAvl(r.left.left, r.left.e, r.left.bal, r.left.right);
    BinAvl(r.left, r.e, r.bal, r.right);
  }

  lemma {:induction false} RotateRightExact(t: Shape)
    requires t.Bin? && t.left.Bin? && Exact(t)
    ensures Exact(RotateRight(t))
  {
    var r := RotateRight(t);
    BinAvl(t.left.left, t.left.e, t.left.bal, t.left.right);
    BinAvl(r.right.left, r.right.e, r.right.bal, r.right.right);
    BinAvl(r.left, r.e, r.bal, r.right);
  }

  /** The two rotations undo each other, balances included, on any exact tree. */
  lemma {:induction false} RotationsInverse(t: Shape)
    requires t.Bin? && Exact(t)
    ensures t.right.Bin? ==> RotateRight(RotateLeft(t)) == t
    ensures t.left.Bin? ==> RotateLeft(RotateRight(t)) == t
  {
  }

  lemma {:induction false} Regroup(a: seq<Entry>, x: Entry, b: seq<Entry>, y: Entry, c: seq<Entry>)
    ensures a + [x] + (b + [y] + c) == (a + [x] + b) + [y] + c
  {
  }

  /** A rotation keeps the in-order sequence and the nodes. */
  lemma {:induction false} RotateLeftEntries(t: Shape)
    requires t.Bin? && t.right.Bin?
    ensures Entries(RotateLeft(t)) == Entries(t)
    ensures Nodes(RotateLeft(t)) == Nodes(t)
    ensures Distinct(RotateLeft(t)) <==> Distinct(t)
  {
    var r := RotateLeft(t);
    BinNodes(t.left, t.e, t.bal, t.right);
    BinNodes(t.right.left, t.right.e, t.right.bal, t.right.right);
    BinNodes(r.left, r.e, r.bal, r.right);
    BinNodes(r.left.left, r.left.e, r.left.bal, r.left.right);
    Regroup(Entries(t.left), t.e, Entries(t.right.left), t.right.e, Entries(t.right.right));
  }

  lemma {:induction false} RotateRightEntries(t: Shape)
    requires t.Bin? && t.left.Bin?
    ensures Entries(RotateRight(t)) == Entries(t)
    ensures Nodes(RotateRight(t)) == Nodes(t)
    ensures Distinct(RotateRight(t)) <==> Distinct(t)
  {
    var r := RotateRight(t);
    BinNodes(t.left, t.e, t.bal, t.right);
    BinNodes(t.left.left, t.left.e, t.left.bal, t.left.right);
    BinNodes(r.left, r.e, r.bal, r.right);
    BinNodes(r.right.left, r.right.e, r.right.bal, r.right.right);
    Regroup(Entries(t.left.left), t.left.e, Entries(t.left.right), t.e, Entries(t.right));
  }

  lemma {:induction false} SingleRight(t: Shape)
    requires NearlyAvl(t) && t.bal == -2 && t.left.bal <= 0
    ensures var r := Rebalance(t);
      && Avl(r) && r.Bin?
      && if t.left.bal == 0 then r.bal != 0 && Height(r) == Height(t)
         else r.bal == 0 && Height(r) == Height(t) - 1
  {
    var r, u := Rebalance(t), t.left;
    BinAvl(u.left, u.e, u.bal, u.right);
    BinAvl(r.right.left, r.right.e, r.right.bal, r.right.right);
    BinAvl(r.left, r.e, r.bal, r.right);
  }

  lemma {:induction false} DoubleRight(t: Shape)
    requires NearlyAvl(t) && t.bal == -2 && t.left.bal > 0
    ensures var r := Rebalance(t);
      && Avl(r) && r.Bin?
      && r.bal == 0 && Height(r) == Height(t) - 1
  {
    var r, u := Rebalance(t), t.left;
    BinAvl(u.left, u.e, u.bal, u.right);
    BinAvl(u.right.left, u.right.e, u.right.bal, u.right.right);
    BinAvl(r.left.left, r.left.e, r.left.bal, r.left.right);
    BinAvl(r.right.left, r.right.e, r.right.bal, r.right.right);
    BinAvl(r.left, r.e, r.bal, r.right);
  }

  lemma {:induction false} SingleLeft(t: Shape)
    requires NearlyAvl(t) && t.bal == 2 && t.right.bal >= 0
    ensures var r := Rebalance(t);
      && Avl(r) && r.Bin?
      && if t.right.bal == 0 then r.bal != 0 && Height(r) == Height(t)
         else r.bal == 0 && Height(r) == Height(t) - 1
  {
    var r, u := Rebalance(t), t.right;
    BinAvl(u.left, u.e, u.bal, u.right);
    BinAvl(r.left.left, r.left.e, r.left.bal, r.left.right);
    BinAvl(r.left, r.e, r.bal, r.right);
  }

  lemma {:induction false} DoubleLeft(t: Shape)
    requires NearlyAvl(t) && t.bal == 2 && t.right.bal < 0
    ensures var r := Rebalance(t);
      && Avl(r) && r.Bin?
      && r.bal == 0 && Height(r) == Height(t) - 1
  {
    var r, u := Rebalance(t), t.right;
    BinAvl(u.left, u.e, u.bal, u.right);
    BinAvl(u.left.left, u.left.e, u.left.bal, u.left.right);
    BinAvl(r.left.left, r.left.e, r.left.bal, r.left.right);
    BinAvl(r.right.left, r.right.e, r.right.bal, r.right.right);
    BinAvl(r.left, r.e, r.bal, r.right);
  }

  /** One or two rotations repair any node that is off by two. */
  lemma {:induction false} RebalanceAvl(t: Shape)
    requires NearlyAvl(t)
    ensures var r := Rebalance(t);
      && Avl(r) && r.Bin?
      && if -1 <= t.bal <= 1 then r == t
         else if (if t.bal < 0 then t.left.bal else t.right.bal) == 0
         then r.bal != 0 && Height(r) == Height(t)
         else r.bal == 0 && Height(r) == Height(t) - 1
  {
    if t.bal == -2 {
      if t.left.bal > 0 { DoubleRight(t); } else { SingleRight(t); }
    } else if t.bal == 2 {
      if t.right.bal < 0 { DoubleLeft(t); } else { SingleLeft(t); }
    }
  }

  lemma {:induction false} RebalanceEntries(t: Shape)
    requires NearlyAvl(t)
    ensures var r := Rebalance(t);
      Entries(r) == Entries(t) && Nodes(r) == Nodes(t) && (Distinct(r) <==> Distinct(t))
  {
    if t.bal < -1 {
      var u := t;
      if t.left.bal > 0 {
        u := t.(left := RotateLeft(t.left));
        RotateLeftEntries(t.left);
        BinNodes(t.left, t.e, t.bal, t.right);
        BinNodes(u.left, u.e, u.bal, u.right);
      }
      RotateRightEntries(u);
    } else if t.bal > 1 {
      var u := t;
      if t.right.bal < 0 {
        u := t.(right := RotateRight(t.right));
        RotateRightEntries(t.right);
        BinNodes(t.left, t.e, t.bal, t.right);
        BinNodes(u.left, u.e, u.bal, u.right);
      }
      RotateLeftEntries(u);
    }
  }

  // ----- the two upward loops

  /** The tree with the hole filled by `t` and the balance above it changed by `d`. */
  ghost function Close(c: Context, t: Shape, d: int): Shape
    requires !c.Top?
  {
    if c.InLeft? then Bin(t, c.e, c.bal + d, c.right) else Bin(c.left, c.e, c.bal + d, t)
  }

  /**
   The state of the loop after an insertion: `t` filled a hole of height `h`,
   and it is one higher now unless its balance has become zero.
   */
  ghost predicate Grown(c: Context, t: Shape, h: nat) {
    && NearlyAvl(t) && CtxAvl(c, h)
    && Height(t) == (if t.bal == 0 then h else h + 1)
    && (t.bal == -2 ==> t.left.bal != 0) && (t.bal == 2 ==> t.right.bal != 0)
  }

  /**
   The state of the loop after a removal: `t` filled a hole of height `h`, and
   it is one lower now if its balance is zero.
   */
  ghost predicate Shrunk(c: Context, t: Shape, h: nat) {
    && NearlyAvl(t) && CtxAvl(c, h)
    && Height(t) == (if t.bal == 0 then h - 1 else h)
  }

  ghost function HeightAbove(c: Context, h: nat): nat
    requires !c.Top?
  {
    1 + Max(h, Height(if c.InLeft? then c.right else c.left))
  }

  lemma {:induction false} GrownUp(c: Context, u: Shape, h: nat)
    requires !c.Top? && CtxAvl(c, h) && u.Bin? && Avl(u) && u.bal != 0 && Height(u) == h + 1
    ensures Grown(c.up, Close(c, u, if c.InLeft? then -1 else 1), HeightAbove(c, h))
  {
    var v := Close(c, u, if c.InLeft? then -1 else 1);
    BinAvl(v.left, v.e, v.bal, v.right);
  }

  /** The early exit of the insertion loop never leaves an ancestor unbalanced. */
  lemma {:induction false} GrownStep(c: Context, t: Shape, h: nat)
    requires Grown(c, t, h)
    ensures var u := Rebalance(t);
      && Avl(u)
      && (u.bal == 0 || c.Top? ==> Avl(Plug(c, u)))
      && (u.bal != 0 && !c.Top? ==> Grown(c.up, Close(c, u, if c.InLeft? then -1 else 1), HeightAbove(c, h)))
  {
    var u := Rebalance(t);
    RebalanceAvl(t);
    if u.bal == 0 || c.Top? {
      PlugAvl(c, u);
    } else {
      GrownUp(c, u, h);
    }
  }

  lemma {:induction false} ShrunkUp(c: Context, u: Shape, h: nat)
    requires !c.Top? && CtxAvl(c, h) && Avl(u) && Height(u) == h - 1
    ensures Shrunk(c.up, Close(c, u, if c.InLeft? then 1 else -1), HeightAbove(c, h))
  {
    var v := Close(c, u, if c.InLeft? then 1 else -1);
    BinAvl(v.left, v.e, v.bal, v.right);
  }

  /** The early exit of the removal loop never leaves an ancestor unbalanced. */
  lemma {:induction false} ShrunkStep(c: Context, t: Shape, h: nat)
    requires Shrunk(c, t, h)
    ensures var u := Rebalance(t);
      && Avl(u)
      && (u.bal != 0 || c.Top? ==> Avl(Plug(c, u)))
      && (u.bal == 0 && !c.Top? ==> Shrunk(c.up, Close(c, u, if c.InLeft? then 1 else -1), HeightAbove(c, h)))
  {
    var u := Rebalance(t);
    RebalanceAvl(t);
    if u.bal != 0 || c.Top? {
      PlugAvl(c, u);
    } else {
      ShrunkUp(c, u, h);
    }
  }

  // ----- how high a balanced tree can be

  ghost function Fib(n: nat): nat {
    if n < 2 then n else Fib(n - 1) + Fib(n - 2)
  }

  lemma {:induction false} FibMonotone(m: nat, n: nat)
    requires m <= n
    ensures Fib(m) <= Fib(n)
    decreases n
  {
    if m < n { FibMonotone(m, n - 1); }
  }

  /** A balanced tree of h levels holds at least Fib(h + 2) - 1 nodes. */
  lemma {:induction false} AvlSize(t: Shape)
    requires Avl(t)
    ensures Size(t) >= Fib(Height(t) + 2) - 1
  {
    if t.Bin? {
      AvlSize(t.left);
      AvlSize(t.right);
      FibStep(Height(t.left), Height(t.right));
    }
  }

  lemma {:induction false} FibStep(l: nat, r: nat)
    requires -1 <= r - l <= 1
    ensures Fib(Max(l, r) + 3) <= Fib(l + 2) + Fib(r + 2)
  {
    FibMonotone(Max(l, r) + 1, l + 2);
    FibMonotone(Max(l, r) + 1, r + 2);
  }

  lemma {:induction false} SparsestSplits(h: nat)
    requires h >= 2
    ensures Fib(h) >= 1 && Fib(h + 2) - 1 == (Fib(h) - 1) + 1 + (Fib(h + 1) - 1)
  {
    FibMonotone(1, h);
  }

  lemma {:induction false} SparsestBin(l: Shape, e: Entry, r: Shape, h: nat)
    requires h >= 2 && Avl(l) && Avl(r) && Height(l) == h - 2 && Height(r) == h - 1
    ensures var t := Bin(l, e, 1, r); Avl(t) && Height(t) == h && Entries(t) == Entries(l) + [e] + Entries(r)
  {
  }

  /** The bound is reached: any sequence of that many entries is the content of a balanced tree of h levels. */
  lemma {:induction false} Sparsest(h: nat, es: seq<Entry>) returns (t: Shape)
    requires |es| == Fib(h + 2) - 1
    ensures Avl(t) && Height(t) == h && Entries(t) == es
  {
    if h == 0 {
      t := Leaf;
    } else if h == 1 {
      assert Fib(3) == 2;
      t := Bin(Leaf, es[0], 0, Leaf);
    } else {
      SparsestSplits(h);
      var m := Fib(h) - 1;
      var xs, e, ys := es[..m], es[m], es[m + 1..];
      assert es == xs + [e] + ys;
      var l := Sparsest(h - 2, xs);
      var r := Sparsest(h - 1, ys);
      SparsestBin(l, e, r, h);
      t := Bin(l, e, 1, r);
    }
  }

  lemma {:induction false} NodeIndex(t: Shape, n: Node) returns (i: nat)
    requires n in Nodes(t)
    ensures i < |Entries(t)| && Entries(t)[i].node == n
  {
    if n == t.e.node {
      i := |Entries(t.left)|;
    } else if n in Nodes(t.left) {
      i := NodeIndex(t.left, n);
    } else {
      i := NodeIndex(t.right, n);
      i := |Entries(t.left)| + 1 + i;
    }
  }

  ghost predicate OwnNodes(es: seq<Entry>) { forall i, j :: 0 <= i < j < |es| ==> es[i].node != es[j].node }

  lemma {:induction false} OwnParts(xs: seq<Entry>, e: Entry, ys: seq<Entry>)
    requires OwnNodes(xs + [e] + ys)
    ensures OwnNodes(xs) && OwnNodes(ys)
    ensures forall i :: 0 <= i < |xs| ==> xs[i].node != e.node
    ensures forall j :: 0 <= j < |ys| ==> ys[j].node != e.node
    ensures forall i, j :: 0 <= i < |xs| && 0 <= j < |ys| ==> xs[i].node != ys[j].node
  {
    var es := xs + [e] + ys;
    assert forall i :: 0 <= i < |xs| ==> es[i] == xs[i];
    assert es[|xs|] == e;
    forall j | 0 <= j < |ys|
      ensures ys[j].node != e.node && forall i :: 0 <= i < |xs| ==> xs[i].node != ys[j].node
    {
      assert es[|xs| + 1 + j] == ys[j];
    }
    forall i, j | 0 <= i < j < |ys| ensures ys[i].node != ys[j].node {
      assert es[|xs| + 1 + i] == ys[i] && es[|xs| + 1 + j] == ys[j];
    }
  }

  /** Entries with their own nodes make a tree that can lie in memory. */
  lemma {:induction false} DistinctFromEntries(t: Shape)
    requires OwnNodes(Entries(t))
    ensures Distinct(t)
  {
    if t.Bin? {
      OwnParts(Entries(t.left), t.e, Entries(t.right));
      DistinctFromEntries(t.left);
      DistinctFromEntries(t.right);
      forall n | n in Nodes(t.left) ensures n != t.e.node && n !in Nodes(t.right) {
        var i := NodeIndex(t.left, n);
        if n in Nodes(t.right) { var j := NodeIndex(t.right, n); }
      }
      if t.e.node in Nodes(t.right) { var j := NodeIndex(t.right, t.e.node); }
    }
  }

  /** Every tree has a node on its lowest level, with a path of all the other levels above it. */
  lemma {:induction false} Deepest(t: Shape) returns (c: Context, u: Shape)
    requires t.Bin?
    ensures Plug(c, u) == t && u.Bin? && |Path(c)| == Height(t) - 1
  {
    c, u := DeepestFrom(Top, t);
  }

  lemma {:induction false} DeepestFrom(c0: Context, t: Shape) returns (c: Context, u: Shape)
    requires t.Bin?
    ensures Plug(c, u) == Plug(c0, t) && u.Bin? && |Path(c)| == |Path(c0)| + Height(t) - 1
    decreases t
  {
    if Height(t) == 1 {
      c, u := c0, t;
    } else if Height(t.left) > Height(t.right) {
      c, u := DeepestFrom(InLeft(c0, t.e, t.bal, t.right), t.left);
    } else {
      c, u := DeepestFrom(InRight(c0, t.left, t.e, t.bal), t.right);
    }
  }

  const MAX_GTREE_HEIGHT := 40

  /** The largest node count for which 40 path slots are always enough. */
  const PATH_NODE_LIMIT := 433_494_436

  lemma {:induction false} FibAtLimit()
    ensures Fib(MAX_GTREE_HEIGHT + 3) - 1 == PATH_NODE_LIMIT
  {
    assert Fib(10) == 55 && Fib(11) == 89;
    assert Fib(20) == 6765 && Fib(21) == 10946 by {
      assert Fib(12) == 144 && Fib(13) == 233 && Fib(14) == 377 && Fib(15) == 610;
      assert Fib(16) == 987 && Fib(17) == 1597 && Fib(18) == 2584 && Fib(19) == 4181;
    }
    assert Fib(30) == 832040 && Fib(31) == 1346269 by {
      assert Fib(22) == 17711 && Fib(23) == 28657 && Fib(24) == 46368 && Fib(25) == 75025;
      assert Fib(26) == 121393 && Fib(27) == 196418 && Fib(28) == 317811 && Fib(29) == 514229;
    }
    assert Fib(40) == 102334155 && Fib(41) == 165580141 by {
      assert Fib(32) == 2178309 && Fib(33) == 3524578 && Fib(34) == 5702887 && Fib(35) == 9227465;
      assert Fib(36) == 14930352 && Fib(37) == 24157817 && Fib(38) == 39088169 && Fib(39) == 63245986;
    }
    assert Fib(42) == 267914296;
  }

  /**
   The path holds NULL and the ancestors of the node that has been reached.
   Forty slots are enough for this, at every node of every balanced tree of
   fewer than PATH_NODE_LIMIT nodes.
   */
  lemma {:induction false} PathBound(t: Shape)
    requires Avl(t) && Size(t) < PATH_NODE_LIMIT
    ensures Height(t) <= MAX_GTREE_HEIGHT
    ensures forall c, u :: Plug(c, u) == t && u.Bin? ==> |Path(c)| + 1 <= MAX_GTREE_HEIGHT
  {
    FibAtLimit();
    AvlSize(t);
    if Height(t) > MAX_GTREE_HEIGHT { FibMonotone(MAX_GTREE_HEIGHT + 3, Height(t) + 2); }
    forall c, u | Plug(c, u) == t && u.Bin? ensures |Path(c)| + 1 <= MAX_GTREE_HEIGHT {
      PlugHeight(c, u);
    }
  }

  /**
   That is the best node count one can name: any sequence of exactly that many
   entries, each with its own node, is the content of a balanced tree with a
   node at which the path would hold 41 slots.
   */
  lemma {:induction false} PathBoundSharp(es: seq<Entry>) returns (t: Shape, c: Context, u: Shape)
    requires |es| == PATH_NODE_LIMIT && OwnNodes(es)
    ensures Avl(t) && Distinct(t) && Entries(t) == es && Size(t) == PATH_NODE_LIMIT
    ensures Plug(c, u) == t && u.Bin? && |Path(c)| + 1 == MAX_GTREE_HEIGHT + 1
  {
    FibAtLimit();
    t, c, u := SparsestDepth(MAX_GTREE_HEIGHT + 1, es);
  }

  lemma {:induction false} SparsestDepth(h: nat, es: seq<Entry>) returns (t: Shape, c: Context, u: Shape)
    requires h > 0 && |es| == Fib(h + 2) - 1 && OwnNodes(es)
    ensures Avl(t) && Distinct(t) && Entries(t) == es && Size(t) == |es|
    ensures Plug(c, u) == t && u.Bin? && |Path(c)| + 1 == h
  {
    t := Sparsest(h, es);
    DistinctFromEntries(t);
    SizeIsLength(t);
    c, u := Deepest(t);
  }
}
