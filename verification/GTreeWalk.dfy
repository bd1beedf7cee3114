/**
 In-order neighbours by index, on whole trees and on trees whose first nodes
 have been freed already.
 */
module GTreeWalk {
  import opened GTreeShape
  import opened GTreeHeap

  /** The node at place `i` of a sequence, or NULL past its end. */
  ghost function NodeOr(es: seq<Entry>, i: int, s: Node?): Node? {
    if 0 <= i < |es| then es[i].node else s
  }

  /** The neighbours of the node at place `i`, as children and threads give them. */
  lemma {:induction false} Neighbours(t: Shape, p: Node?, s: Node?, i: nat)
    returns (l: Shape, lp: Node?, r: Shape, rs: Node?)
    requires Rep(t, p, s) && i < |Entries(t)|
    ensures var e := Entries(t)[i];
      && e.node.leftChild == l.Bin? && e.node.left == (if l.Bin? then l.e.node else lp)
      && e.node.rightChild == r.Bin? && e.node.right == (if r.Bin? then r.e.node else rs)
      && Rep(l, lp, e.node) && Rep(r, e.node, rs)
    ensures LastNode(l, lp) == NodeOr(Entries(t), i - 1, p)
    ensures FirstNode(r, rs) == NodeOr(Entries(t), i + 1, s)
  {
    var m := |Entries(t.left)|;
    if i < m {
      l, lp, r, rs := Neighbours(t.left, p, t.e.node, i);
    } else if i > m {
      l, lp, r, rs := Neighbours(t.right, t.e.node, s, i - m - 1);
    } else {
      l, lp, r, rs := t.left, p, t.right, s;
      FirstIsFirst(r, rs);
      LastIsLast(l, lp);
      if r.Bin? { assert Entries(t)[i + 1] == Entries(r)[0]; }
      if l.Bin? { assert Entries(t)[i - 1] == Entries(l)[|Entries(l)| - 1]; }
    }
  }

  // ----- a tree whose first nodes are gone

  /** The nodes from place `i` on. */
  ghost function NodesFrom(t: Shape, i: int): set<Node> {
    if t.Leaf? then {}
    else
      var m := |Entries(t.left)|;
      NodesFrom(t.left, i) + (if i <= m then {t.e.node} else {}) + NodesFrom(t.right, i - m - 1)
  }

  /** The nodes from place `i` on are still as they should be. */
  ghost predicate RepFrom(t: Shape, p: Node?, s: Node?, i: int)
    reads NodesFrom(t, i)
  {
    t.Bin? ==>
      var m := |Entries(t.left)|;
      && (i <= m ==> Cell(t.e, t.bal, RootOf(t.left), p, RootOf(t.right), s))
      && RepFrom(t.left, p, t.e.node, i)
      && RepFrom(t.right, t.e.node, s, i - m - 1)
  }

  lemma {:induction false} AllFrom(t: Shape, p: Node?, s: Node?, i: int)
    requires i <= 0
    ensures NodesFrom(t, i) == Nodes(t)
    ensures RepFrom(t, p, s, i) <==> Rep(t, p, s)
  {
    if t.Bin? {
      AllFrom(t.left, p, t.e.node, i);
      AllFrom(t.right, t.e.node, s, i - |Entries(t.left)| - 1);
    }
  }

  lemma {:induction false} FromInside(t: Shape, i: int)
    ensures NodesFrom(t, i) <= Nodes(t)
  {
    if t.Bin? {
      FromInside(t.left, i);
      FromInside(t.right, i - |Entries(t.left)| - 1);
    }
  }

  lemma {:induction false} EntryAt(t: Shape, i: nat)
    requires i < |Entries(t)|
    ensures var m := |Entries(t.left)|;
      && |Entries(t)| == m + 1 + |Entries(t.right)|
      && Entries(t)[i] == (if i < m then Entries(t.left)[i] else if i == m then t.e else Entries(t.right)[i - m - 1])
  {
  }

  lemma {:induction false} FromIndex(t: Shape, i: int, n: Node) returns (j: nat)
    requires n in NodesFrom(t, i)
    ensures i <= j < |Entries(t)| && Entries(t)[j].node == n
  {
    var m := |Entries(t.left)|;
    if n in NodesFrom(t.left, i) {
      j := FromIndex(t.left, i, n);
    } else if n in NodesFrom(t.right, i - m - 1) {
      j := FromIndex(t.right, i - m - 1, n);
      j := j + m + 1;
      EntryAt(t, j);
    } else {
      j := m;
    }
  }

  /** The node at place `i` is not among the later ones. */
  lemma {:induction false} NotLater(t: Shape, i: nat)
    requires Distinct(t) && i < |Entries(t)|
    ensures Entries(t)[i].node !in NodesFrom(t, i + 1)
  {
    if Entries(t)[i].node in NodesFrom(t, i + 1) {
      var j := FromIndex(t, i + 1, Entries(t)[i].node);
      EntriesDistinct(t, i, j);
    }
  }

  lemma {:induction false} RepFromNext(t: Shape, p: Node?, s: Node?, i: nat)
    requires RepFrom(t, p, s, i)
    ensures RepFrom(t, p, s, i + 1)
  {
    if t.Bin? {
      var m := |Entries(t.left)|;
      RepFromNext(t.left, p, t.e.node, i);
      if i >= m + 1 {
        RepFromNext(t.right, t.e.node, s, i - m - 1);
      } else {
        AllFrom(t.right, t.e.node, s, i - m - 1);
        AllFrom(t.right, t.e.node, s, i - m);
      }
    }
  }

  lemma {:induction false} RepFromStart(t: Shape, i: nat)
    requires RepFrom(t, null, null, 0)
    ensures RepFrom(t, null, null, i)
  {
    if i > 0 {
      RepFromStart(t, i - 1);
      RepFromNext(t, null, null, i - 1);
    }
  }

  lemma {:induction false} FromShrinks(t: Shape, i: int)
    ensures NodesFrom(t, i + 1) <= NodesFrom(t, i)
  {
    if t.Bin? {
      FromShrinks(t.left, i);
      FromShrinks(t.right, i - |Entries(t.left)| - 1);
    }
  }

  lemma {:induction false} NodeFrom(t: Shape, i: nat)
    requires i < |Entries(t)|
    ensures Entries(t)[i].node in NodesFrom(t, i)
  {
    var m := |Entries(t.left)|;
    EntryAt(t, i);
    if i < m {
      NodeFrom(t.left, i);
    } else if i > m {
      NodeFrom(t.right, i - m - 1);
    }
  }

  /** The next node can be found without reading any node before place `i`. */
  lemma {:induction false} NextFrom(t: Shape, p: Node?, s: Node?, i: nat) returns (r: Shape, rs: Node?)
    requires RepFrom(t, p, s, i) && i < |Entries(t)|
    ensures var e := Entries(t)[i];
      && e.node.key == e.key && e.node.value == e.value
      && e.node.rightChild == r.Bin? && e.node.right == (if r.Bin? then r.e.node else rs)
      && Rep(r, e.node, rs)
    ensures FirstNode(r, rs) == NodeOr(Entries(t), i + 1, s)
  {
    var m := |Entries(t.left)|;
    if i < m {
      r, rs := NextFrom(t.left, p, t.e.node, i);
    } else if i > m {
      r, rs := NextFrom(t.right, t.e.node, s, i - m - 1);
    } else {
      r, rs := t.right, s;
      AllFrom(r, t.e.node, s, i - m - 1);
      FirstIsFirst(r, rs);
      if r.Bin? { assert Entries(t)[i + 1] == Entries(r)[0]; }
    }
  }
}
