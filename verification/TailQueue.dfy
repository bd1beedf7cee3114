/**
 The tail queues of include/qemu/queue.h.  Elements are linked forwards by
 links to elements and backwards in a circle of links that passes through
 the queue head; the element before a given one is found as `prev->prev->next`.
 */
module TailQueue {
  /**
   QTailQLink.  An element is identified with the link embedded in it, so that
   `tql_next`, which points to an element, and `tql_prev`, which points to a
   link, have the same type.
   */
  class Link {
    var next: Link?
    var prev: Link?

    constructor ()
      ensures next == null && prev == null
    {
      next, prev := null, null;
    }
  }

  ghost predicate Distinct(s: seq<Link>) {
    forall i, j :: 0 <= i < j < |s| ==> s[i] != s[j]
  }

  /** Consecutive links point at each other. */
  ghost predicate Chain(r: seq<Link>)
    reads r
  {
    && (forall i :: 0 <= i < |r| - 1 ==> r[i].next == r[i + 1])
    && (forall i :: 1 <= i < |r| ==> r[i].prev == r[i - 1])
  }

  /** The last link ends the queue, and the back link of the first one leads to it. */
  ghost predicate Closed(r: seq<Link>)
    reads r
  {
    r != [] && r[|r| - 1].next == null && r[0].prev == r[|r| - 1]
  }

  /** The links of `b`, if there are any, end the queue of `head`. */
  ghost predicate Ends(head: Link, b: seq<Link>)
    reads head, b
  {
    b != [] ==> head.prev == b[|b| - 1] && b[|b| - 1].next == null
  }

  lemma {:induction false} ChainJoin(a: seq<Link>, b: seq<Link>)
    requires Chain(a) && Chain(b) && a != [] && b != []
    requires a[|a| - 1].next == b[0] && b[0].prev == a[|a| - 1]
    ensures Chain(a + b)
  {
  }

  lemma {:induction false} ChainSplit(r: seq<Link>, k: nat)
    requires Chain(r) && k <= |r|
    ensures Chain(r[..k]) && Chain(r[k..])
  {
  }

  ghost function Spliced(s: seq<Link>, k: nat, x: Link): seq<Link>
    requires k <= |s|
  {
    s[..k] + [x] + s[k..]
  }

  ghost function Cut(s: seq<Link>, j: nat, k: nat): seq<Link>
    requires j <= k <= |s|
  {
    s[..j] + s[k..]
  }

  lemma {:induction false} SplicedDistinct(s: seq<Link>, k: nat, x: Link)
    requires k <= |s| && Distinct(s) && x !in s
    ensures Distinct(Spliced(s, k, x))
    ensures k > 0 ==> Spliced(s, k, x)[1..] == s[1..][..k - 1] + [x] + s[1..][k - 1..]
  {
  }

  lemma {:induction false} CutDistinct(s: seq<Link>, j: nat, k: nat)
    requires 0 < j <= k <= |s| && Distinct(s)
    ensures Distinct(Cut(s, j, k))
  {
  }

  lemma {:induction false} CutRest(s: seq<Link>, j: nat, k: nat)
    requires j <= k < |s|
    ensures Cut(s, j + 1, k + 1)[1..] == s[1..][..j] + s[1..][k..]
  {
  }

  /** Two disjoint stretches of a queue, each linked in itself. */
  ghost predicate Halves(a: seq<Link>, b: seq<Link>)
    reads a, b
  {
    && a != [] && Chain(a) && Chain(b) && Distinct(a) && Distinct(b)
    && forall i, j :: 0 <= i < |a| && 0 <= j < |b| ==> a[i] != b[j]
  }

  lemma {:induction false} Halve(r: seq<Link>, j: nat, k: nat)
    requires Chain(r) && Distinct(r) && 0 < j <= k <= |r|
    ensures Halves(r[..j], r[k..])
  {
    ChainSplit(r, j);
    ChainSplit(r, k);
  }

  lemma {:induction false} Outside(r: seq<Link>, j: nat, k: nat, i: nat)
    requires Distinct(r) && j <= i < k <= |r|
    ensures r[i] !in r[..j] && r[i] !in r[k..]
  {
  }

  /** The link updates of QTAILQ_INSERT_HEAD. */
  method LinkFirst(head: Link, elm: Link, ghost b: seq<Link>)
    requires Halves([head], b) && Ends(head, b) && elm != head && elm !in b
    requires head.next == if b == [] then null else b[0]
    modifies elm, head, head.next
    ensures Chain([head] + [elm] + b) && Closed([head] + [elm] + b)
  {
    assert [head][0] == head;
    elm.next := head.next;
    if elm.next != null {
      head.next.prev := elm;
    } else {
      head.prev := elm;
    }
    head.next := elm;
    elm.prev := head;
    assert Chain(b);
    ChainJoin([head], [elm]);
    if b != [] {
      ChainJoin([head] + [elm], b);
    } else {
      assert [head] + [elm] + b == [head] + [elm];
    }
  }

  /** The link updates of QTAILQ_INSERT_BEFORE. */
  method LinkBefore(listelm: Link, elm: Link, ghost a: seq<Link>, ghost b: seq<Link>)
    requires Halves(a, b) && Ends(a[0], b) && b != [] && listelm == b[0] && listelm.prev == a[|a| - 1]
    requires elm !in a && elm !in b
    modifies elm, listelm, a[|a| - 1]
    ensures Chain(a + [elm] + b) && Closed(a + [elm] + b)
  {
    elm.prev := listelm.prev;
    elm.next := listelm;
    listelm.prev.next := elm;
    listelm.prev := elm;
    assert Chain(a) && Chain(b);
    ChainJoin(a, [elm]);
    ChainJoin(a + [elm], b);
  }

  /** The link updates of QTAILQ_INSERT_AFTER; `head` is the first link of the queue. */
  method LinkAfter(head: Link, listelm: Link, elm: Link, ghost a: seq<Link>, ghost b: seq<Link>)
    requires Halves(a, b) && Ends(head, b) && head == a[0] && listelm == a[|a| - 1] && listelm != head
    requires elm !in a && elm !in b && listelm.next == if b == [] then null else b[0]
    modifies elm, listelm, head, listelm.next
    ensures Chain(a + [elm] + b) && Closed(a + [elm] + b)
  {
    elm.next := listelm.next;
    if elm.next != null {
      elm.next.prev := elm;
    } else {
      head.prev := elm;
    }
    listelm.next := elm;
    elm.prev := listelm;
    assert Chain(a) && Chain(b);
    ChainJoin(a, [elm]);
    if b != [] {
      ChainJoin(a + [elm], b);
    } else {
      assert a + [elm] + b == a + [elm];
    }
  }

  /** The link updates common to QTAILQ_REMOVE and QTAILQ_REMOVE_SEVERAL. */
  method LinkAcross(head: Link, left: Link, right: Link, ghost a: seq<Link>, ghost b: seq<Link>)
    requires Halves(a, b) && Ends(head, b) && head == a[0] && left.prev == a[|a| - 1]
    requires left !in a && left !in b && right !in a && right !in b
    requires right.next == if b == [] then null else b[0]
    modifies head, left.prev, right.next
    ensures Chain(a + b) && Closed(a + b) && left.prev == a[|a| - 1]
  {
    if right.next != null {
      right.next.prev := left.prev;
    } else {
      head.prev := left.prev;
    }
    left.prev.next := right.next;
    assert Chain(a) && Chain(b);
    if b != [] {
      ChainJoin(a, b);
    } else {
      assert a + b == a;
    }
  }

  ghost function Members(s: seq<Link>): set<Link> { set e | e in s }

  lemma {:induction false} Inserted(s: seq<Link>, k: nat, x: Link)
    requires k <= |s|
    ensures Members(s[..k] + [x] + s[k..]) == Members(s) + {x}
    ensures k == 0 ==> s[..k] + [x] + s[k..] == [x] + s
    ensures k == |s| ==> s[..k] + [x] + s[k..] == s + [x]
  {
    assert s == s[..k] + s[k..];
  }

  lemma {:induction false} Parted(s: seq<Link>, j: nat, k: nat)
    requires j <= k <= |s| && Distinct(s)
    ensures Members(s[..j] + s[k..]) == Members(s) - Members(s[j..k]) && Members(s[j..k]) <= Members(s)
    ensures k == j + 1 ==> Members(s[j..k]) == {s[j]}
  {
    assert s == s[..j] + s[j..k] + s[k..];
    forall e | e in s[j..k] ensures e !in s[..j] + s[k..] {
      var i :| j <= i < k && s[i] == e;
    }
  }

  ghost function Reversed(s: seq<Link>): seq<Link> {
    seq(|s|, i requires 0 <= i < |s| => s[|s| - 1 - i])
  }

  class Queue {
    const head: Link
    /** The head and then the elements, in order. */
    ghost var ring: seq<Link>

    ghost function Elements(): seq<Link>
      requires ring != []
      reads this
    {
      ring[1..]
    }

    ghost predicate Valid()
      reads this, ring
    {
      ring != [] && ring[0] == head && Distinct(ring) && Chain(ring) && Closed(ring)
    }

    /** The two links of the element at place `i` of the ring. */
    lemma Links(i: nat)
      requires Valid() && i < |ring|
      ensures ring[i].next == if i + 1 < |ring| then ring[i + 1] else null
      ensures ring[i].prev == ring[if i == 0 then |ring| - 1 else i - 1]
    {
    }

    /** The ring in two parts, before and from place `m` on. */
    lemma {:induction false} SplitAt(m: nat)
      requires Valid() && 0 < m <= |ring|
      ensures var a, b := ring[..m], ring[m..];
        && Halves(a, b) && Ends(head, b) && a[0] == head && a[|a| - 1] == ring[m - 1]
        && ring[m - 1].next == (if b == [] then null else b[0])
        && (b != [] ==> b[0] == ring[m] && b[0].prev == ring[m - 1])
    {
      Halve(ring, m, m);
      Links(m - 1);
      if m < |ring| { Links(m); }
    }

    /** QTAILQ_INIT */
    constructor ()
      ensures Valid() && Elements() == [] && fresh(head)
    {
      head := new Link();
      new;
      head.next := null;
      head.prev := head;
      ring := [head];
    }

    /** QTAILQ_INSERT_HEAD */
    method InsertHead(elm: Link)
      requires Valid() && elm !in ring
      modifies this, ring, elm
      ensures Valid() && Elements() == [elm] + old(Elements())
    {
      ghost var b, r := ring[1..], Spliced(ring, 1, elm);
      SplitAt(1);
      assert ring[..1] == [head];
      SplicedDistinct(ring, 1, elm);
      assert r == [head] + [elm] + b && r[0] == head && r[1..] == [elm] + b;
      LinkFirst(head, elm, b);
      ring := r;
    }

    /** QTAILQ_INSERT_TAIL */
    method InsertTail(elm: Link)
      requires Valid() && elm !in ring
      modifies this, ring, elm
      ensures Valid() && Elements() == old(Elements()) + [elm]
    {
      ghost var r := ring;
      Links(|ring| - 1);
      elm.next := null;
      elm.prev := head.prev;
      head.prev.next := elm;
      head.prev := elm;
      assert Chain(r);
      ChainJoin(r, [elm]);
      ring := ring + [elm];
    }

    /** QTAILQ_INSERT_AFTER, for the element at place `k` */
    method InsertAfter(listelm: Link, elm: Link, ghost k: nat)
      requires Valid() && elm !in ring && k < |Elements()| && listelm == Elements()[k]
      modifies this, ring, elm
      ensures Valid() && Elements() == old(Elements())[..k + 1] + [elm] + old(Elements())[k + 1..]
    {
      ghost var a, b := ring[..k + 2], ring[k + 2..];
      SplitAt(k + 2);
      SplicedDistinct(ring, k + 2, elm);
      LinkAfter(head, listelm, elm, a, b);
      ring := a + [elm] + b;
    }

    /** QTAILQ_INSERT_BEFORE, for the element at place `k`; it does not need the head */
    method InsertBefore(listelm: Link, elm: Link, ghost k: nat)
      requires Valid() && elm !in ring && k < |Elements()| && listelm == Elements()[k]
      modifies this, ring, elm
      ensures Valid() && Elements() == old(Elements())[..k] + [elm] + old(Elements())[k..]
    {
      ghost var a, b := ring[..k + 1], ring[k + 1..];
      SplitAt(k + 1);
      SplicedDistinct(ring, k + 1, elm);
      LinkBefore(listelm, elm, a, b);
      ring := a + [elm] + b;
    }

    /** What is left and right of the elements from place `j` to place `k`. */
    lemma {:induction false} CutReady(left: Link, right: Link, j: nat, k: nat)
      requires Valid() && j <= k < |Elements()| && left == Elements()[j] && right == Elements()[k]
      ensures var a, b := ring[..j + 1], ring[k + 2..];
        && Halves(a, b) && Ends(head, b) && a[0] == head && left.prev == ring[j] == a[|a| - 1]
        && left !in a && left !in b && right !in a && right !in b
        && right.next == (if b == [] then null else b[0])
        && (right.next != null ==> right.next in ring)
    {
      assert left == ring[j + 1] && right == ring[k + 1];
      Links(j + 1);
      SplitAt(k + 2);
      Halve(ring, j + 1, k + 2);
      Outside(ring, j + 1, k + 2, j + 1);
      Outside(ring, j + 1, k + 2, k + 1);
    }

    /** The elements from place `j` to place `k` are apart from the rest, and all have a back link. */
    lemma {:induction false} CutAway(j: nat, k: nat)
      requires Valid() && j <= k < |Elements()|
      ensures forall e :: e in Elements()[j..k + 1] ==> e in ring && e !in Cut(ring, j + 1, k + 2) && e.prev != null
      ensures forall e :: e in ring ==> e in Elements()[j..k + 1] || e in Cut(ring, j + 1, k + 2)
    {
      forall e | e in Elements()[j..k + 1] ensures e in ring && e !in Cut(ring, j + 1, k + 2) && e.prev != null {
        var i :| j <= i <= k && ring[i + 1] == e;
        Outside(ring, j + 1, k + 2, i + 1);
        Links(i + 1);
      }
      assert ring == ring[..j + 1] + Elements()[j..k + 1] + ring[k + 2..];
    }

    /** The links that are written when the elements from place `j` to place `k` go stay in the queue. */
    lemma {:induction false} CutEnds(left: Link, right: Link, j: nat, k: nat)
      requires Valid() && j <= k < |Elements()| && left == Elements()[j] && right == Elements()[k]
      ensures var r := Cut(ring, j + 1, k + 2);
        && head in r && head in ring && left.prev != null && left.prev in r && left.prev in ring
        && (right.next != null ==> right.next in r && right.next in ring)
    {
      var r := Cut(ring, j + 1, k + 2);
      assert r[0] == head && r[j] == ring[j];
      Links(j + 1);
      Links(k + 1);
      assert k + 2 < |ring| ==> r[j + 1] == ring[k + 2];
    }

    /** QTAILQ_REMOVE, for the element at place `k` */
    method Remove(elm: Link, ghost k: nat)
      requires Valid() && k < |Elements()| && elm == Elements()[k]
      modifies this, ring
      ensures Valid() && Elements() == old(Elements())[..k] + old(Elements())[k + 1..]
      ensures elm.prev == null
    {
      CutEnds(elm, elm, k, k);
      CutAway(k, k);
      assert elm in Elements()[k..k + 1];
      CutRest(ring, k, k + 1);
      Bridge(elm, elm, k, k);
      elm.prev := null;
    }

    /** QTAILQ_REMOVE_SEVERAL, for the elements from place `j` to place `k` */
    method RemoveSeveral(left: Link, right: Link, ghost j: nat, ghost k: nat)
      requires Valid() && j <= k < |Elements()| && left == Elements()[j] && right == Elements()[k]
      modifies this, ring
      ensures Valid() && Elements() == old(Elements())[..j] + old(Elements())[k + 1..]
      // the elements taken out keep their back links
      ensures forall e :: e in old(Elements())[j..k + 1] ==> e !in ring && e.prev == old(e.prev) != null
    {
      CutEnds(left, right, j, k);
      CutAway(j, k);
      CutRest(ring, j, k + 1);
      Bridge(left, right, j, k);
    }

    /** The writes of QTAILQ_REMOVE_SEVERAL. */
    method Bridge(left: Link, right: Link, ghost j: nat, ghost k: nat)
      requires Valid() && j <= k < |Elements()| && left == Elements()[j] && right == Elements()[k] && left.prev != null
      modifies this, head, left.prev, right.next
      ensures Valid() && ring == Cut(old(ring), j + 1, k + 2)
    {
      ghost var a, b, r := ring[..j + 1], ring[k + 2..], Cut(ring, j + 1, k + 2);
      CutReady(left, right, j, k);
      CutDistinct(ring, j + 1, k + 2);
      assert r[0] == head && r == a + b;
      LinkAcross(head, left, right, a, b);
      ring := r;
    }

    /** QTAILQ_LAST */
    method Last() returns (elm: Link?)
      requires Valid()
      ensures elm == if Elements() == [] then null else Elements()[|Elements()| - 1]
    {
      Links(0);
      Links(|ring| - 1);
      if |ring| > 1 { Links(|ring| - 2); }
      elm := head.prev.prev.next;
    }

    /** QTAILQ_PREV */
    method Prev(elm: Link, ghost k: nat) returns (p: Link?)
      requires Valid() && k < |Elements()| && elm == Elements()[k]
      ensures p == if k == 0 then null else Elements()[k - 1]
    {
      assert elm == ring[k + 1];
      Links(k + 1);
      Links(k);
      Links(if k == 0 then |ring| - 1 else k - 1);
      p := elm.prev.prev.next;
    }

    /** QTAILQ_FOREACH */
    method Forward() returns (visited: seq<Link>)
      requires Valid()
      ensures visited == Elements()
    {
      visited := [];
      var elm := head.next;
      while elm != null
        invariant |visited| < |ring| && visited == ring[1..|visited| + 1]
        invariant elm == if |visited| + 1 < |ring| then ring[|visited| + 1] else null
        decreases |ring| - |visited|
      {
        visited := visited + [elm];
        elm := elm.next;
      }
    }

    /** QTAILQ_FOREACH_REVERSE: exactly the forward traversal reversed */
    method Backward() returns (visited: seq<Link>)
      requires Valid()
      ensures visited == Reversed(Elements()) && |visited| == |Elements()|
      ensures forall i :: 0 <= i < |visited| ==> visited[i] == Elements()[|Elements()| - 1 - i]
    {
      visited := [];
      var elm := Last();
      ghost var n := |Elements()|;
      while elm != null
        invariant |visited| <= n
        invariant elm == if |visited| < n then Elements()[n - 1 - |visited|] else null
        invariant forall i :: 0 <= i < |visited| ==> visited[i] == Elements()[n - 1 - i]
        decreases n - |visited|
      {
        var p := Prev(elm, n - 1 - |visited|);
        visited := visited + [elm];
        elm := p;
      }
    }

    /** QTAILQ_IN_USE: no queued element is taken for unused; see `History` for the other direction. */
    method InUse(elm: Link) returns (used: bool)
      requires Valid()
      ensures used <==> elm.prev != null
      ensures elm in Elements() ==> used
    {
      if elm in ring {
        ghost var i :| 0 <= i < |ring| && ring[i] == elm;
        Links(i);
      }
      used := elm.prev != null;
    }
  }

  /** The known elements are queued, or stale with a back link, or neither and without one. */
  ghost predicate Tracked(known: set<Link>, stale: set<Link>, queued: set<Link>)
    reads known
  {
    && stale <= known && queued <= known && stale !! queued
    && forall e :: e in known && e !in queued ==> (e.prev != null <==> e in stale)
  }

  /**
   A queue and what has been done with it.  `known` holds the elements the
   program has set up for the queue, and `stale` those that
   QTAILQ_REMOVE_SEVERAL was the last to take out.
   */
  class History {
    const q: Queue
    ghost var known: set<Link>
    ghost var stale: set<Link>

    /** An element that is not queued has a back link exactly when it is stale. */
    ghost predicate Valid()
      reads this, q, q.ring, known
    {
      q.Valid() && q.head !in known && Tracked(known, stale, Members(q.Elements()))
    }

    /** A known element is in the ring exactly when it is queued. */
    lemma {:induction false} Queued()
      requires Valid()
      ensures forall e :: e in known ==> (e in q.ring <==> e in Members(q.Elements()))
      ensures Distinct(q.Elements())
    {
      assert q.ring == [q.head] + q.Elements();
    }

    constructor ()
      ensures Valid() && q.Elements() == [] && known == {} && stale == {} && fresh(q) && fresh(q.head)
    {
      q := new Queue();
      known, stale := {}, {};
    }

    /** Sets up a new element; its memory is zero. */
    method NewElement() returns (elm: Link)
      requires Valid()
      modifies this
      ensures Valid() && fresh(elm) && known == old(known) + {elm} && stale == old(stale)
    {
      elm := new Link();
      known := known + {elm};
    }

    method InsertHead(elm: Link)
      requires Valid() && elm in known && elm !in q.Elements()
      modifies this, q, q.ring, elm
      ensures Valid() && q.Elements() == [elm] + old(q.Elements())
      ensures known == old(known) && stale == old(stale) - {elm}
    {
      Queued();
      Inserted(q.Elements(), 0, elm);
      q.InsertHead(elm);
      stale := stale - {elm};
    }

    method InsertTail(elm: Link)
      requires Valid() && elm in known && elm !in q.Elements()
      modifies this, q, q.ring, elm
      ensures Valid() && q.Elements() == old(q.Elements()) + [elm]
      ensures known == old(known) && stale == old(stale) - {elm}
    {
      Queued();
      Inserted(q.Elements(), |q.Elements()|, elm);
      q.InsertTail(elm);
      stale := stale - {elm};
    }

    method InsertAfter(listelm: Link, elm: Link, ghost k: nat)
      requires Valid() && elm in known && elm !in q.Elements() && k < |q.Elements()| && listelm == q.Elements()[k]
      modifies this, q, q.ring, elm
      ensures Valid() && q.Elements() == old(q.Elements())[..k + 1] + [elm] + old(q.Elements())[k + 1..]
      ensures known == old(known) && stale == old(stale) - {elm}
    {
      Queued();
      Inserted(q.Elements(), k + 1, elm);
      q.InsertAfter(listelm, elm, k);
      stale := stale - {elm};
    }

    method InsertBefore(listelm: Link, elm: Link, ghost k: nat)
      requires Valid() && elm in known && elm !in q.Elements() && k < |q.Elements()| && listelm == q.Elements()[k]
      modifies this, q, q.ring, elm
      ensures Valid() && q.Elements() == old(q.Elements())[..k] + [elm] + old(q.Elements())[k..]
      ensures known == old(known) && stale == old(stale) - {elm}
    {
      Queued();
      Inserted(q.Elements(), k, elm);
      q.InsertBefore(listelm, elm, k);
      stale := stale - {elm};
    }

    method Remove(elm: Link, ghost k: nat)
      requires Valid() && k < |q.Elements()| && elm == q.Elements()[k]
      modifies this, q, q.ring
      ensures Valid() && q.Elements() == old(q.Elements())[..k] + old(q.Elements())[k + 1..]
      ensures known == old(known) && stale == old(stale)
    {
      Queued();
      Parted(q.Elements(), k, k + 1);
      q.Remove(elm, k);
    }

    method RemoveSeveral(left: Link, right: Link, ghost j: nat, ghost k: nat)
      requires Valid() && j <= k < |q.Elements()| && left == q.Elements()[j] && right == q.Elements()[k]
      modifies this, q, q.ring
      ensures Valid() && q.Elements() == old(q.Elements())[..j] + old(q.Elements())[k + 1..]
      ensures known == old(known) && stale == old(stale) + Members(old(q.Elements())[j..k + 1])
    {
      ghost var out := q.Elements()[j..k + 1];
      Queued();
      Parted(q.Elements(), j, k + 1);
      q.RemoveSeveral(left, right, j, k);
      stale := stale + Members(out);
    }

    /** QTAILQ_IN_USE says used of the queued and of the stale elements, so it is right exactly when none is stale. */
    method InUse(elm: Link) returns (used: bool)
      requires Valid() && elm in known
      ensures used <==> elm in q.Elements() || elm in stale
      ensures (used <==> elm in q.Elements()) <==> elm !in stale
    {
      used := q.InUse(elm);
    }
  }

  /** Every element taken out by QTAILQ_REMOVE_SEVERAL is reported as used, the first, the last and those between. */
  method RemovedLookUsed(h: History, left: Link, right: Link, elm: Link, ghost j: nat, ghost k: nat)
    returns (used: bool)
    requires h.Valid() && j <= k < |h.q.Elements()| && left == h.q.Elements()[j] && right == h.q.Elements()[k]
    requires elm in h.q.Elements()[j..k + 1]
    modifies h, h.q, h.q.ring
    ensures h.Valid() && elm !in h.q.Elements() && used
  {
    h.RemoveSeveral(left, right, j, k);
    used := h.InUse(elm);
  }
}
