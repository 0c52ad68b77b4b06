/**
  The link structure behind a ring, with one pair of links per node.

  A node is an address.  In a ring with a head, one of the nodes is the phantom
  sentinel, which is treated as a node like any other; module `Memory` shows that the
  pointer arithmetic of the macros makes this sound.  A ring is written as a sequence
  of nodes, the sentinel first when there is one; a chain is a stretch of nodes that
  are linked to each other while nothing is said about the links at its two ends.
  */
module Links {

  type Node = int

  datatype Heap = Heap(next: map<Node, Node>, prev: map<Node, Node>)

  predicate Has(h: Heap, e: Node) {
    e in h.next && e in h.prev
  }

  predicate Linked(h: Heap, a: Node, b: Node) {
    Has(h, a) && Has(h, b) && h.next[a] == b && h.prev[b] == a
  }

  // ---------- the macros, as their effect on the links when their arguments are values ----------

  /** INIT of a head and ELEM_INIT of an element: the node is linked to itself. */
  function Init(h: Heap, e: Node): Heap
    requires Has(h, e)
  {
    Heap(h.next[e := e], h.prev[e := e])
  }

  function SpliceBefore(h: Heap, lep: Node, ep1: Node, epN: Node): Heap
    requires Has(h, lep) && Has(h, ep1) && Has(h, epN) && Has(h, h.prev[lep])
  {
    var p := h.prev[lep];
    Heap(h.next[epN := lep][p := ep1], h.prev[ep1 := p][lep := epN])
  }

  function SpliceAfter(h: Heap, lep: Node, ep1: Node, epN: Node): Heap
    requires Has(h, lep) && Has(h, ep1) && Has(h, epN) && Has(h, h.next[lep])
  {
    var n := h.next[lep];
    Heap(h.next[epN := n][lep := ep1], h.prev[ep1 := lep][n := epN])
  }

  function Unsplice(h: Heap, ep1: Node, epN: Node): Heap
    requires Has(h, ep1) && Has(h, epN) && Has(h, h.prev[ep1]) && Has(h, h.next[epN])
  {
    Heap(h.next[h.prev[ep1] := h.next[epN]], h.prev[h.next[epN] := h.prev[ep1]])
  }

  /** What CONCAT and PREPEND follow: both heads and the ends of both rings. */
  predicate Joinable(h: Heap, s1: Node, s2: Node) {
    && Has(h, s1) && Has(h, s2)
    && Has(h, h.next[s1]) && Has(h, h.prev[s1]) && Has(h, h.next[s2]) && Has(h, h.prev[s2])
  }

  /** LAST of the head is not its own sentinel unless FIRST is, too. */
  predicate HeadWhole(h: Heap, s: Node)
    requires Has(h, s)
  {
    h.prev[s] == s ==> h.next[s] == s
  }

  function Concat(h: Heap, s1: Node, s2: Node): Heap
    requires Joinable(h, s1, s2)
  {
    if h.next[s2] == s2 then h
    else Init(SpliceBefore(h, s1, h.next[s2], h.prev[s2]), s2)
  }

  function Prepend(h: Heap, s1: Node, s2: Node): Heap
    requires Joinable(h, s1, s2)
  {
    if h.next[s2] == s2 then h
    else Init(SpliceAfter(h, s1, h.next[s2], h.prev[s2]), s2)
  }

  // ---------- chains and rings ----------

  ghost predicate NoDup(c: seq<Node>) {
    forall i, j :: 0 <= i < j < |c| ==> c[i] != c[j]
  }

  ghost predicate Disjoint(c: seq<Node>, d: seq<Node>) {
    forall e :: e in c ==> e !in d
  }

  ghost predicate LinkedAt(h: Heap, c: seq<Node>, i: nat)
    requires i + 1 < |c|
  {
    Linked(h, c[i], c[i + 1])
  }

  ghost predicate Chain(h: Heap, c: seq<Node>) {
    && (forall e :: e in c ==> Has(h, e))
    && (forall i :: 0 <= i < |c| - 1 ==> LinkedAt(h, c, i))
  }

  ghost predicate IsRing(h: Heap, c: seq<Node>) {
    && c != []
    && NoDup(c)
    && Chain(h, c + [c[0]])
  }

  function Last(c: seq<Node>): Node
    requires c != []
  {
    c[|c| - 1]
  }

  function NodesOf(c: seq<Node>): set<Node> {
    set e | e in c
  }

  function Elements(p: set<seq<Node>>): set<Node> {
    set c, e | c in p && e in c :: e
  }

  /** The links of all nodes outside `touched` are the same in both heaps. */
  ghost predicate SameOutside(h: Heap, h': Heap, touched: set<Node>) {
    && h'.next.Keys == h.next.Keys
    && h'.prev.Keys == h.prev.Keys
    && (forall e :: e in h.next && e !in touched ==> h'.next[e] == h.next[e])
    && (forall e :: e in h.prev && e !in touched ==> h'.prev[e] == h.prev[e])
  }

  /** A chain only depends on the next links before its last node and the prev links after its first. */
  lemma ChainFrame(h: Heap, h': Heap, c: seq<Node>)
    requires Chain(h, c) && NoDup(c)
    requires forall e :: e in c ==> Has(h, e) && Has(h', e) && (e == Last(c) || h'.next[e] == h.next[e])
    requires forall e :: e in c ==> Has(h, e) && Has(h', e) && (e == c[0] || h'.prev[e] == h.prev[e])
    ensures Chain(h', c)
  {
    forall i | 0 <= i < |c| - 1
      ensures LinkedAt(h', c, i)
    {
      assert LinkedAt(h, c, i);
    }
  }

  lemma ChainJoin(h: Heap, a: seq<Node>, b: seq<Node>)
    requires a != [] && b != []
    ensures Chain(h, a + b) <==> Chain(h, a) && Chain(h, b) && Linked(h, Last(a), b[0])
  {
    var ab := a + b;
    if Chain(h, ab) {
      assert forall e :: e in a || e in b ==> e in ab;
      assert LinkedAt(h, ab, |a| - 1);
      forall i | 0 <= i < |a| - 1
        ensures LinkedAt(h, a, i)
      {
        assert LinkedAt(h, ab, i);
      }
      forall i | 0 <= i < |b| - 1
        ensures LinkedAt(h, b, i)
      {
        assert LinkedAt(h, ab, |a| + i);
      }
    }
    if Chain(h, a) && Chain(h, b) && Linked(h, Last(a), b[0]) {
      forall i | 0 <= i < |ab| - 1
        ensures LinkedAt(h, ab, i)
      {
        if i < |a| - 1 {
          assert LinkedAt(h, a, i);
        } else if i >= |a| {
          assert LinkedAt(h, b, i - |a|);
        }
      }
    }
  }

  /** A ring in two parts: two chains, each linked to the front of the other. */
  lemma RingParts(h: Heap, x: seq<Node>, y: seq<Node>)
    requires x != [] && y != []
    ensures IsRing(h, x + y) <==>
            && NoDup(x + y) && Chain(h, x) && Chain(h, y)
            && Linked(h, Last(x), y[0]) && Linked(h, Last(y), x[0])
  {
    var f := [x[0]];
    assert (x + y) + f == x + (y + f);
    ChainJoin(h, x, y + f);
    ChainJoin(h, y, f);
    assert Chain(h, f) <==> Has(h, x[0]);
  }

  lemma RingWhole(h: Heap, c: seq<Node>)
    requires c != []
    ensures IsRing(h, c) <==> NoDup(c) && Chain(h, c) && Linked(h, Last(c), c[0])
  {
    ChainJoin(h, c, [c[0]]);
  }

  lemma NoDupSwap(x: seq<Node>, y: seq<Node>)
    requires NoDup(x + y)
    ensures NoDup(y + x)
    ensures NoDup(x) && NoDup(y) && Disjoint(x, y)
  {
    var xy := x + y;
    assert forall i :: 0 <= i < |x| ==> x[i] == xy[i];
    assert forall i :: 0 <= i < |y| ==> y[i] == xy[|x| + i];
  }

  lemma NoDupJoin(x: seq<Node>, y: seq<Node>)
    requires NoDup(x) && NoDup(y) && Disjoint(x, y)
    ensures NoDup(x + y)
  {
    forall i, j | 0 <= i < j < |x + y|
      ensures (x + y)[i] != (x + y)[j]
    {
      if i < |x| <= j {
        assert x[i] in x && y[j - |x|] in y;
      }
    }
  }

  /** Where a ring starts is a matter of view. */
  lemma Rotate(h: Heap, x: seq<Node>, y: seq<Node>)
    requires IsRing(h, x + y)
    ensures IsRing(h, y + x)
  {
    if x == [] || y == [] {
      assert x + y == y + x;
    } else {
      NoDupSwap(x, y);
      RingParts(h, x, y);
      RingParts(h, y, x);
    }
  }

  lemma RingStep(h: Heap, c: seq<Node>, i: nat)
    requires IsRing(h, c) && i < |c|
    ensures Linked(h, c[i], if i + 1 < |c| then c[i + 1] else c[0])
  {
    assert LinkedAt(h, c + [c[0]], i);
  }

  /** The ring through a node is determined by the links alone. */
  lemma RingUnique(h: Heap, c: seq<Node>, d: seq<Node>)
    requires IsRing(h, c) && IsRing(h, d) && c[0] == d[0]
    ensures c == d
    decreases |c| > |d|
  {
    if |c| > |d| {
      RingUnique(h, d, c);
    } else {
      RingPrefix(h, c, d, |c| - 1);
      forall i | 0 <= i < |c|
        ensures c[i] == d[i]
      {
        RingPrefix(h, c, d, i);
      }
      RingStep(h, c, |c| - 1);
      RingStep(h, d, |c| - 1);
    }
  }

  lemma {:induction false} RingPrefix(h: Heap, c: seq<Node>, d: seq<Node>, i: nat)
    requires IsRing(h, c) && IsRing(h, d) && c[0] == d[0] && i < |c| && i < |d|
    ensures c[i] == d[i]
  {
    if i > 0 {
      RingPrefix(h, c, d, i - 1);
      RingStep(h, c, i - 1);
      RingStep(h, d, i - 1);
    }
  }

  lemma RingFrame(h: Heap, h': Heap, c: seq<Node>, touched: set<Node>)
    requires IsRing(h, c) && SameOutside(h, h', touched)
    requires forall e :: e in c ==> e !in touched
    ensures IsRing(h', c)
  {
    RingWhole(h, c);
    ChainFrame(h, h', c);
    RingWhole(h', c);
  }

  // ---------- splicing ----------

  lemma SpliceAtEnd(h: Heap, a: seq<Node>, c: seq<Node>)
    requires IsRing(h, a) && c != [] && Chain(h, c) && NoDup(a + c)
    ensures Linked(h, Last(a), a[0]) && Has(h, c[0]) && Has(h, Last(c))
    ensures IsRing(SpliceBefore(h, a[0], c[0], Last(c)), a + c)
  {
    RingWhole(h, a);
    var h' := SpliceBefore(h, a[0], c[0], Last(c));
    NoDupSwap(a, c);
    ChainFrame(h, h', a);
    ChainFrame(h, h', c);
    RingParts(h', a, c);
  }

  /**
    SPLICE_BEFORE, given its place as a value, puts a chain that is not on the ring just before any node
    of the ring, the first element and the sentinel of an empty ring included.
    */
  lemma SpliceBeforeRing(h: Heap, x: seq<Node>, y: seq<Node>, c: seq<Node>)
    requires IsRing(h, x + y) && y != [] && c != [] && Chain(h, c) && NoDup(x + y + c)
    ensures Has(h, y[0]) && Has(h, h.prev[y[0]]) && Has(h, c[0]) && Has(h, Last(c))
    ensures IsRing(SpliceBefore(h, y[0], c[0], Last(c)), x + c + y)
    ensures SameOutside(h, SpliceBefore(h, y[0], c[0], Last(c)), {y[0], h.prev[y[0]], c[0], Last(c)})
    ensures h.prev[y[0]] in x + y
  {
    Rotate(h, x, y);
    NoDupSwap(x + y, c);
    NoDupSwap(x, y);
    NoDupJoin(y + x, c);
    SpliceAtEnd(h, y + x, c);
    var h' := SpliceBefore(h, y[0], c[0], Last(c));
    assert (y + x) + c == y + (x + c);
    Rotate(h', y, x + c);
    assert h.prev[y[0]] == Last(y + x);
  }

  /**
    SPLICE_AFTER a node, given as a value, writes the same heap as SPLICE_BEFORE the node that follows it,
    the last element and the sentinel included.
    */
  lemma SpliceAfterRing(h: Heap, x: seq<Node>, y: seq<Node>, c: seq<Node>)
    requires IsRing(h, x + y) && x != [] && c != [] && Chain(h, c) && NoDup(x + y + c)
    ensures Has(h, Last(x)) && Linked(h, Last(x), h.next[Last(x)]) && Has(h, c[0]) && Has(h, Last(c))
    ensures SpliceAfter(h, Last(x), c[0], Last(c)) == SpliceBefore(h, h.next[Last(x)], c[0], Last(c))
    ensures IsRing(SpliceAfter(h, Last(x), c[0], Last(c)), x + c + y)
    ensures SameOutside(h, SpliceAfter(h, Last(x), c[0], Last(c)), {Last(x), h.next[Last(x)], c[0], Last(c)})
    ensures h.next[Last(x)] in x + y
  {
    if y == [] {
      assert x + y == x && x + c + y == x + c;
      RingWhole(h, x);
      SpliceAtEnd(h, x, c);
    } else {
      RingParts(h, x, y);
      SpliceBeforeRing(h, x, y, c);
    }
  }

  /** Two whole rings, with heads or without, are spliced into one in a single step. */
  lemma MergeRings(h: Heap, a: seq<Node>, b: seq<Node>)
    requires IsRing(h, a) && IsRing(h, b) && Disjoint(a, b)
    ensures Linked(h, Last(a), a[0]) && Linked(h, Last(b), b[0])
    ensures IsRing(SpliceBefore(h, a[0], b[0], h.prev[b[0]]), a + b)
  {
    RingWhole(h, a);
    RingWhole(h, b);
    NoDupJoin(a, b);
    SpliceAtEnd(h, a, b);
  }

  /**
    UNSPLICE of a proper segment leaves the ring of the other nodes.  The segment stays a chain
    and its two outer links keep pointing into the ring.
    */
  lemma UnspliceRing(h: Heap, x: seq<Node>, c: seq<Node>, y: seq<Node>)
    requires IsRing(h, x + c + y) && c != [] && x + y != []
    ensures Has(h, c[0]) && Has(h, Last(c)) && Has(h, h.prev[c[0]]) && Has(h, h.next[Last(c)])
    ensures IsRing(Unsplice(h, c[0], Last(c)), x + y)
    ensures Chain(Unsplice(h, c[0], Last(c)), c)
    ensures h.prev[c[0]] == Last(y + x) && h.next[Last(c)] == (y + x)[0]
    ensures SameOutside(h, Unsplice(h, c[0], Last(c)), {Last(y + x), (y + x)[0]})
    ensures NoDup(x + y + c)
  {
    assert x + c + y == x + (c + y);
    Rotate(h, x, c + y);
    var a := y + x;
    assert (c + y) + x == c + a;
    RingParts(h, c, a);
    NoDupSwap(c, a);
    var h' := Unsplice(h, c[0], Last(c));
    ChainFrame(h, h', a);
    ChainFrame(h, h', c);
    RingWhole(h', a);
    Rotate(h', y, x);
    NoDupJoin(x + y, c);
  }

  /** UNSPLICE of a whole ring changes no link at all: it is not a way to take a ring apart. */
  lemma UnspliceWhole(h: Heap, c: seq<Node>)
    requires IsRing(h, c)
    ensures Linked(h, Last(c), c[0])
    ensures Unsplice(h, c[0], Last(c)) == h
  {
    RingWhole(h, c);
  }

  /** On a ring the two links of every node are mutually inverse, and stay on the ring. */
  lemma RingNeighbours(h: Heap, c: seq<Node>, e: Node)
    requires IsRing(h, c) && e in c
    ensures Has(h, e) && h.next[e] in c && h.prev[e] in c
    ensures Linked(h, e, h.next[e]) && Linked(h, h.prev[e], e)
  {
    var i :| 0 <= i < |c| && c[i] == e;
    RingStep(h, c, i);
    RingStep(h, c, if i == 0 then |c| - 1 else i - 1);
  }

  /** A path of links that starts on a ring never leaves it. */
  lemma {:induction false} PathOnRing(h: Heap, c: seq<Node>, q: seq<Node>)
    requires IsRing(h, c) && Chain(h, q) && q != [] && q[0] in c
    ensures Last(q) in c
    decreases |q|
  {
    if |q| > 1 {
      var r := q[..|q| - 1];
      assert q == r + [Last(q)];
      ChainJoin(h, r, [Last(q)]);
      PathOnRing(h, c, r);
      RingNeighbours(h, c, Last(r));
    }
  }

  /** No ring goes through the node. */
  ghost predicate OffRings(h: Heap, e: Node) {
    forall r :: IsRing(h, r) ==> e !in r
  }

  lemma NoRingThrough(h: Heap, e: Node)
    requires Has(h, e) && (!Linked(h, e, h.next[e]) || !Linked(h, h.prev[e], e))
    ensures OffRings(h, e)
  {
    forall r | IsRing(h, r)
      ensures e !in r
    {
      if e in r {
        RingNeighbours(h, r, e);
      }
    }
  }

  /** A chain whose last node is not linked back lies on no ring. */
  lemma ChainOffRings(h: Heap, q: seq<Node>)
    requires q != [] && Chain(h, q) && Has(h, Last(q)) && !Linked(h, Last(q), h.next[Last(q)])
    ensures forall e :: e in q ==> OffRings(h, e)
  {
    forall e, r | e in q && IsRing(h, r)
      ensures e !in r
    {
      if e in r {
        var i :| 0 <= i < |q| && q[i] == e;
        var x, y := q[..i], q[i..];
        assert q == x + y && Last(y) == Last(q);
        if x != [] {
          ChainJoin(h, x, y);
        } else {
          assert y == q;
        }
        PathOnRing(h, r, y);
        RingNeighbours(h, r, Last(q));
      }
    }
  }

  // ---------- a segment spliced into its own ring ----------

  /**
    Why the spliced chain must not be on the target ring.  In front of the node that follows it, or
    in front of its own first node, a segment closes on itself and cuts the rest off all rings.
    */
  lemma SpliceOwnSegment(h: Heap, x: seq<Node>, y: seq<Node>, lep: Node)
    requires IsRing(h, x + y) && x != [] && y != []
    requires lep == x[0] || lep == y[0]
    ensures Has(h, lep) && Has(h, h.prev[lep]) && Has(h, y[0]) && Has(h, Last(y))
    ensures var h' := SpliceBefore(h, lep, y[0], Last(y));
            IsRing(h', y) && forall e :: e in x ==> OffRings(h', e)
  {
    RingParts(h, x, y);
    NoDupSwap(x, y);
    var h' := SpliceBefore(h, lep, y[0], Last(y));
    ChainFrame(h, h', y);
    RingWhole(h', y);
    ChainFrame(h, h', x);
    ChainOffRings(h', x);
  }

  /** In front of a later node of its own, it falls apart into two rings, and the rest is cut off. */
  lemma SpliceIntoSegment(h: Heap, x: seq<Node>, y: seq<Node>, z: seq<Node>)
    requires IsRing(h, x + y + z) && y != [] && z != []
    ensures Has(h, z[0]) && Has(h, h.prev[z[0]]) && Has(h, y[0]) && Has(h, Last(z))
    ensures var h' := SpliceBefore(h, z[0], y[0], Last(z));
            && IsRing(h', y) && IsRing(h', z)
            && forall e :: e in x ==> OffRings(h', e)
  {
    assert x + y + z == x + (y + z);
    Rotate(h, x, y + z);
    assert (y + z) + x == y + (z + x);
    RingParts(h, y, z + x);
    NoDupSwap(y, z + x);
    NoDupSwap(z, x);
    assert forall e :: e in z || e in x ==> e in z + x;
    assert y[0] in y && Last(y) in y && z[0] in z && Last(z) in z;
    var h' := SpliceBefore(h, z[0], y[0], Last(z));
    if x == [] {
      assert z + x == z;
    } else {
      ChainJoin(h, z, x);
    }
    ChainFrame(h, h', y);
    ChainFrame(h, h', z);
    RingWhole(h', y);
    RingWhole(h', z);
    if x != [] {
      ChainFrame(h, h', x);
      ChainOffRings(h', x);
    }
  }

  /** In front of any other node of the ring, the segment does not close, and no node of the ring is on one. */
  lemma SpliceFurtherOn(h: Heap, y: seq<Node>, u: seq<Node>, v: seq<Node>)
    requires IsRing(h, y + u + v) && y != [] && u != [] && v != []
    ensures Has(h, v[0]) && Has(h, h.prev[v[0]]) && Has(h, y[0]) && Has(h, Last(y))
    ensures var h' := SpliceBefore(h, v[0], y[0], Last(y));
            forall e :: e in y + u + v ==> OffRings(h', e)
  {
    assert y + u + v == y + (u + v);
    RingParts(h, y, u + v);
    ChainJoin(h, u, v);
    NoDupSwap(y, u + v);
    NoDupSwap(u, v);
    assert forall e :: e in u || e in v ==> e in u + v;
    RelinkedChain(h, y, u, v);
    var h' := SpliceBefore(h, v[0], y[0], Last(y));
    assert Last(u + y + v) == Last(v) && v[0] in v && Last(v) in v && Last(u) in u && Last(y) in y && y[0] in y;
    ChainOffRings(h', u + y + v);
    assert forall e :: e in y + u + v ==> e in u + y + v;
  }

  lemma RelinkedChain(h: Heap, y: seq<Node>, u: seq<Node>, v: seq<Node>)
    requires y != [] && u != [] && v != [] && Chain(h, y) && Chain(h, u) && Chain(h, v)
    requires NoDup(y) && NoDup(u) && NoDup(v) && Disjoint(y, u) && Disjoint(y, v) && Disjoint(u, v)
    requires Linked(h, Last(u), v[0]) && Has(h, y[0]) && Has(h, Last(y))
    ensures Chain(SpliceBefore(h, v[0], y[0], Last(y)), u + y + v)
  {
    var h' := SpliceBefore(h, v[0], y[0], Last(y));
    assert y[0] in y && Last(y) in y && Last(u) in u && v[0] in v;
    ChainFrame(h, h', y);
    ChainFrame(h, h', u);
    ChainFrame(h, h', v);
    ChainJoin(h', u, y);
    ChainJoin(h', u + y, v);
  }

  // ---------- joining two headed rings ----------

  lemma JoinSetup(h: Heap, s1: Node, c1: seq<Node>, s2: Node, c2: seq<Node>)
    requires IsRing(h, [s1] + c1) && IsRing(h, [s2] + c2) && Disjoint([s1] + c1, [s2] + c2)
    ensures Joinable(h, s1, s2) && HeadWhole(h, s2)
    ensures h.next[s2] == s2 <==> c2 == []
    ensures c2 != [] ==> h.next[s2] == c2[0] && h.prev[s2] == Last(c2) && Chain(h, c2)
    ensures NoDup([s1] + c1 + c2)
  {
    RingNeighbours(h, [s1] + c1, s1);
    RingNeighbours(h, [s2] + c2, s2);
    NoDupSwap([s2], c2);
    NoDupJoin([s1] + c1, c2);
    if c2 == [] {
      RingWhole(h, [s2]);
      assert [s2] + c2 == [s2];
    } else {
      RingParts(h, [s2], c2);
    }
  }

  /** INIT of a head leaves it empty and its elements as they were, a chain nobody points to. */
  lemma InitRing(h: Heap, s: Node, c: seq<Node>)
    requires Has(h, s) && Chain(h, c) && NoDup(c) && s !in c
    ensures IsRing(Init(h, s), [s])
    ensures Chain(Init(h, s), c)
    ensures SameOutside(h, Init(h, s), {s})
  {
    RingWhole(Init(h, s), [s]);
    ChainFrame(h, Init(h, s), c);
  }

  /** CONCAT of two different headed rings, empty ones included. */
  lemma ConcatRings(h: Heap, s1: Node, c1: seq<Node>, s2: Node, c2: seq<Node>)
    requires IsRing(h, [s1] + c1) && IsRing(h, [s2] + c2) && Disjoint([s1] + c1, [s2] + c2)
    ensures Joinable(h, s1, s2) && HeadWhole(h, s2)
    ensures IsRing(Concat(h, s1, s2), [s1] + (c1 + c2)) && IsRing(Concat(h, s1, s2), [s2])
    ensures SameOutside(h, Concat(h, s1, s2), NodesOf([s1] + c1) + NodesOf([s2] + c2))
  {
    JoinSetup(h, s1, c1, s2, c2);
    if c2 == [] {
      assert c1 + c2 == c1 && [s2] + c2 == [s2];
    } else {
      assert [] + ([s1] + c1) == [s1] + c1;
      assert [s1] + c1 + c2 == [s1] + (c1 + c2);
      SpliceAtEnd(h, [s1] + c1, c2);
      var h1 := SpliceBefore(h, s1, c2[0], Last(c2));
      InitRing(h1, s2, []);
      RingNeighbours(h, [s1] + c1, s1);
      NoDupSwap([s2], c2);
      RingFrame(h1, Init(h1, s2), [s1] + (c1 + c2), {s2});
    }
  }

  /** PREPEND of two different headed rings, empty ones included. */
  lemma PrependRings(h: Heap, s1: Node, c1: seq<Node>, s2: Node, c2: seq<Node>)
    requires IsRing(h, [s1] + c1) && IsRing(h, [s2] + c2) && Disjoint([s1] + c1, [s2] + c2)
    ensures Joinable(h, s1, s2) && HeadWhole(h, s2)
    ensures IsRing(Prepend(h, s1, s2), [s1] + (c2 + c1)) && IsRing(Prepend(h, s1, s2), [s2])
    ensures SameOutside(h, Prepend(h, s1, s2), NodesOf([s1] + c1) + NodesOf([s2] + c2))
  {
    JoinSetup(h, s1, c1, s2, c2);
    if c2 == [] {
      assert c2 + c1 == c1 && [s2] + c2 == [s2];
    } else {
      SpliceAfterRing(h, [s1], c1, c2);
      assert [s1] + c2 + c1 == [s1] + (c2 + c1);
      var h1 := SpliceAfter(h, s1, c2[0], Last(c2));
      InitRing(h1, s2, []);
      RingNeighbours(h, [s1] + c1, s1);
      NoDupSwap([s2], c2);
      assert forall e :: e in [s1] + (c2 + c1) ==> e in [s1] + c1 || e in c2;
      RingFrame(h1, Init(h1, s2), [s1] + (c2 + c1), {s2});
    }
  }

  /**
    The two heads must differ: CONCAT of a non-empty ring with itself empties the head
    and leaves its elements on a ring without a head.
    */
  lemma ConcatWithItself(h: Heap, s: Node, c: seq<Node>)
    requires IsRing(h, [s] + c)
    ensures Joinable(h, s, s) && HeadWhole(h, s)
    ensures IsRing(Concat(h, s, s), [s])
    ensures c != [] ==> IsRing(Concat(h, s, s), c)
    ensures IsRing(Concat(h, s, s), [s] + c) <==> c == []
  {
    RingNeighbours(h, [s] + c, s);
    if c == [] {
      assert [s] + c == [s];
      RingWhole(h, [s]);
    } else {
      RingParts(h, [s], c);
      SpliceOwnSegment(h, [s], c, s);
      var h1 := SpliceBefore(h, s, c[0], Last(c));
      NoDupSwap([s], c);
      InitRing(h1, s, []);
      RingFrame(h1, Init(h1, s), c, {s});
      if IsRing(Init(h1, s), [s] + c) {
        RingUnique(Init(h1, s), [s], [s] + c);
      }
    }
  }

  // ---------- the contents of a headed ring ----------

  ghost predicate Headed(h: Heap, s: Node) {
    exists c :: IsRing(h, [s] + c)
  }

  /** The elements of the ring with sentinel `s`, in order. */
  ghost function Contents(h: Heap, s: Node): (c: seq<Node>)
    requires Headed(h, s)
    ensures IsRing(h, [s] + c)
  {
    var c :| IsRing(h, [s] + c); c
  }

  /** The contents are a function of the links, and EMPTY tests whether there are any. */
  lemma ContentsUnique(h: Heap, s: Node, c: seq<Node>)
    requires IsRing(h, [s] + c)
    ensures Headed(h, s) && Contents(h, s) == c
    ensures Has(h, s) && (h.next[s] == s <==> c == [])
  {
    var d := Contents(h, s);
    RingUnique(h, [s] + c, [s] + d);
    assert c == ([s] + c)[1..] && d == ([s] + d)[1..];
    RingNeighbours(h, [s] + c, s);
    if c == [] {
      RingWhole(h, [s]);
      assert [s] + c == [s];
    } else {
      RingParts(h, [s], c);
      NoDupSwap([s], c);
    }
  }
}
