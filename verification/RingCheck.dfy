/** The consistency check of rings: a loop over links about which nothing is known beforehand. */
module RingCheck {
  import opened Links
  import opened Macros
  import opened Memory
  import opened Wrappers

  /** How the check ends, and where it found the first broken link. */
  datatype Verdict =
    | Consistent
    | NextPrevBroken(at: Node)
    | PrevNextBroken(at: Node)

  ghost predicate ClosedAt(h: Heap, e: Node) {
    Has(h, e) && Has(h, h.next[e]) && Has(h, h.prev[e])
  }

  /** Every link of the heap leads to a node of the heap. */
  ghost predicate Closed(h: Heap) {
    forall e {:trigger ClosedAt(h, e)} :: e in h.next ==> ClosedAt(h, e)
  }

  /** The variable an argument starts from holds one of the nodes. */
  predicate Rooted(nodes: set<Node>, a: Arg) {
    match a
    case Elem(e) => e in nodes
    case NextOf(b) => Rooted(nodes, b)
    case PrevOf(b) => Rooted(nodes, b)
  }

  predicate AllRooted(nodes: set<Node>, m: Macro) {
    match m
    case CallInit(e) => Rooted(nodes, e)
    case CallSpliceBefore(lep, ep1, epN) => Rooted(nodes, lep) && Rooted(nodes, ep1) && Rooted(nodes, epN)
    case CallSpliceAfter(lep, ep1, epN) => Rooted(nodes, lep) && Rooted(nodes, ep1) && Rooted(nodes, epN)
    case CallUnsplice(ep1, epN) => Rooted(nodes, ep1) && Rooted(nodes, epN)
    case CallConcat(s1, s2) => s1 in nodes && s2 in nodes
    case CallPrepend(s1, s2) => s1 in nodes && s2 in nodes
  }

  lemma {:induction false} RootedDenotes(h: Heap, a: Arg)
    requires Closed(h) && Rooted(h.next.Keys, a)
    ensures Denotes(h, a)
  {
    match a
    case Elem(e) => assert ClosedAt(h, e);
    case NextOf(b) =>
      RootedDenotes(h, b);
      assert ClosedAt(h, Eval(h, b));
    case PrevOf(b) =>
      RootedDenotes(h, b);
      assert ClosedAt(h, Eval(h, b));
  }

  lemma NextClosed(h: Heap, t: Node, v: Node)
    requires Closed(h) && Has(h, t) && Has(h, v)
    ensures Closed(Heap(h.next[t := v], h.prev))
  {
    var g := Heap(h.next[t := v], h.prev);
    forall e | e in g.next
      ensures ClosedAt(g, e)
    {
      assert ClosedAt(h, e);
    }
  }

  lemma PrevClosed(h: Heap, t: Node, v: Node)
    requires Closed(h) && Has(h, t) && Has(h, v)
    ensures Closed(Heap(h.next, h.prev[t := v]))
  {
    var g := Heap(h.next, h.prev[t := v]);
    forall e | e in g.next
      ensures ClosedAt(g, e)
    {
      assert ClosedAt(h, e);
    }
  }

  lemma OneAssigned(h: Heap, s: Assignment)
    requires Closed(h) && Rooted(h.next.Keys, s.target) && Rooted(h.next.Keys, s.value)
    ensures CanAssign(h, s) && Closed(Assign(h, s)) && Assign(h, s).next.Keys == h.next.Keys
  {
    RootedDenotes(h, s.target);
    RootedDenotes(h, s.value);
    var u, v := Eval(h, s.target), Eval(h, s.value);
    if s.NextGets? {
      NextClosed(h, u, v);
      assert Assign(h, s) == Heap(h.next[u := v], h.prev);
    } else {
      PrevClosed(h, u, v);
      assert Assign(h, s) == Heap(h.next, h.prev[u := v]);
    }
  }

  predicate RootedAssignment(nodes: set<Node>, s: Assignment) {
    Rooted(nodes, s.target) && Rooted(nodes, s.value)
  }

  lemma {:induction false} AssignedClosed(h: Heap, t: seq<Assignment>)
    requires Closed(h)
    requires forall s {:trigger RootedAssignment(h.next.Keys, s)} :: s in t ==> RootedAssignment(h.next.Keys, s)
    ensures AssignAll(h, t).Some?
    ensures Closed(AssignAll(h, t).value) && AssignAll(h, t).value.next.Keys == h.next.Keys
    decreases |t|
  {
    if t != [] {
      assert RootedAssignment(h.next.Keys, t[0]);
      OneAssigned(h, t[0]);
      AssignedClosed(Assign(h, t[0]), t[1..]);
    }
  }

  lemma RootedTexts(nodes: set<Node>, a: Arg, b: Arg, c: Arg, s: Assignment)
    requires Rooted(nodes, a) && Rooted(nodes, b) && Rooted(nodes, c)
    ensures s in SpliceBeforeText(a, b, c) + SpliceAfterText(a, b, c) + UnspliceText(b, c) + InitText(a)
            ==> RootedAssignment(nodes, s)
  {
    assert Rooted(nodes, NextOf(a)) && Rooted(nodes, PrevOf(a));
    assert Rooted(nodes, NextOf(c)) && Rooted(nodes, PrevOf(b));
    assert Rooted(nodes, PrevOf(PrevOf(a))) && Rooted(nodes, NextOf(NextOf(a)));
  }

  /**
    On a heap whose links all lead somewhere, no macro call goes wrong, whatever links its arguments
    are read through, and no link leads outside afterwards.
    */
  lemma ClosedKept(h: Heap, m: Macro)
    requires Closed(h) && AllRooted(h.next.Keys, m)
    ensures Expand(h, m).Some?
    ensures Closed(Expand(h, m).value) && Expand(h, m).value.next.Keys == h.next.Keys
  {
    var k := h.next.Keys;
    forall s | s in Text(h, m)
      ensures RootedAssignment(k, s)
    {
      if m.CallConcat? || m.CallPrepend? {
        assert Rooted(k, Elem(m.s1)) && Rooted(k, Elem(m.s2));
        assert Rooted(k, NextOf(Elem(m.s2))) && Rooted(k, PrevOf(Elem(m.s2)));
        RootedTexts(k, Elem(m.s1), NextOf(Elem(m.s2)), PrevOf(Elem(m.s2)), s);
        RootedTexts(k, Elem(m.s2), Elem(m.s2), Elem(m.s2), s);
      } else if m.CallInit? {
        RootedTexts(k, m.e, m.e, m.e, s);
      } else if m.CallUnsplice? {
        RootedTexts(k, m.ep1, m.ep1, m.epN, s);
      } else {
        RootedTexts(k, m.lep, m.ep1, m.epN, s);
      }
    }
    AssignedClosed(h, Text(h, m));
  }

  /** While the links check out, the node reached next is either the start or new. */
  lemma StartOrNew(h: Heap, q: seq<Node>, n: Node)
    requires q != [] && Chain(h, q) && Linked(h, Last(q), n) && NoDup(q) && n != q[0]
    ensures n !in q
  {
    forall i | 0 <= i < |q|
      ensures q[i] != n
    {
      if i > 0 {
        assert LinkedAt(h, q, i - 1);
      }
    }
  }

  lemma NoRingFrom(h: Heap, q: seq<Node>)
    requires q != [] && Chain(h, q) && ClosedAt(h, Last(q))
    requires var e := Last(q); h.prev[h.next[e]] != e || h.next[h.prev[e]] != e
    ensures forall c :: IsRing(h, c) ==> c[0] != q[0]
  {
    forall c | IsRing(h, c)
      ensures c[0] != q[0]
    {
      if c[0] == q[0] {
        PathOnRing(h, c, q);
        RingNeighbours(h, c, Last(q));
      }
    }
  }

  /**
    CHECK_ELEM and CHECK_ELEM_CONSISTENCY run the same loop; the first stops at a broken link, the
    second fails an assertion there.  The loop ends whatever the links are, as long as they lead
    somewhere.  It finds no fault exactly when the start lies on a ring; a fault it reports is the first
    on the way; and the second of the two tests is the one that fails exactly when it does so at the
    start, where the first one holds.
    */
  method CheckElem(mem: Memory, link: int, ep: Node, ghost h: Heap) returns (v: Verdict)
    requires Holds(mem.words, link, h) && Closed(h) && ep in h.next
    ensures v == Consistent <==> exists c :: IsRing(h, c) && c[0] == ep
    ensures v.NextPrevBroken? ==>
            && ClosedAt(h, v.at) && h.prev[h.next[v.at]] != v.at
            && exists q :: Chain(h, q) && q != [] && q[0] == ep && Last(q) == v.at
    ensures v.PrevNextBroken? ==> v.at == ep
    ensures ClosedAt(h, ep) && (v == PrevNextBroken(ep) <==> h.prev[h.next[ep]] == ep && h.next[h.prev[ep]] != ep)
    ensures v == NextPrevBroken(ep) <==> h.prev[h.next[ep]] != ep
  {
    var start := ep;
    var here := start;
    ghost var q := [ep];
    ghost var unseen := h.next.Keys - {ep};
    while true
      invariant q != [] && q[0] == ep && Last(q) == here && here in h.next
      invariant NoDup(q) && Chain(h, q)
      invariant here != ep ==> ClosedAt(h, here) && h.next[h.prev[here]] == here
      invariant here != ep ==> ClosedAt(h, ep) && h.prev[h.next[ep]] == ep && h.next[h.prev[ep]] == ep
      invariant forall e :: e in h.next && e !in q ==> e in unseen
      decreases unseen
    {
      assert ClosedAt(h, here);
      if mem.Prev(link, mem.Next(link, here)) != here {
        NoRingFrom(h, q);
        return NextPrevBroken(here);
      }
      if mem.Next(link, mem.Prev(link, here)) != here {
        NoRingFrom(h, q);
        return PrevNextBroken(here);
      }
      here := mem.Next(link, here);
      if here == start {
        RingWhole(h, q);
        RingNeighbours(h, q, ep);
        return Consistent;
      }
      StartOrNew(h, q, here);
      ChainJoin(h, q, [here]);
      NoDupJoin(q, [here]);
      q := q + [here];
      unseen := unseen - {here};
    }
  }

  /** CHECK and CHECK_CONSISTENCY of a head: the head is consistent exactly when it has well-defined contents. */
  method Check(mem: Memory, link: int, hp: int, ghost h: Heap) returns (v: Verdict)
    requires Holds(mem.words, link, h) && Closed(h) && Sentinel(hp, link) in h.next
    ensures v == Consistent <==> Headed(h, Sentinel(hp, link))
  {
    v := CheckElem(mem, link, Sentinel(hp, link), h);
    if v == Consistent {
      ghost var c :| IsRing(h, c) && c[0] == Sentinel(hp, link);
      assert c == [Sentinel(hp, link)] + c[1..];
    }
  }
}
