/**
  Arguments that are links themselves.

  REMOVE(FIRST(hp)), SPLICE_BEFORE(FIRST(hp), ..) and the like read the argument again after writing the
  link it names.  The head is no special case: FIRST(hp) is NEXT of the sentinel, and what is said here
  of NEXT(p) and PREV(p) holds for every node `p` of a ring.
  */
module Rereading {
  import opened Links
  import opened Macros
  import opened Wrappers

  // ---------- SPLICE_BEFORE(NEXT(p), ..) and SPLICE_AFTER(PREV(p), ..) ----------

  /**
    On every heap: naming the place by NEXT(p) is as good as naming it by a variable unless NEXT(p) is
    linked back to `p`, so that the third assignment changes what the fourth goes through.
    */
  lemma SpliceBeforeNext(h: Heap, p: Node, ep1: Node, epN: Node)
    requires Has(h, p) && Has(h, h.next[p])
    requires Defined(h, CallSpliceBefore(NextOf(Elem(p)), Elem(ep1), Elem(epN)))
    ensures var m := CallSpliceBefore(NextOf(Elem(p)), Elem(ep1), Elem(epN));
            && Expand(h, m).Some?
            && (Expand(h, m) == Some(Execute(h, m))
                <==> h.prev[h.next[p]] != p || ep1 == h.next[p] || epN == p)
  {
    var lep := NextOf(Elem(p));
    ReadLinks(h, p);
    var n := h.next[p];
    ReadThrough(h, lep, n);
    var q := h.prev[n];
    var h1 := Heap(h.next[epN := n], h.prev);
    ReadLinks(h1, p);
    ReadThrough(h1, lep, n);
    var h2 := Heap(h1.next, h1.prev[ep1 := q]);
    ReadLinks(h2, p);
    ReadThrough(h2, lep, n);
    var q2 := h2.prev[n];
    var h3 := Heap(h2.next[q2 := ep1], h2.prev);
    ReadLinks(h3, p);
    var l := if q2 == p then ep1 else n;
    var h4 := Heap(h3.next, h3.prev[l := epN]);
    Assign4(h, SpliceBeforeText(lep, Elem(ep1), Elem(epN)), h1, h2, h3, h4);
    var b := SpliceBefore(h, n, ep1, epN);
    if q == p && ep1 != n && epN != p {
      assert h4.prev[n] == p && b.prev[n] == epN;
    } else {
      assert h4.next == b.next && h4.prev == b.prev;
    }
  }

  lemma SpliceAfterPrev(h: Heap, p: Node, ep1: Node, epN: Node)
    requires Has(h, p) && Has(h, h.prev[p])
    requires Defined(h, CallSpliceAfter(PrevOf(Elem(p)), Elem(ep1), Elem(epN)))
    ensures var m := CallSpliceAfter(PrevOf(Elem(p)), Elem(ep1), Elem(epN));
            && Expand(h, m).Some?
            && (Expand(h, m) == Some(Execute(h, m))
                <==> h.next[h.prev[p]] != p || epN == h.prev[p] || ep1 == p)
  {
    var lep := PrevOf(Elem(p));
    ReadLinks(h, p);
    var n := h.prev[p];
    ReadThrough(h, lep, n);
    var q := h.next[n];
    var h1 := Heap(h.next, h.prev[ep1 := n]);
    ReadLinks(h1, p);
    ReadThrough(h1, lep, n);
    var h2 := Heap(h1.next[epN := q], h1.prev);
    ReadLinks(h2, p);
    ReadThrough(h2, lep, n);
    var q2 := h2.next[n];
    var h3 := Heap(h2.next, h2.prev[q2 := epN]);
    ReadLinks(h3, p);
    var l := if q2 == p then epN else n;
    var h4 := Heap(h3.next[l := ep1], h3.prev);
    Assign4(h, SpliceAfterText(lep, Elem(ep1), Elem(epN)), h1, h2, h3, h4);
    var b := SpliceAfter(h, n, ep1, epN);
    if q == p && epN != n && ep1 != p {
      assert h4.next[n] == p && b.next[n] == ep1;
    } else {
      assert h4.next == b.next && h4.prev == b.prev;
    }
  }

  /**
    So the warnings above the macros are right for SPLICE_BEFORE(FIRST(hp), ..): for every ring, the
    empty one included, and every chain that is not on it, afterwards no ring goes through `p`.
    */
  lemma SpliceBeforeNextBreaks(h: Heap, p: Node, c: seq<Node>, d: seq<Node>)
    requires IsRing(h, [p] + c) && d != [] && Chain(h, d) && NoDup([p] + c + d)
    ensures var m := CallSpliceBefore(NextOf(Elem(p)), Elem(d[0]), Elem(Last(d)));
            Expand(h, m).Some? && OffRings(Expand(h, m).value, p)
  {
    var lep, ep1, epN := NextOf(Elem(p)), d[0], Last(d);
    RingNeighbours(h, [p] + c, p);
    NoDupSwap([p] + c, d);
    assert p in [p] + c && ep1 in d && epN in d;
    ReadLinks(h, p);
    var n := h.next[p];
    ReadThrough(h, lep, n);
    var h1 := Heap(h.next[epN := n], h.prev);
    ReadLinks(h1, p);
    ReadThrough(h1, lep, n);
    var h2 := Heap(h1.next, h1.prev[ep1 := p]);
    ReadLinks(h2, p);
    ReadThrough(h2, lep, n);
    var h3 := Heap(h2.next[p := ep1], h2.prev);
    ReadLinks(h3, p);
    var h4 := Heap(h3.next, h3.prev[ep1 := epN]);
    Assign4(h, SpliceBeforeText(lep, Elem(ep1), Elem(epN)), h1, h2, h3, h4);
    NoRingThrough(h4, p);
  }

  /** The mirror image: SPLICE_AFTER(LAST(hp), ..). */
  lemma SpliceAfterPrevBreaks(h: Heap, p: Node, c: seq<Node>, d: seq<Node>)
    requires IsRing(h, [p] + c) && d != [] && Chain(h, d) && NoDup([p] + c + d)
    ensures var m := CallSpliceAfter(PrevOf(Elem(p)), Elem(d[0]), Elem(Last(d)));
            Expand(h, m).Some? && OffRings(Expand(h, m).value, p)
  {
    var lep, ep1, epN := PrevOf(Elem(p)), d[0], Last(d);
    RingNeighbours(h, [p] + c, p);
    NoDupSwap([p] + c, d);
    assert p in [p] + c && ep1 in d && epN in d;
    ReadLinks(h, p);
    var n := h.prev[p];
    ReadThrough(h, lep, n);
    var h1 := Heap(h.next, h.prev[ep1 := n]);
    ReadLinks(h1, p);
    ReadThrough(h1, lep, n);
    var h2 := Heap(h1.next[epN := p], h1.prev);
    ReadLinks(h2, p);
    ReadThrough(h2, lep, n);
    var h3 := Heap(h2.next, h2.prev[p := epN]);
    ReadLinks(h3, p);
    var h4 := Heap(h3.next[epN := ep1], h3.prev);
    Assign4(h, SpliceAfterText(lep, Elem(ep1), Elem(epN)), h1, h2, h3, h4);
    NoRingThrough(h4, p);
  }

  /** In the other direction there is no trouble: SPLICE_BEFORE(LAST(hp), ..) and SPLICE_AFTER(FIRST(hp), ..). */
  lemma SplicePastEnds(h: Heap, p: Node, c: seq<Node>, d: seq<Node>)
    requires IsRing(h, [p] + c) && d != [] && Chain(h, d) && NoDup([p] + c + d)
    ensures var m := CallSpliceBefore(PrevOf(Elem(p)), Elem(d[0]), Elem(Last(d)));
            Defined(h, m) && Expand(h, m) == Some(Execute(h, m))
    ensures var m := CallSpliceAfter(NextOf(Elem(p)), Elem(d[0]), Elem(Last(d)));
            Defined(h, m) && Expand(h, m) == Some(Execute(h, m))
  {
    RingNeighbours(h, [p] + c, p);
    RingNeighbours(h, [p] + c, h.prev[p]);
    RingNeighbours(h, [p] + c, h.next[p]);
    NoDupSwap([p] + c, d);
    assert p in [p] + c && d[0] in d && Last(d) in d;
    SpliceBeforePrev(h, p, d[0], Last(d));
    SpliceAfterNext(h, p, d[0], Last(d));
  }

  lemma SpliceBeforePrev(h: Heap, p: Node, ep1: Node, epN: Node)
    requires Has(h, p) && Has(h, ep1) && Has(h, epN) && p !in {ep1, epN}
    requires Linked(h, h.prev[p], p) && Linked(h, h.prev[h.prev[p]], h.prev[p]) && h.prev[p] != ep1
    ensures var m := CallSpliceBefore(PrevOf(Elem(p)), Elem(ep1), Elem(epN));
            Defined(h, m) && Expand(h, m) == Some(Execute(h, m))
  {
    var lep := PrevOf(Elem(p));
    ReadLinks(h, p);
    var n := h.prev[p];
    ReadThrough(h, lep, n);
    var q := h.prev[n];
    var h1 := Heap(h.next[epN := n], h.prev);
    ReadLinks(h1, p);
    ReadThrough(h1, lep, n);
    var h2 := Heap(h1.next, h1.prev[ep1 := q]);
    ReadLinks(h2, p);
    ReadThrough(h2, lep, n);
    var h3 := Heap(h2.next[q := ep1], h2.prev);
    ReadLinks(h3, p);
    var h4 := Heap(h3.next, h3.prev[n := epN]);
    Assign4(h, SpliceBeforeText(lep, Elem(ep1), Elem(epN)), h1, h2, h3, h4);
  }

  lemma SpliceAfterNext(h: Heap, p: Node, ep1: Node, epN: Node)
    requires Has(h, p) && Has(h, ep1) && Has(h, epN) && p !in {ep1, epN}
    requires Linked(h, p, h.next[p]) && Linked(h, h.next[p], h.next[h.next[p]]) && h.next[p] != epN
    ensures var m := CallSpliceAfter(NextOf(Elem(p)), Elem(ep1), Elem(epN));
            Defined(h, m) && Expand(h, m) == Some(Execute(h, m))
  {
    var lep := NextOf(Elem(p));
    ReadLinks(h, p);
    var n := h.next[p];
    ReadThrough(h, lep, n);
    var q := h.next[n];
    var h1 := Heap(h.next, h.prev[ep1 := n]);
    ReadLinks(h1, p);
    ReadThrough(h1, lep, n);
    var h2 := Heap(h1.next[epN := q], h1.prev);
    ReadLinks(h2, p);
    ReadThrough(h2, lep, n);
    var h3 := Heap(h2.next, h2.prev[q := epN]);
    ReadLinks(h3, p);
    var h4 := Heap(h3.next[n := ep1], h3.prev);
    Assign4(h, SpliceAfterText(lep, Elem(ep1), Elem(epN)), h1, h2, h3, h4);
  }

  // ---------- REMOVE(NEXT(p)), REMOVE(PREV(p)), UNSPLICE(NEXT(p), ..) ----------

  /** REMOVE(NEXT(p)): the second assignment goes through the element after the one to be removed. */
  lemma RemoveNextText(h: Heap, p: Node, f: Node, g: Node)
    requires Linked(h, p, f) && Linked(h, f, g) && Has(h, h.next[g])
    ensures var next' := h.next[p := g];
            Expand(h, CallRemove(NextOf(Elem(p)))) == Some(Heap(next', h.prev[next'[g] := f]))
  {
    var e := NextOf(Elem(p));
    var t := UnspliceText(e, e);
    ReadLinks(h, p);
    ReadThrough(h, e, f);
    var h1 := Heap(h.next[p := g], h.prev);
    ReadLinks(h1, p);
    ReadThrough(h1, e, g);
    assert Assign(h, t[0]) == h1;
    Assign2(h, t[0], t[1]);
  }

  /**
    REMOVE(FIRST(hp)) works exactly on the empty ring, where it changes nothing.  On every other ring it
    leaves no ring through `p`, so it removes nothing and the head is unusable.
    */
  lemma RemoveNextBreaks(h: Heap, p: Node, c: seq<Node>)
    requires IsRing(h, [p] + c)
    ensures var g := Expand(h, CallRemove(NextOf(Elem(p))));
            && g.Some?
            && (OffRings(g.value, p) <==> c != [])
            && (c == [] ==> g.value == h)
            && (IsRing(g.value, [p] + (if c == [] then [] else c[1..])) <==> c == [])
  {
    var r := [p] + c;
    RingNeighbours(h, r, p);
    var f := h.next[p];
    RingNeighbours(h, r, f);
    var g := h.next[f];
    RingNeighbours(h, r, g);
    RemoveNextText(h, p, f, g);
    var h' := Expand(h, CallRemove(NextOf(Elem(p)))).value;
    assert p in r;
    if c == [] {
      RingWhole(h, r);
      assert r == [p];
      assert h'.next == h.next && h'.prev == h.prev;
    } else {
      RingStep(h, r, 0);
      NoDupSwap([p], c);
      assert p in [p] && f == c[0] && f in c;
      NoRingThrough(h', p);
      assert p in [p] + c[1..];
    }
  }

  /** REMOVE(LAST(hp)) is REMOVE of the last element. */
  lemma RemovePrev(h: Heap, p: Node, c: seq<Node>)
    requires IsRing(h, [p] + c)
    ensures var m := CallRemove(PrevOf(Elem(p)));
            Defined(h, m) && Expand(h, m) == Some(Execute(h, m))
  {
    var r := [p] + c;
    RingNeighbours(h, r, p);
    var l := h.prev[p];
    RingNeighbours(h, r, l);
    var k := h.prev[l];
    var e := PrevOf(Elem(p));
    var t := UnspliceText(e, e);
    ReadLinks(h, p);
    ReadThrough(h, e, l);
    var h1 := Heap(h.next[k := p], h.prev);
    ReadLinks(h1, p);
    ReadThrough(h1, e, l);
    assert Assign(h, t[0]) == h1;
    Assign2(h, t[0], t[1]);
  }

  /** UNSPLICE(FIRST(hp), epN) fails like REMOVE, whatever segment it is to take out. */
  lemma UnspliceNextBreaks(h: Heap, p: Node, d: seq<Node>, y: seq<Node>)
    requires IsRing(h, [p] + d + y) && d != []
    ensures var g := Expand(h, CallUnsplice(NextOf(Elem(p)), Elem(Last(d))));
            g.Some? && OffRings(g.value, p)
  {
    var r, epN := [p] + d + y, Last(d);
    assert r == [p] + (d + y) && epN == r[|d|] && d[0] == r[1];
    RingStep(h, r, 0);
    RingStep(h, r, |d|);
    var e := NextOf(Elem(p));
    var n := h.next[epN];
    var t := UnspliceText(e, Elem(epN));
    ReadLinks(h, p);
    ReadThrough(h, e, d[0]);
    ReadLinks(h, epN);
    var h1 := Heap(h.next[p := n], h.prev);
    ReadLinks(h1, p);
    ReadThrough(h1, e, n);
    ReadLinks(h1, epN);
    assert epN != p && r[0] == p;
    assert Assign(h, t[0]) == h1;
    assert Assign(h1, t[1]) == Heap(h1.next, h1.prev[n := h1.prev[n]]);
    Assign2(h, t[0], t[1]);
    NoRingThrough(Assign(h1, t[1]), p);
  }

  /** The smallest failing ring: head 100, elements 0 and 10. */
  lemma RemoveFirstExample()
    ensures var h := Heap(map[100 := 0, 0 := 10, 10 := 100], map[100 := 10, 0 := 100, 10 := 0]);
            && IsRing(h, [100, 0, 10])
            && var g := Expand(h, CallRemove(NextOf(Elem(100))));
               g.Some? && g.value.next[100] == 10 && g.value.prev[10] == 0 && g.value.prev[100] == 0
  {
    var h := Heap(map[100 := 0, 0 := 10, 10 := 100], map[100 := 10, 0 := 100, 10 := 0]);
    var r := [100, 0, 10];
    assert LinkedAt(h, r, 0) && LinkedAt(h, r, 1);
    RingWhole(h, r);
    RemoveNextText(h, 100, 0, 10);
  }
}
