/** What one macro does, another undoes: removing and putting back, splitting and joining. */
module RoundTrips {
  import opened Links
  import opened Macros
  import opened Rereading
  import opened Wrappers

  // ---------- taking segments out and putting them back ----------

  /** A segment of a ring is named by its ends; an element is a segment from itself to itself. */
  type Segment = (Node, Node)

  function TakeOut(s: Segment): Macro {
    CallUnsplice(Elem(s.0), Elem(s.1))
  }

  /** SPLICE_BEFORE(NEXT(epN), ep1, epN): the place is read from the segment's own stale link. */
  function PutBack(s: Segment): Macro {
    CallSpliceBefore(NextOf(Elem(s.1)), Elem(s.0), Elem(s.1))
  }

  function Removals(segments: seq<Segment>): seq<Macro> {
    if segments == [] then []
    else [TakeOut(segments[0])] + Removals(segments[1..])
  }

  /** The calls that put the segments back, the one removed last first. */
  function PutBacks(segments: seq<Segment>): seq<Macro> {
    if segments == [] then []
    else PutBacks(segments[1..]) + [PutBack(segments[0])]
  }

  lemma {:induction false} InOrder(segments: seq<Segment>)
    ensures |Removals(segments)| == |PutBacks(segments)| == |segments|
    ensures forall i :: 0 <= i < |segments| ==>
            && Removals(segments)[i] == TakeOut(segments[i])
            && PutBacks(segments)[i] == PutBack(segments[|segments| - 1 - i])
  {
    if segments != [] {
      InOrder(segments[1..]);
    }
  }

  /** All a segment needs is that the two nodes around it point to it. */
  ghost predicate Enclosed(h: Heap, s: Segment) {
    Has(h, s.0) && Has(h, s.1) && Linked(h, h.prev[s.0], s.0) && Linked(h, s.1, h.next[s.1])
  }

  /**
    UNSPLICE of a segment and SPLICE_BEFORE the node its last link still names restores every link.
    That the place is given as NEXT(epN) and read again does no harm, since the first assignment
    of the macro writes the value that link already has.
    */
  lemma UnspliceUndo(h: Heap, s: Segment)
    requires Enclosed(h, s)
    ensures Expand(h, TakeOut(s)) == Some(Unsplice(h, s.0, s.1))
    ensures Expand(Unsplice(h, s.0, s.1), PutBack(s)) == Some(h)
  {
    UnspliceByValue(h, s.0, s.1);
    var h', n := Unsplice(h, s.0, s.1), h.next[s.1];
    assert h'.next[s.1] == n;
    ReadLinks(h', s.1);
    ReadThrough(h', NextOf(Elem(s.1)), n);
    SpliceBeforeNext(h', s.1, s.0, s.1);
    var g := SpliceBefore(h', n, s.0, s.1);
    assert g.next == h.next && g.prev == h.prev;
  }

  /** Each segment is enclosed at the moment it is removed. */
  ghost predicate Removable(h: Heap, segments: seq<Segment>)
    decreases |segments|
  {
    segments == [] ||
    (Enclosed(h, segments[0]) && Removable(Unsplice(h, segments[0].0, segments[0].1), segments[1..]))
  }

  /** Segments removed one after the other and put back in reverse order: every link is as it was. */
  lemma {:induction false} UndoRun(h: Heap, segments: seq<Segment>)
    requires Removable(h, segments)
    ensures Run(h, Removals(segments) + PutBacks(segments)) == Some(h)
    decreases |segments|
  {
    if segments != [] {
      var s, rest := segments[0], segments[1..];
      UnspliceUndo(h, s);
      var h' := Unsplice(h, s.0, s.1);
      UndoRun(h', rest);
      var inner := Removals(rest) + PutBacks(rest);
      assert Removals(segments) + PutBacks(segments) == [TakeOut(s)] + (inner + [PutBack(s)]);
      RunAppend(h, [TakeOut(s)], inner + [PutBack(s)]);
      RunAppend(h', inner, [PutBack(s)]);
      RunOne(h, TakeOut(s));
      RunOne(h', PutBack(s));
    }
  }

  // ---------- removing elements of rings ----------

  ghost predicate MutualAt(h: Heap, d: set<Node>, e: Node) {
    && Has(h, e) && h.next[e] in d && h.prev[e] in d
    && Linked(h, e, h.next[e]) && Linked(h, h.prev[e], e)
  }

  /** Every node of `d` is linked both ways, to nodes of `d`. */
  ghost predicate Mutual(h: Heap, d: set<Node>) {
    forall e {:trigger MutualAt(h, d, e)} :: e in d ==> MutualAt(h, d, e)
  }

  lemma RingsAreMutual(h: Heap, rings: set<seq<Node>>)
    requires forall c :: c in rings ==> IsRing(h, c)
    ensures Mutual(h, Elements(rings))
  {
    forall e | e in Elements(rings)
      ensures MutualAt(h, Elements(rings), e)
    {
      var c :| c in rings && e in c;
      RingNeighbours(h, c, e);
    }
  }

  function Singles(xs: seq<Node>): seq<Segment> {
    if xs == [] then [] else [(xs[0], xs[0])] + Singles(xs[1..])
  }

  lemma RemoveOne(h: Heap, d: set<Node>, e: Node)
    requires Mutual(h, d) && e in d
    ensures Enclosed(h, (e, e))
    ensures Mutual(Unsplice(h, e, e), d - {e})
  {
    assert MutualAt(h, d, e);
    var h' := Unsplice(h, e, e);
    forall f | f in d - {e}
      ensures MutualAt(h', d - {e}, f)
    {
      assert MutualAt(h, d, f);
    }
  }

  lemma {:induction false} SinglesRemovable(h: Heap, d: set<Node>, xs: seq<Node>)
    requires Mutual(h, d) && NoDup(xs) && forall x :: x in xs ==> x in d
    ensures Removable(h, Singles(xs))
    decreases |xs|
  {
    if xs != [] {
      RemoveOne(h, d, xs[0]);
      SinglesRemovable(Unsplice(h, xs[0], xs[0]), d - {xs[0]}, xs[1..]);
    }
  }

  /**
    In particular any distinct elements of any number of rings, removed in any order: however they
    were linked to each other, reinsertion through their own stale links restores everything.
    */
  lemma UndoElements(h: Heap, rings: set<seq<Node>>, xs: seq<Node>)
    requires forall c :: c in rings ==> IsRing(h, c)
    requires NoDup(xs) && forall x :: x in xs ==> x in Elements(rings)
    ensures Run(h, Removals(Singles(xs)) + PutBacks(Singles(xs))) == Some(h)
  {
    RingsAreMutual(h, rings);
    SinglesRemovable(h, Elements(rings), xs);
    UndoRun(h, Singles(xs));
  }

  // ---------- the rings while elements are out ----------

  /** `c` without the elements of `xs`. */
  function Remaining(c: seq<Node>, xs: seq<Node>): seq<Node> {
    if c == [] then []
    else (if c[0] in xs then [] else [c[0]]) + Remaining(c[1..], xs)
  }

  lemma {:induction false} RemainingJoin(a: seq<Node>, b: seq<Node>, xs: seq<Node>)
    ensures Remaining(a + b, xs) == Remaining(a, xs) + Remaining(b, xs)
  {
    if a == [] {
      assert a + b == b;
    } else {
      assert (a + b)[1..] == a[1..] + b;
      RemainingJoin(a[1..], b, xs);
    }
  }

  lemma {:induction false} RemainingAll(c: seq<Node>, xs: seq<Node>)
    requires forall i :: 0 <= i < |c| ==> c[i] !in xs
    ensures Remaining(c, xs) == c
  {
    if c != [] {
      RemainingAll(c[1..], xs);
    }
  }

  lemma {:induction false} RemainingSame(c: seq<Node>, x: Node, xs: seq<Node>)
    requires x !in c
    ensures Remaining(c, [x] + xs) == Remaining(c, xs)
  {
    if c != [] {
      RemainingSame(c[1..], x, xs);
    }
  }

  lemma {:induction false} RemainingWithout(u: seq<Node>, x: Node, v: seq<Node>, xs: seq<Node>)
    requires NoDup(u + [x] + v)
    ensures Remaining(u + [x] + v, [x] + xs) == Remaining(u + v, xs)
  {
    NoDupSwap(u + [x], v);
    NoDupSwap(u, [x]);
    assert x in [x] && x in u + [x];
    RemainingJoin(u + [x], v, [x] + xs);
    RemainingJoin(u, [x], [x] + xs);
    RemainingJoin(u, v, xs);
    RemainingSame(u, x, xs);
    RemainingSame(v, x, xs);
    assert [x][1..] == [];
  }

  /** One element is removed; a ring that it is not on, or that it is on alone, stays as it is. */
  lemma OneTaken(h: Heap, d: set<Node>, c: seq<Node>, x: Node) returns (u: seq<Node>, v: seq<Node>)
    requires Mutual(h, d) && x in d && IsRing(h, c)
    ensures Enclosed(h, (x, x))
    ensures x in c ==> c == u + [x] + v
    ensures x in c && c != [x] ==>
            var h' := Unsplice(h, x, x);
            IsRing(h', u + v) && Linked(h, x, h.next[x]) && h'.next[x] == h.next[x] && h'.prev[h'.next[x]] != x
    ensures x !in c || c == [x] ==> IsRing(Unsplice(h, x, x), c)
  {
    assert MutualAt(h, d, x);
    u, v := [], [];
    if x in c {
      var i :| 0 <= i < |c| && c[i] == x;
      u, v := c[..i], c[i + 1..];
      assert c == u + [x] + v;
      if c == [x] {
        UnspliceWhole(h, c);
      } else {
        UnspliceRing(h, u, [x], v);
        NoDupSwap(u + v, [x]);
        assert Last(v + u) in u + v && (v + u)[0] in u + v && x in [x];
      }
    } else {
      if h.next[x] in c {
        RingNeighbours(h, c, h.next[x]);
      }
      if h.prev[x] in c {
        RingNeighbours(h, c, h.prev[x]);
      }
      RingFrame(h, Unsplice(h, x, x), c, {h.prev[x], h.next[x]});
    }
  }

  lemma RemovalsStep(h: Heap, xs: seq<Node>) returns (h': Heap)
    requires xs != [] && Enclosed(h, (xs[0], xs[0]))
    ensures h' == Unsplice(h, xs[0], xs[0])
    ensures Run(h, Removals(Singles(xs))) == Run(h', Removals(Singles(xs[1..])))
  {
    UnspliceUndo(h, (xs[0], xs[0]));
    h' := Unsplice(h, xs[0], xs[0]);
  }

  /** An element nobody points back to stays so, since only links between the others are written. */
  lemma {:induction false} StaysOff(h: Heap, d: set<Node>, xs: seq<Node>, x: Node)
    requires Mutual(h, d) && NoDup(xs) && (forall y :: y in xs ==> y in d)
    requires x !in d && Has(h, x) && Has(h, h.next[x]) && h.prev[h.next[x]] != x
    ensures Run(h, Removals(Singles(xs))).Some?
    ensures OffRings(Run(h, Removals(Singles(xs))).value, x)
    decreases |xs|
  {
    if xs == [] {
      NoRingThrough(h, x);
    } else {
      RemoveOne(h, d, xs[0]);
      assert MutualAt(h, d, xs[0]);
      var h' := RemovalsStep(h, xs);
      StaysOff(h', d - {xs[0]}, xs[1..], x);
    }
  }

  /** `xs[i]` is the last one of `xs` that is in `c`. */
  ghost predicate LastOut(c: seq<Node>, xs: seq<Node>, i: nat) {
    i < |xs| && xs[i] in c && forall j :: i < j < |xs| ==> xs[j] !in c
  }

  /** What is left of `c`: the elements that are not in `xs`, or else the last one of `xs`. */
  ghost predicate IsLeft(c: seq<Node>, xs: seq<Node>, k: seq<Node>) {
    if Remaining(c, xs) != [] then k == Remaining(c, xs)
    else exists i: nat :: LastOut(c, xs, i) && k == [xs[i]]
  }

  /**
    A ring after elements of it and of other rings have been removed: the other elements in order.  If
    there are none, the one removed last is left, on a ring of its own.  All others are on no ring.
    */
  lemma {:induction false} RingAfterRemovals(h: Heap, d: set<Node>, c: seq<Node>, xs: seq<Node>)
    returns (k: seq<Node>)
    requires Mutual(h, d) && IsRing(h, c) && NoDup(xs) && (forall x :: x in xs ==> x in d)
    ensures Run(h, Removals(Singles(xs))).Some?
    ensures IsRing(Run(h, Removals(Singles(xs))).value, k) && IsLeft(c, xs, k)
    ensures forall x :: x in c && x !in k ==> OffRings(Run(h, Removals(Singles(xs))).value, x)
    decreases |xs|
  {
    if xs == [] {
      k := c;
      RemainingAll(c, xs);
    } else {
      var x, rest := xs[0], xs[1..];
      var u, v := OneTaken(h, d, c, x);
      RemoveOne(h, d, x);
      var h' := RemovalsStep(h, xs);
      if x in c && c != [x] {
        k := RingAfterRemovals(h', d - {x}, u + v, rest);
        StaysOff(h', d - {x}, rest, x);
        LeftWithout(u, x, v, xs, k);
      } else {
        k := RingAfterRemovals(h', d - {x}, c, rest);
        LeftAlone(c, xs, k);
      }
    }
  }

  lemma LeftWithout(u: seq<Node>, x: Node, v: seq<Node>, xs: seq<Node>, k: seq<Node>)
    requires xs != [] && xs[0] == x && NoDup(u + [x] + v) && NoDup(xs) && IsLeft(u + v, xs[1..], k)
    ensures IsLeft(u + [x] + v, xs, k)
  {
    var rest := xs[1..];
    assert xs == [x] + rest;
    RemainingWithout(u, x, v, rest);
    if Remaining(u + v, rest) == [] {
      var i: nat :| LastOut(u + v, rest, i) && k == [rest[i]];
      assert forall j :: 0 < j < |xs| ==> xs[j] == rest[j - 1] != x;
      assert LastOut(u + [x] + v, xs, i + 1);
    }
  }

  lemma LeftAlone(c: seq<Node>, xs: seq<Node>, k: seq<Node>)
    requires xs != [] && NoDup(xs) && IsLeft(c, xs[1..], k) && (xs[0] !in c || c == [xs[0]])
    ensures IsLeft(c, xs, k)
  {
    var x, rest := xs[0], xs[1..];
    assert xs == [x] + rest;
    if x !in c {
      RemainingSame(c, x, rest);
      if Remaining(c, rest) == [] {
        var i: nat :| LastOut(c, rest, i) && k == [rest[i]];
        assert forall j :: 0 < j < |xs| ==> xs[j] == rest[j - 1];
        assert LastOut(c, xs, i + 1);
      }
    } else {
      assert x !in rest;
      RemainingAll(c, rest);
      assert c[1..] == [] && Remaining(c, xs) == [];
      assert forall j :: 0 < j < |xs| ==> xs[j] == rest[j - 1];
      assert LastOut(c, xs, 0);
    }
  }

  /**
    While elements are out: each ring consists of its other elements, in order, and those removed are on
    no ring; but if all of a ring are removed, the last one stays on a ring of its own.
    */
  lemma RingsWhileOut(h: Heap, rings: set<seq<Node>>, xs: seq<Node>, c: seq<Node>) returns (k: seq<Node>)
    requires forall c :: c in rings ==> IsRing(h, c)
    requires NoDup(xs) && (forall x :: x in xs ==> x in Elements(rings)) && c in rings
    ensures var g := Run(h, Removals(Singles(xs)));
            g.Some? && IsRing(g.value, k) && forall x :: x in c && x !in k ==> OffRings(g.value, x)
    ensures (exists e :: e in c && e !in xs) ==> k == Remaining(c, xs) && forall e :: e in k <==> e in c && e !in xs
    ensures (forall e :: e in c ==> e in xs) ==>
            exists i :: 0 <= i < |xs| && k == [xs[i]] && xs[i] in c && forall j :: i < j < |xs| ==> xs[j] !in c
  {
    RingsAreMutual(h, rings);
    k := RingAfterRemovals(h, Elements(rings), c, xs);
    RemainingAre(c, xs);
    var r := Remaining(c, xs);
    if r != [] {
      assert r[0] in r;
    } else {
      var i: nat :| LastOut(c, xs, i) && k == [xs[i]];
      assert k == [xs[i]];
    }
  }

  lemma {:induction false} RemainingAre(c: seq<Node>, xs: seq<Node>)
    ensures forall e :: e in Remaining(c, xs) <==> e in c && e !in xs
  {
    if c != [] {
      RemainingAre(c[1..], xs);
      assert c == [c[0]] + c[1..];
    }
  }

  // ---------- splitting and joining ----------

  /**
    The calls that move a suffix to another head: UNSPLICE, INIT of the second head and SPLICE_TAIL.
    */
  function SplitCalls(b: seq<Node>, s2: Node): seq<Macro>
    requires b != []
  {
    [CallUnsplice(Elem(b[0]), Elem(Last(b))), CallInit(Elem(s2))]
    + [CallSpliceBefore(Elem(s2), Elem(b[0]), Elem(Last(b)))]
  }

  lemma SplitRings(h: Heap, s1: Node, a: seq<Node>, b: seq<Node>, s2: Node) returns (h1: Heap, h2: Heap, h3: Heap)
    requires IsRing(h, [s1] + a + b) && b != [] && Has(h, s2) && s2 !in [s1] + a + b
    ensures Defined(h, CallUnsplice(Elem(b[0]), Elem(Last(b)))) && h1 == Unsplice(h, b[0], Last(b))
    ensures Has(h1, s2) && h2 == Init(h1, s2)
    ensures Defined(h2, CallSpliceBefore(Elem(s2), Elem(b[0]), Elem(Last(b))))
    ensures h3 == SpliceBefore(h2, s2, b[0], Last(b))
    ensures IsRing(h3, [s1] + a) && IsRing(h3, [s2] + b)
  {
    var x := [s1] + a;
    assert x + b == x + b + [] && x + [] == x;
    UnspliceRing(h, x, b, []);
    h1 := Unsplice(h, b[0], Last(b));
    NoDupSwap(x, b);
    assert s2 !in x + b;
    h2, h3 := MoveTo(h1, x, b, s2);
  }

  /** INIT of a head and SPLICE_TAIL of a chain give a ring and disturb no other. */
  lemma MoveTo(h1: Heap, x: seq<Node>, b: seq<Node>, s2: Node) returns (h2: Heap, h3: Heap)
    requires IsRing(h1, x) && Chain(h1, b) && b != [] && NoDup(b) && Disjoint(x, b)
    requires Has(h1, s2) && s2 !in x && s2 !in b
    ensures h2 == Init(h1, s2)
    ensures Defined(h2, CallSpliceBefore(Elem(s2), Elem(b[0]), Elem(Last(b))))
    ensures h3 == SpliceBefore(h2, s2, b[0], Last(b))
    ensures IsRing(h3, x) && IsRing(h3, [s2] + b)
  {
    InitRing(h1, s2, b);
    h2 := Init(h1, s2);
    RingFrame(h1, h2, x, {s2});
    NoDupJoin([s2], b);
    RingWhole(h2, [s2]);
    SpliceAtEnd(h2, [s2], b);
    h3 := SpliceBefore(h2, s2, b[0], Last(b));
    assert b[0] in b && Last(b) in b;
    RingFrame(h2, h3, x, {s2, b[0], Last(b)});
  }

  /** Splitting a ring at any element gives the prefix and the suffix. */
  lemma Split(h: Heap, s1: Node, a: seq<Node>, b: seq<Node>, s2: Node)
    requires IsRing(h, [s1] + a + b) && b != [] && Has(h, s2) && s2 !in [s1] + a + b
    ensures var g := Run(h, SplitCalls(b, s2));
            g.Some? && IsRing(g.value, [s1] + a) && IsRing(g.value, [s2] + b)
  {
    var h1, h2, h3 := SplitRings(h, s1, a, b, s2);
    SplitRun(h, b[0], Last(b), s2, h1, h2);
  }

  lemma SplitRun(h: Heap, f: Node, l: Node, s2: Node, h1: Heap, h2: Heap)
    requires Defined(h, CallUnsplice(Elem(f), Elem(l))) && h1 == Unsplice(h, f, l)
    requires Has(h1, s2) && h2 == Init(h1, s2)
    requires Defined(h2, CallSpliceBefore(Elem(s2), Elem(f), Elem(l)))
    ensures Run(h, [CallUnsplice(Elem(f), Elem(l)), CallInit(Elem(s2))]
                 + [CallSpliceBefore(Elem(s2), Elem(f), Elem(l))]) == Some(SpliceBefore(h2, s2, f, l))
  {
    var m, n, o := CallUnsplice(Elem(f), Elem(l)), CallInit(Elem(s2)), CallSpliceBefore(Elem(s2), Elem(f), Elem(l));
    ByValue(h, m);
    ByValue(h1, n);
    Run2(h, m, h1, n);
    RunAppend(h, [m, n], [o]);
    Single(h2, o);
  }

  /**
    Splitting and joining again: CONCAT brings the suffix back, and the only links that differ
    from the start are those of the second head, which is initialised and empty.
    */
  lemma SplitJoin(h: Heap, s1: Node, a: seq<Node>, b: seq<Node>, s2: Node)
    requires IsRing(h, [s1] + a + b) && b != [] && Has(h, s2) && s2 !in [s1] + a + b
    ensures Run(h, SplitCalls(b, s2) + [CallConcat(s1, s2)]) == Some(Init(h, s2))
  {
    var h1, h2, h3 := SplitRings(h, s1, a, b, s2);
    SplitRun(h, b[0], Last(b), s2, h1, h2);
    var x := [s1] + a;
    NoDupSwap(x, b);
    assert Disjoint(x, [s2] + b);
    JoinSetup(h3, s1, a, s2, b);
    RingParts(h, x, b);
    assert x[0] in x && Last(x) in x && b[0] in b && Last(b) in b;
    SplitJoinLinks(h, x[0], Last(x), b[0], Last(b), s2, h1, h2, h3, Concat(h3, s1, s2));
    RunAppend(h, SplitCalls(b, s2), [CallConcat(s1, s2)]);
    Single(h3, CallConcat(s1, s2));
  }

  lemma SplitJoinLinks(h: Heap, s1: Node, p: Node, f: Node, l: Node, s2: Node,
                       h1: Heap, h2: Heap, h3: Heap, h4: Heap)
    requires Linked(h, p, f) && Linked(h, l, s1) && Has(h, s2) && s2 !in {s1, p, f, l}
    requires s1 !in {f, l} && p !in {f, l}
    requires h1 == Unsplice(h, f, l) && h2 == Init(h1, s2) && h3 == SpliceBefore(h2, s2, f, l)
    requires Joinable(h3, s1, s2) && h4 == Concat(h3, s1, s2)
    ensures h4 == Init(h, s2)
  {
    assert h4.next == Init(h, s2).next;
    assert h4.prev == Init(h, s2).prev;
  }
}
