/**
  The text of the ring macros.

  A macro pastes the text of its arguments at every use, so an argument such as FIRST(hp) is read again
  after an assignment may have changed it.  `Expand` gives a call this meaning: a list of assignments
  whose operands are read when their turn comes.  `Execute` is what the call would mean if its arguments
  were read once, before anything is written; only then is a macro the operation its name promises, and
  the lemmas below say for which arguments the two agree.
  */
module Macros {
  import opened Links
  import opened Wrappers

  /**
    An argument: a variable holding an element, or a link read through another argument.
    FIRST(hp) is NEXT of the sentinel of `hp`, and LAST(hp) is PREV of it.
    */
  datatype Arg =
    | Elem(e: Node)
    | NextOf(a: Arg)
    | PrevOf(a: Arg)

  predicate Readable(h: Heap, a: Arg)
    decreases a, 0
  {
    match a
    case Elem(_) => true
    case NextOf(b) => Readable(h, b) && Has(h, Eval(h, b))
    case PrevOf(b) => Readable(h, b) && Has(h, Eval(h, b))
  }

  function Eval(h: Heap, a: Arg): Node
    requires Readable(h, a)
    decreases a, 1
  {
    match a
    case Elem(e) => e
    case NextOf(b) => h.next[Eval(h, b)]
    case PrevOf(b) => h.prev[Eval(h, b)]
  }

  /** The argument, if it can be read, has this value. */
  predicate Reads(h: Heap, a: Arg, e: Node) {
    Readable(h, a) && Eval(h, a) == e
  }

  /** The argument denotes an element of the heap. */
  predicate Denotes(h: Heap, a: Arg) {
    Readable(h, a) && Has(h, Eval(h, a))
  }

  /** NEXT(target) = value and PREV(target) = value. */
  datatype Assignment =
    | NextGets(target: Arg, value: Arg)
    | PrevGets(target: Arg, value: Arg)

  predicate CanAssign(h: Heap, s: Assignment) {
    Denotes(h, s.target) && Readable(h, s.value)
  }

  function Assign(h: Heap, s: Assignment): Heap
    requires CanAssign(h, s)
  {
    var t, v := Eval(h, s.target), Eval(h, s.value);
    if s.NextGets? then Heap(h.next[t := v], h.prev) else Heap(h.next, h.prev[t := v])
  }

  /** `None` when an assignment would follow a link that leads outside the heap. */
  function AssignAll(h: Heap, text: seq<Assignment>): Option<Heap>
    decreases |text|
  {
    if text == [] then Some(h)
    else if CanAssign(h, text[0]) then AssignAll(Assign(h, text[0]), text[1..])
    else None
  }

  /** The heads given to CONCAT and PREPEND appear as their sentinels. */
  datatype Macro =
    | CallInit(e: Arg)
    | CallSpliceBefore(lep: Arg, ep1: Arg, epN: Arg)
    | CallSpliceAfter(lep: Arg, ep1: Arg, epN: Arg)
    | CallUnsplice(ep1: Arg, epN: Arg)
    | CallConcat(s1: Node, s2: Node)
    | CallPrepend(s1: Node, s2: Node)

  function CallRemove(e: Arg): Macro {
    CallUnsplice(e, e)
  }

  function InitText(e: Arg): seq<Assignment> {
    [NextGets(e, e), PrevGets(e, e)]
  }

  function SpliceBeforeText(lep: Arg, ep1: Arg, epN: Arg): seq<Assignment> {
    [NextGets(epN, lep), PrevGets(ep1, PrevOf(lep)), NextGets(PrevOf(lep), ep1), PrevGets(lep, epN)]
  }

  function SpliceAfterText(lep: Arg, ep1: Arg, epN: Arg): seq<Assignment> {
    [PrevGets(ep1, lep), NextGets(epN, NextOf(lep)), PrevGets(NextOf(lep), epN), NextGets(lep, ep1)]
  }

  function UnspliceText(ep1: Arg, epN: Arg): seq<Assignment> {
    [NextGets(PrevOf(ep1), NextOf(epN)), PrevGets(NextOf(epN), PrevOf(ep1))]
  }

  predicate IsEmpty(h: Heap, s: Node) {
    Has(h, s) && h.next[s] == s
  }

  function Text(h: Heap, m: Macro): seq<Assignment> {
    match m
    case CallInit(e) => InitText(e)
    case CallSpliceBefore(lep, ep1, epN) => SpliceBeforeText(lep, ep1, epN)
    case CallSpliceAfter(lep, ep1, epN) => SpliceAfterText(lep, ep1, epN)
    case CallUnsplice(ep1, epN) => UnspliceText(ep1, epN)
    case CallConcat(s1, s2) =>
      if IsEmpty(h, s2) then []
      else SpliceBeforeText(Elem(s1), NextOf(Elem(s2)), PrevOf(Elem(s2))) + InitText(Elem(s2))
    case CallPrepend(s1, s2) =>
      if IsEmpty(h, s2) then []
      else SpliceAfterText(Elem(s1), NextOf(Elem(s2)), PrevOf(Elem(s2))) + InitText(Elem(s2))
  }

  /** What a macro call does. */
  function Expand(h: Heap, m: Macro): Option<Heap> {
    AssignAll(h, Text(h, m))
  }

  /** What a list of macro calls does, one after the other. */
  function Run(h: Heap, ms: seq<Macro>): Option<Heap>
    decreases |ms|
  {
    if ms == [] then Some(h)
    else match Expand(h, ms[0])
      case Some(g) => Run(g, ms[1..])
      case None => None
  }

  lemma {:induction false} RunAppend(h: Heap, ms: seq<Macro>, ns: seq<Macro>)
    ensures Run(h, ms + ns) == (match Run(h, ms) case Some(g) => Run(g, ns) case None => None)
    decreases |ms|
  {
    if ms == [] {
      assert ms + ns == ns;
    } else if Expand(h, ms[0]).Some? {
      assert (ms + ns)[1..] == ms[1..] + ns;
      RunAppend(Expand(h, ms[0]).value, ms[1..], ns);
    }
  }

  lemma RunOne(h: Heap, m: Macro)
    ensures Run(h, [m]) == Expand(h, m)
  {
    assert [m][1..] == [];
  }

  lemma {:induction false} AssignAppend(h: Heap, s: seq<Assignment>, t: seq<Assignment>)
    ensures AssignAll(h, s + t) == (match AssignAll(h, s) case Some(g) => AssignAll(g, t) case None => None)
    decreases |s|
  {
    if s == [] {
      assert s + t == t;
    } else if CanAssign(h, s[0]) {
      assert (s + t)[1..] == s[1..] + t;
      AssignAppend(Assign(h, s[0]), s[1..], t);
    }
  }

  // ---------- arguments read once ----------

  predicate Defined(h: Heap, m: Macro) {
    match m
    case CallInit(e) => Denotes(h, e)
    case CallSpliceBefore(lep, ep1, epN) =>
      Denotes(h, lep) && Denotes(h, ep1) && Denotes(h, epN) && Denotes(h, PrevOf(lep))
    case CallSpliceAfter(lep, ep1, epN) =>
      Denotes(h, lep) && Denotes(h, ep1) && Denotes(h, epN) && Denotes(h, NextOf(lep))
    case CallUnsplice(ep1, epN) =>
      Denotes(h, ep1) && Denotes(h, epN) && Denotes(h, PrevOf(ep1)) && Denotes(h, NextOf(epN))
    case CallConcat(s1, s2) => Joinable(h, s1, s2)
    case CallPrepend(s1, s2) => Joinable(h, s1, s2)
  }

  function Execute(h: Heap, m: Macro): Heap
    requires Defined(h, m)
  {
    match m
    case CallInit(e) => Init(h, Eval(h, e))
    case CallSpliceBefore(lep, ep1, epN) => SpliceBefore(h, Eval(h, lep), Eval(h, ep1), Eval(h, epN))
    case CallSpliceAfter(lep, ep1, epN) => SpliceAfter(h, Eval(h, lep), Eval(h, ep1), Eval(h, epN))
    case CallUnsplice(ep1, epN) => Unsplice(h, Eval(h, ep1), Eval(h, epN))
    case CallConcat(s1, s2) => Concat(h, s1, s2)
    case CallPrepend(s1, s2) => Prepend(h, s1, s2)
  }

  /** The arguments are variables. */
  predicate Local(m: Macro) {
    match m
    case CallInit(e) => e.Elem?
    case CallSpliceBefore(lep, ep1, epN) => lep.Elem? && ep1.Elem? && epN.Elem?
    case CallSpliceAfter(lep, ep1, epN) => lep.Elem? && ep1.Elem? && epN.Elem?
    case CallUnsplice(ep1, epN) => ep1.Elem? && epN.Elem?
    case CallConcat(_, _) => true
    case CallPrepend(_, _) => true
  }

  lemma Assign1(h: Heap, a: Assignment)
    requires CanAssign(h, a)
    ensures AssignAll(h, [a]) == Some(Assign(h, a))
  {
    assert [a][1..] == [];
  }

  lemma Assign2(h: Heap, a: Assignment, b: Assignment)
    requires CanAssign(h, a) && CanAssign(Assign(h, a), b)
    ensures AssignAll(h, [a, b]) == Some(Assign(Assign(h, a), b))
  {
    assert [a, b] == [a] + [b];
    AssignAppend(h, [a], [b]);
    Assign1(h, a);
    Assign1(Assign(h, a), b);
  }

  /** NEXT and PREV of a variable. */
  lemma ReadLinks(h: Heap, e: Node)
    requires Has(h, e)
    ensures Reads(h, NextOf(Elem(e)), h.next[e]) && Reads(h, PrevOf(Elem(e)), h.prev[e])
  {
    assert Reads(h, Elem(e), e);
  }

  /** NEXT and PREV of any argument. */
  lemma ReadThrough(h: Heap, a: Arg, e: Node)
    requires Reads(h, a, e) && Has(h, e)
    ensures Reads(h, NextOf(a), h.next[e]) && Reads(h, PrevOf(a), h.prev[e])
  {
  }

  /** Four assignments, given what their operands are read as. */
  lemma Assign4(h: Heap, t: seq<Assignment>, h1: Heap, h2: Heap, h3: Heap, h4: Heap)
    requires |t| == 4
    requires CanAssign(h, t[0]) && h1 == Assign(h, t[0])
    requires CanAssign(h1, t[1]) && h2 == Assign(h1, t[1])
    requires CanAssign(h2, t[2]) && h3 == Assign(h2, t[2])
    requires CanAssign(h3, t[3]) && h4 == Assign(h3, t[3])
    ensures AssignAll(h, t) == Some(h4)
  {
    assert t == [t[0], t[1]] + [t[2], t[3]];
    Assign2(h, t[0], t[1]);
    AssignAppend(h, [t[0], t[1]], [t[2], t[3]]);
    Assign2(h2, t[2], t[3]);
  }

  lemma SpliceBeforeByValue(h: Heap, lep: Node, ep1: Node, epN: Node)
    requires Defined(h, CallSpliceBefore(Elem(lep), Elem(ep1), Elem(epN)))
    ensures Expand(h, CallSpliceBefore(Elem(lep), Elem(ep1), Elem(epN))) == Some(SpliceBefore(h, lep, ep1, epN))
  {
    ReadLinks(h, lep);
    var p := h.prev[lep];
    var h1 := Heap(h.next[epN := lep], h.prev);
    ReadLinks(h1, lep);
    var h2 := Heap(h1.next, h1.prev[ep1 := p]);
    ReadLinks(h2, lep);
    var h3 := Heap(h2.next[p := ep1], h2.prev);
    var h4 := Heap(h3.next, h3.prev[lep := epN]);
    Assign4(h, SpliceBeforeText(Elem(lep), Elem(ep1), Elem(epN)), h1, h2, h3, h4);
  }

  lemma SpliceAfterByValue(h: Heap, lep: Node, ep1: Node, epN: Node)
    requires Defined(h, CallSpliceAfter(Elem(lep), Elem(ep1), Elem(epN)))
    ensures Expand(h, CallSpliceAfter(Elem(lep), Elem(ep1), Elem(epN))) == Some(SpliceAfter(h, lep, ep1, epN))
  {
    ReadLinks(h, lep);
    var n := h.next[lep];
    var h1 := Heap(h.next, h.prev[ep1 := lep]);
    ReadLinks(h1, lep);
    var h2 := Heap(h1.next[epN := n], h1.prev);
    ReadLinks(h2, lep);
    var h3 := Heap(h2.next, h2.prev[n := epN]);
    var h4 := Heap(h3.next[lep := ep1], h3.prev);
    Assign4(h, SpliceAfterText(Elem(lep), Elem(ep1), Elem(epN)), h1, h2, h3, h4);
  }

  lemma InitByValue(h: Heap, e: Node)
    requires Has(h, e)
    ensures AssignAll(h, InitText(Elem(e))) == Some(Init(h, e))
  {
    Assign2(h, NextGets(Elem(e), Elem(e)), PrevGets(Elem(e), Elem(e)));
  }

  lemma UnspliceByValue(h: Heap, ep1: Node, epN: Node)
    requires Defined(h, CallUnsplice(Elem(ep1), Elem(epN)))
    ensures Expand(h, CallUnsplice(Elem(ep1), Elem(epN))) == Some(Unsplice(h, ep1, epN))
  {
    var t := UnspliceText(Elem(ep1), Elem(epN));
    ReadLinks(h, ep1);
    ReadLinks(h, epN);
    var h1 := Heap(h.next[h.prev[ep1] := h.next[epN]], h.prev);
    ReadLinks(h1, ep1);
    ReadLinks(h1, epN);
    assert Assign(h, t[0]) == Heap(h.next[h.prev[ep1] := h.next[epN]], h.prev);
    Assign2(h, t[0], t[1]);
  }

  /**
    CONCAT reads FIRST(h2) and LAST(h2) again after it has begun to write.  This makes no difference
    on a head that is not linked to itself on one side only; on such a head it makes none exactly in
    the two remaining cases.
    */
  lemma ConcatReread(h: Heap, s1: Node, s2: Node)
    requires Joinable(h, s1, s2)
    ensures Expand(h, CallConcat(s1, s2)).Some?
    ensures Expand(h, CallConcat(s1, s2)) == Some(Concat(h, s1, s2))
       <==> || HeadWhole(h, s2)
            || h.next[s2] == s1
            || (h.prev[s1] == s2 && h.prev[h.next[s2]] == s2)
  {
    if h.next[s2] != s2 {
      var p, f, l := h.prev[s1], h.next[s2], h.prev[s2];
      var t := SpliceBeforeText(Elem(s1), NextOf(Elem(s2)), PrevOf(Elem(s2)));
      var f' := if l == s2 then s1 else f;
      ReadLinks(h, s2);
      var h1 := Heap(h.next[l := s1], h.prev);
      ReadLinks(h1, s1);
      ReadLinks(h1, s2);
      var h2 := Heap(h1.next, h1.prev[f' := p]);
      ReadLinks(h2, s1);
      ReadLinks(h2, s2);
      var h3 := Heap(h2.next[p := f'], h2.prev);
      ReadLinks(h3, s2);
      var h4 := Heap(h3.next, h3.prev[s1 := l]);
      Assign4(h, t, h1, h2, h3, h4);
      AssignAppend(h, t, InitText(Elem(s2)));
      InitByValue(h4, s2);
      ConcatDiffers(h, s1, s2, h4);
    }
  }

  lemma ConcatDiffers(h: Heap, s1: Node, s2: Node, g: Heap)
    requires Joinable(h, s1, s2) && h.next[s2] != s2
    requires var p, l := h.prev[s1], h.prev[s2];
             var f := if l == s2 then s1 else h.next[s2];
             g == Heap(h.next[l := s1][p := f], h.prev[f := p][s1 := l])
    ensures Init(g, s2) == Concat(h, s1, s2)
       <==> || HeadWhole(h, s2)
            || h.next[s2] == s1
            || (h.prev[s1] == s2 && h.prev[h.next[s2]] == s2)
  {
    var a, b := Init(g, s2), Concat(h, s1, s2);
    var p, f := h.prev[s1], h.next[s2];
    if a == b && h.prev[s2] == s2 {
      assert p != s2 ==> a.next[p] == s1 && b.next[p] == f;
      assert f != s1 ==> a.prev[f] == h.prev[f] && b.prev[f] == p;
    }
    if a.next == b.next && a.prev == b.prev {
      assert a == b;
    }
  }

  lemma PrependReread(h: Heap, s1: Node, s2: Node)
    requires Joinable(h, s1, s2)
    ensures Expand(h, CallPrepend(s1, s2)).Some?
    ensures Expand(h, CallPrepend(s1, s2)) == Some(Prepend(h, s1, s2))
       <==> HeadWhole(h, s2) || h.next[s1] == h.next[s2]
  {
    if h.next[s2] != s2 {
      var n, f, l := h.next[s1], h.next[s2], h.prev[s2];
      var t := SpliceAfterText(Elem(s1), NextOf(Elem(s2)), PrevOf(Elem(s2)));
      var f' := if l == s2 then n else f;
      ReadLinks(h, s2);
      var h1 := Heap(h.next, h.prev[f := s1]);
      ReadLinks(h1, s1);
      ReadLinks(h1, s2);
      var h2 := Heap(h1.next[l := n], h1.prev);
      ReadLinks(h2, s1);
      ReadLinks(h2, s2);
      var h3 := Heap(h2.next, h2.prev[n := l]);
      ReadLinks(h3, s2);
      var h4 := Heap(h3.next[s1 := f'], h3.prev);
      Assign4(h, t, h1, h2, h3, h4);
      AssignAppend(h, t, InitText(Elem(s2)));
      InitByValue(h4, s2);
      var a, b := Init(h4, s2), Prepend(h, s1, s2);
      if f' != f && s1 != s2 {
        assert a.next[s1] == n && b.next[s1] == f;
      }
      if f' == f {
        assert a.next == b.next && a.prev == b.prev;
      }
    }
  }

  /** With variables as arguments a macro does what it would do if it read them once. */
  lemma ByValue(h: Heap, m: Macro)
    requires Defined(h, m) && Local(m)
    requires m.CallConcat? || m.CallPrepend? ==> HeadWhole(h, m.s2)
    ensures Expand(h, m) == Some(Execute(h, m))
  {
    match m
    case CallInit(e) => InitByValue(h, e.e);
    case CallSpliceBefore(lep, ep1, epN) => SpliceBeforeByValue(h, lep.e, ep1.e, epN.e);
    case CallSpliceAfter(lep, ep1, epN) => SpliceAfterByValue(h, lep.e, ep1.e, epN.e);
    case CallUnsplice(ep1, epN) => UnspliceByValue(h, ep1.e, epN.e);
    case CallConcat(s1, s2) => ConcatReread(h, s1, s2);
    case CallPrepend(s1, s2) => PrependReread(h, s1, s2);
  }

  /** The usual case: a call with variables, on its own. */
  lemma Single(h: Heap, m: Macro)
    requires Defined(h, m) && Local(m)
    requires m.CallConcat? || m.CallPrepend? ==> HeadWhole(h, m.s2)
    ensures Run(h, [m]) == Some(Execute(h, m))
  {
    ByValue(h, m);
    RunOne(h, m);
  }

  lemma Run2(h: Heap, m: Macro, g: Heap, n: Macro)
    requires Expand(h, m) == Some(g)
    ensures Run(h, [m, n]) == Expand(g, n)
  {
    assert [m, n] == [m] + [n];
    RunAppend(h, [m], [n]);
    RunOne(h, m);
    RunOne(g, n);
  }
}
