/**
  The ring macros as they are written: assignments to words of a flat memory.

  An address is an integer that counts pointer-sized words, so the `prev` link of an entry is the
  word after its `next` link.  `link` is the offset of the ring entry in the element struct; the
  links of the element at `ep` are the words at `ep + link` and `ep + link + 1`, and the sentinel of
  the ring whose head is at `hp` is the address `hp - link`, whether or not anything is there.
  A word that is not in the map is not allocated.
  */
module Memory {
  import opened Links
  import opened Macros
  import opened Wrappers

  /**
    The words of memory hold the links `h`: the entry of every node of `h` is allocated, no two
    entries overlap, and each contains what `h` says.
    */
  ghost predicate Holds(words: map<int, int>, link: int, h: Heap) {
    && h.next.Keys == h.prev.Keys
    && (forall n :: n in h.next ==>
        && n + link in words && words[n + link] == h.next[n]
        && n + link + 1 in words && words[n + link + 1] == h.prev[n])
    && (forall m, n :: m in h.next && n in h.next ==> m + 1 != n)
  }

  /** The word at `a` is a link of one of the nodes. */
  predicate IsLink(link: int, nodes: set<Node>, a: int) {
    a - link in nodes || a - link - 1 in nodes
  }

  /** The words of `words'` are those of `words`, except links of `nodes`. */
  ghost predicate SameBut(words: map<int, int>, words': map<int, int>, link: int, nodes: set<Node>) {
    forall a {:trigger IsLink(link, nodes, a)} :: a in words' && !IsLink(link, nodes, a)
      ==> a in words && words'[a] == words[a]
  }

  /** Nothing is allocated or freed, and only links of `nodes` differ. */
  ghost predicate SameElsewhere(words: map<int, int>, words': map<int, int>, link: int, nodes: set<Node>) {
    words'.Keys == words.Keys && SameBut(words, words', link, nodes)
  }

  function Sentinel(hp: int, link: int): Node {
    hp - link
  }

  lemma HoldsSetNext(words: map<int, int>, link: int, h: Heap, ep: Node, v: Node)
    requires Holds(words, link, h) && Has(h, ep)
    ensures Holds(words[ep + link := v], link, Heap(h.next[ep := v], h.prev))
    ensures SameElsewhere(words, words[ep + link := v], link, h.next.Keys)
  {
  }

  lemma HoldsSetPrev(words: map<int, int>, link: int, h: Heap, ep: Node, v: Node)
    requires Holds(words, link, h) && Has(h, ep)
    ensures Holds(words[ep + link + 1 := v], link, Heap(h.next, h.prev[ep := v]))
    ensures SameElsewhere(words, words[ep + link + 1 := v], link, h.next.Keys)
  {
  }

  class Memory {
    var words: map<int, int>

    constructor (words: map<int, int>)
      ensures this.words == words
    {
      this.words := words;
    }

    function Next(link: int, ep: Node): Node
      requires ep + link in words
      reads this
    {
      words[ep + link]
    }

    function Prev(link: int, ep: Node): Node
      requires ep + link + 1 in words
      reads this
    {
      words[ep + link + 1]
    }

    function First(hp: int): Node
      requires hp in words
      reads this
    {
      words[hp]
    }

    function LastOf(hp: int): Node
      requires hp + 1 in words
      reads this
    {
      words[hp + 1]
    }

    /** EMPTY compares the first element with the sentinel. */
    predicate Empty(link: int, hp: int)
      requires hp in words
      reads this
    {
      First(hp) == Sentinel(hp, link)
    }

    /** Reading an argument, word by word. */
    method Read(link: int, a: Arg, ghost h: Heap) returns (e: Node)
      requires Holds(words, link, h) && Readable(h, a)
      ensures e == Eval(h, a)
    {
      match a
      case Elem(x) => e := x;
      case NextOf(b) =>
        var n := Read(link, b, h);
        e := Next(link, n);
      case PrevOf(b) =>
        var n := Read(link, b, h);
        e := Prev(link, n);
    }

    method SetNext(link: int, target: Arg, value: Arg, ghost h: Heap) returns (ghost g: Heap)
      requires Holds(words, link, h) && CanAssign(h, NextGets(target, value))
      modifies this
      ensures g == Assign(h, NextGets(target, value))
      ensures Holds(words, link, g) && SameElsewhere(old(words), words, link, h.next.Keys)
      ensures g.next.Keys == h.next.Keys
    {
      var v := Read(link, value, h);
      var ep := Read(link, target, h);
      HoldsSetNext(words, link, h, ep, v);
      words := words[ep + link := v];
      g := Heap(h.next[ep := v], h.prev);
    }

    method SetPrev(link: int, target: Arg, value: Arg, ghost h: Heap) returns (ghost g: Heap)
      requires Holds(words, link, h) && CanAssign(h, PrevGets(target, value))
      modifies this
      ensures g == Assign(h, PrevGets(target, value))
      ensures Holds(words, link, g) && SameElsewhere(old(words), words, link, h.next.Keys)
      ensures g.next.Keys == h.next.Keys
    {
      var v := Read(link, value, h);
      var ep := Read(link, target, h);
      HoldsSetPrev(words, link, h, ep, v);
      words := words[ep + link + 1 := v];
      g := Heap(h.next, h.prev[ep := v]);
    }

    method Init(link: int, hp: int, ghost h: Heap) returns (ghost g: Heap)
      requires Holds(words, link, h) && Expand(h, CallInit(Elem(Sentinel(hp, link)))).Some?
      modifies this
      ensures Expand(h, CallInit(Elem(Sentinel(hp, link)))) == Some(g)
      ensures Holds(words, link, g) && SameElsewhere(old(words), words, link, h.next.Keys)
      ensures g.next.Keys == h.next.Keys
    {
      ghost var h1, h2 := AssignSteps2(h, InitText(Elem(Sentinel(hp, link))));
      g := SetNext(link, Elem(Sentinel(hp, link)), Elem(Sentinel(hp, link)), h);
      g := SetPrev(link, Elem(Sentinel(hp, link)), Elem(Sentinel(hp, link)), g);
    }

    method ElemInit(link: int, ep: Arg, ghost h: Heap) returns (ghost g: Heap)
      requires Holds(words, link, h) && Expand(h, CallInit(ep)).Some?
      modifies this
      ensures Expand(h, CallInit(ep)) == Some(g)
      ensures Holds(words, link, g) && SameElsewhere(old(words), words, link, h.next.Keys)
      ensures g.next.Keys == h.next.Keys
    {
      ghost var h1, h2 := AssignSteps2(h, InitText(ep));
      g := SetNext(link, ep, ep, h);
      g := SetPrev(link, ep, ep, g);
    }

    /** The assignments in the order of the macro, every operand read when it is used. */
    method SpliceBefore(link: int, lep: Arg, ep1: Arg, epN: Arg, ghost h: Heap) returns (ghost g: Heap)
      requires Holds(words, link, h) && Expand(h, CallSpliceBefore(lep, ep1, epN)).Some?
      modifies this
      ensures Expand(h, CallSpliceBefore(lep, ep1, epN)) == Some(g)
      ensures Holds(words, link, g) && SameElsewhere(old(words), words, link, h.next.Keys)
      ensures g.next.Keys == h.next.Keys
    {
      ghost var h1, h2, h3, h4 :=
        AssignSteps4(h, NextGets(epN, lep), PrevGets(ep1, PrevOf(lep)), NextGets(PrevOf(lep), ep1), PrevGets(lep, epN));
      g := SetNext(link, epN, lep, h);
      g := SetPrev(link, ep1, PrevOf(lep), g);
      g := SetNext(link, PrevOf(lep), ep1, g);
      g := SetPrev(link, lep, epN, g);
    }

    method SpliceAfter(link: int, lep: Arg, ep1: Arg, epN: Arg, ghost h: Heap) returns (ghost g: Heap)
      requires Holds(words, link, h) && Expand(h, CallSpliceAfter(lep, ep1, epN)).Some?
      modifies this
      ensures Expand(h, CallSpliceAfter(lep, ep1, epN)) == Some(g)
      ensures Holds(words, link, g) && SameElsewhere(old(words), words, link, h.next.Keys)
      ensures g.next.Keys == h.next.Keys
    {
      ghost var h1, h2, h3, h4 :=
        AssignSteps4(h, PrevGets(ep1, lep), NextGets(epN, NextOf(lep)), PrevGets(NextOf(lep), epN), NextGets(lep, ep1));
      g := SetPrev(link, ep1, lep, h);
      g := SetNext(link, epN, NextOf(lep), g);
      assert SameElsewhere(old(words), words, link, h.next.Keys);
      g := SetPrev(link, NextOf(lep), epN, g);
      g := SetNext(link, lep, ep1, g);
    }

    method InsertBefore(link: int, lep: Arg, nep: Arg, ghost h: Heap) returns (ghost g: Heap)
      requires Holds(words, link, h) && Expand(h, CallSpliceBefore(lep, nep, nep)).Some?
      modifies this
      ensures Expand(h, CallSpliceBefore(lep, nep, nep)) == Some(g)
      ensures Holds(words, link, g) && SameElsewhere(old(words), words, link, h.next.Keys)
      ensures g.next.Keys == h.next.Keys
    {
      g := SpliceBefore(link, lep, nep, nep, h);
    }

    method InsertAfter(link: int, lep: Arg, nep: Arg, ghost h: Heap) returns (ghost g: Heap)
      requires Holds(words, link, h) && Expand(h, CallSpliceAfter(lep, nep, nep)).Some?
      modifies this
      ensures Expand(h, CallSpliceAfter(lep, nep, nep)) == Some(g)
      ensures Holds(words, link, g) && SameElsewhere(old(words), words, link, h.next.Keys)
      ensures g.next.Keys == h.next.Keys
    {
      g := SpliceAfter(link, lep, nep, nep, h);
    }

    method SpliceHead(link: int, hp: int, ep1: Arg, epN: Arg, ghost h: Heap) returns (ghost g: Heap)
      requires Holds(words, link, h) && Expand(h, CallSpliceAfter(Elem(Sentinel(hp, link)), ep1, epN)).Some?
      modifies this
      ensures Expand(h, CallSpliceAfter(Elem(Sentinel(hp, link)), ep1, epN)) == Some(g)
      ensures Holds(words, link, g) && SameElsewhere(old(words), words, link, h.next.Keys)
      ensures g.next.Keys == h.next.Keys
    {
      g := SpliceAfter(link, Elem(Sentinel(hp, link)), ep1, epN, h);
    }

    method SpliceTail(link: int, hp: int, ep1: Arg, epN: Arg, ghost h: Heap) returns (ghost g: Heap)
      requires Holds(words, link, h) && Expand(h, CallSpliceBefore(Elem(Sentinel(hp, link)), ep1, epN)).Some?
      modifies this
      ensures Expand(h, CallSpliceBefore(Elem(Sentinel(hp, link)), ep1, epN)) == Some(g)
      ensures Holds(words, link, g) && SameElsewhere(old(words), words, link, h.next.Keys)
      ensures g.next.Keys == h.next.Keys
    {
      g := SpliceBefore(link, Elem(Sentinel(hp, link)), ep1, epN, h);
    }

    method InsertHead(link: int, hp: int, nep: Arg, ghost h: Heap) returns (ghost g: Heap)
      requires Holds(words, link, h) && Expand(h, CallSpliceAfter(Elem(Sentinel(hp, link)), nep, nep)).Some?
      modifies this
      ensures Expand(h, CallSpliceAfter(Elem(Sentinel(hp, link)), nep, nep)) == Some(g)
      ensures Holds(words, link, g) && SameElsewhere(old(words), words, link, h.next.Keys)
      ensures g.next.Keys == h.next.Keys
    {
      g := SpliceHead(link, hp, nep, nep, h);
    }

    method InsertTail(link: int, hp: int, nep: Arg, ghost h: Heap) returns (ghost g: Heap)
      requires Holds(words, link, h) && Expand(h, CallSpliceBefore(Elem(Sentinel(hp, link)), nep, nep)).Some?
      modifies this
      ensures Expand(h, CallSpliceBefore(Elem(Sentinel(hp, link)), nep, nep)) == Some(g)
      ensures Holds(words, link, g) && SameElsewhere(old(words), words, link, h.next.Keys)
      ensures g.next.Keys == h.next.Keys
    {
      g := SpliceTail(link, hp, nep, nep, h);
    }

    /** FIRST(h2) and LAST(h2) are passed on as they are written, to be read where the splice uses them. */
    method Concat(link: int, h1: int, h2: int, ghost h: Heap) returns (ghost g: Heap)
      requires Holds(words, link, h) && Expand(h, CallConcat(Sentinel(h1, link), Sentinel(h2, link))).Some?
      modifies this
      ensures Expand(h, CallConcat(Sentinel(h1, link), Sentinel(h2, link))) == Some(g)
      ensures Holds(words, link, g) && SameElsewhere(old(words), words, link, h.next.Keys)
      ensures g.next.Keys == h.next.Keys
    {
      JoinSteps(h, CallConcat(Sentinel(h1, link), Sentinel(h2, link)));
      g := h;
      assert Sentinel(h2, link) in h.next;
      if !Empty(link, h2) {
        var s2 := Elem(Sentinel(h2, link));
        g := SpliceBefore(link, Elem(Sentinel(h1, link)), NextOf(s2), PrevOf(s2), h);
        g := Init(link, h2, g);
      }
    }

    method Prepend(link: int, h1: int, h2: int, ghost h: Heap) returns (ghost g: Heap)
      requires Holds(words, link, h) && Expand(h, CallPrepend(Sentinel(h1, link), Sentinel(h2, link))).Some?
      modifies this
      ensures Expand(h, CallPrepend(Sentinel(h1, link), Sentinel(h2, link))) == Some(g)
      ensures Holds(words, link, g) && SameElsewhere(old(words), words, link, h.next.Keys)
      ensures g.next.Keys == h.next.Keys
    {
      JoinSteps(h, CallPrepend(Sentinel(h1, link), Sentinel(h2, link)));
      g := h;
      assert Sentinel(h2, link) in h.next;
      if !Empty(link, h2) {
        var s2 := Elem(Sentinel(h2, link));
        g := SpliceAfter(link, Elem(Sentinel(h1, link)), NextOf(s2), PrevOf(s2), h);
        g := Init(link, h2, g);
      }
    }

    method Unsplice(link: int, ep1: Arg, epN: Arg, ghost h: Heap) returns (ghost g: Heap)
      requires Holds(words, link, h) && Expand(h, CallUnsplice(ep1, epN)).Some?
      modifies this
      ensures Expand(h, CallUnsplice(ep1, epN)) == Some(g)
      ensures Holds(words, link, g) && SameElsewhere(old(words), words, link, h.next.Keys)
      ensures g.next.Keys == h.next.Keys
    {
      ghost var h1, h2 := AssignSteps2(h, UnspliceText(ep1, epN));
      g := SetNext(link, PrevOf(ep1), NextOf(epN), h);
      g := SetPrev(link, NextOf(epN), PrevOf(ep1), g);
    }

    method Remove(link: int, ep: Arg, ghost h: Heap) returns (ghost g: Heap)
      requires Holds(words, link, h) && Expand(h, CallRemove(ep)).Some?
      modifies this
      ensures Expand(h, CallRemove(ep)) == Some(g)
      ensures Holds(words, link, g) && SameElsewhere(old(words), words, link, h.next.Keys)
      ensures g.next.Keys == h.next.Keys
    {
      g := Unsplice(link, ep, ep, h);
    }

    method Call(link: int, m: Macro, ghost h: Heap) returns (ghost g: Heap)
      requires Holds(words, link, h) && Expand(h, m).Some?
      modifies this
      ensures Expand(h, m) == Some(g)
      ensures Holds(words, link, g) && SameElsewhere(old(words), words, link, h.next.Keys)
      ensures g.next.Keys == h.next.Keys
    {
      match m
      case CallInit(e) => g := ElemInit(link, e, h);
      case CallSpliceBefore(lep, ep1, epN) => g := SpliceBefore(link, lep, ep1, epN, h);
      case CallSpliceAfter(lep, ep1, epN) => g := SpliceAfter(link, lep, ep1, epN, h);
      case CallUnsplice(ep1, epN) => g := Unsplice(link, ep1, epN, h);
      case CallConcat(s1, s2) => g := Concat(link, s1 + link, s2 + link, h);
      case CallPrepend(s1, s2) => g := Prepend(link, s1 + link, s2 + link, h);
    }

    /** A run of macros on memory is the run on links. */
    method CallAll(link: int, ms: seq<Macro>, ghost h: Heap) returns (ghost g: Heap)
      requires Holds(words, link, h) && Run(h, ms).Some?
      modifies this
      ensures Run(h, ms) == Some(g)
      ensures Holds(words, link, g) && SameElsewhere(old(words), words, link, h.next.Keys)
      ensures g.next.Keys == h.next.Keys
    {
      g := h;
      var i := 0;
      while i < |ms|
        invariant i <= |ms| && Run(g, ms[i..]) == Run(h, ms)
        invariant Holds(words, link, g) && SameElsewhere(old(words), words, link, h.next.Keys)
        invariant g.next.Keys == h.next.Keys
      {
        assert ms[i..][1..] == ms[i + 1..];
        g := Call(link, ms[i], g);
        i := i + 1;
      }
    }
  }

  /** Two assignments that can be carried out, one at a time. */
  lemma AssignSteps2(h: Heap, t: seq<Assignment>) returns (h1: Heap, h2: Heap)
    requires AssignAll(h, t).Some? && |t| == 2
    ensures CanAssign(h, t[0]) && h1 == Assign(h, t[0])
    ensures CanAssign(h1, t[1]) && h2 == Assign(h1, t[1])
    ensures AssignAll(h, t) == Some(h2)
  {
    h1 := Assign(h, t[0]);
    assert t[1..] == [t[1]];
    assert AssignAll(h, t) == AssignAll(h1, [t[1]]);
    assert CanAssign(h1, [t[1]][0]);
    Assign1(h1, t[1]);
    h2 := Assign(h1, t[1]);
  }

  lemma AssignSteps4(h: Heap, a: Assignment, b: Assignment, c: Assignment, d: Assignment)
    returns (h1: Heap, h2: Heap, h3: Heap, h4: Heap)
    requires AssignAll(h, [a, b, c, d]).Some?
    ensures CanAssign(h, a) && h1 == Assign(h, a)
    ensures CanAssign(h1, b) && h2 == Assign(h1, b)
    ensures CanAssign(h2, c) && h3 == Assign(h2, c)
    ensures CanAssign(h3, d) && h4 == Assign(h3, d)
    ensures AssignAll(h, [a, b, c, d]) == Some(h4)
  {
    assert [a, b, c, d] == [a, b] + [c, d];
    AssignAppend(h, [a, b], [c, d]);
    h1, h2 := AssignSteps2(h, [a, b]);
    h3, h4 := AssignSteps2(h2, [c, d]);
  }

  /** The splice and the initialisation that CONCAT and PREPEND consist of. */
  lemma JoinSteps(h: Heap, m: Macro)
    requires m.CallConcat? || m.CallPrepend?
    requires Expand(h, m).Some?
    ensures Has(h, m.s2)
    ensures IsEmpty(h, m.s2) ==> Expand(h, m) == Some(h)
    ensures !IsEmpty(h, m.s2) ==>
            var f, l := NextOf(Elem(m.s2)), PrevOf(Elem(m.s2));
            var splice := if m.CallConcat? then CallSpliceBefore(Elem(m.s1), f, l)
                          else CallSpliceAfter(Elem(m.s1), f, l);
            && Expand(h, splice).Some?
            && Expand(h, m) == Expand(Expand(h, splice).value, CallInit(Elem(m.s2)))
  {
    if !IsEmpty(h, m.s2) {
      var f, l := NextOf(Elem(m.s2)), PrevOf(Elem(m.s2));
      var t := if m.CallConcat? then SpliceBeforeText(Elem(m.s1), f, l) else SpliceAfterText(Elem(m.s1), f, l);
      AssignAppend(h, t, InitText(Elem(m.s2)));
      assert CanAssign(h, (t + InitText(Elem(m.s2)))[0]);
      assert Denotes(h, if m.CallConcat? then l else f);
      assert Readable(h, Elem(m.s2)) && Eval(h, Elem(m.s2)) == m.s2;
    }
  }

  // ---------- what the layout of structs gives ----------

  /**
    Structs of `size` words with two ring entries, at offsets `l1` and `l2`, and the heads of rings
    through either entry.  No two objects overlap.
    */
  datatype Layout = Layout(elems: set<int>, size: int, l1: int, l2: int, heads1: set<int>, heads2: set<int>)

  ghost predicate Valid(o: Layout) {
    && 0 <= o.l1 && o.l1 + 2 <= o.l2 && o.l2 + 2 <= o.size
    && o.heads1 !! o.heads2
    && (forall a, b :: a in o.elems && b in o.elems && a < b ==> a + o.size <= b)
    && (forall p, q :: p in o.heads1 + o.heads2 && q in o.heads1 + o.heads2 ==> p + 1 != q)
    && (forall p, a :: p in o.heads1 + o.heads2 && a in o.elems ==> p + 2 <= a || a + o.size <= p)
  }

  /** The nodes of the rings through the entry at offset `link`: the elements and the sentinels. */
  function Nodes(elems: set<int>, heads: set<int>, link: int): set<Node> {
    elems + set p | p in heads :: Sentinel(p, link)
  }

  /** The links of all nodes through one entry. */
  ghost function LinksOf(words: map<int, int>, link: int, nodes: set<Node>): Heap
    requires forall n :: n in nodes ==> n + link in words && n + link + 1 in words
  {
    Heap(map n | n in nodes :: words[n + link], map n | n in nodes :: words[n + link + 1])
  }

  ghost predicate Allocated(words: map<int, int>, link: int, nodes: set<Node>) {
    forall n :: n in nodes ==> n + link in words && n + link + 1 in words
  }

  /** Two entries are the same entry or do not overlap. */
  ghost predicate Apart(o: Layout) {
    var n1, n2 := Nodes(o.elems, o.heads1, o.l1), Nodes(o.elems, o.heads2, o.l2);
    && (forall m, n :: m in n1 && n in n1 ==> m + 1 != n)
    && (forall m, n :: m in n2 && n in n2 ==> m + 1 != n)
    && (forall m, n :: m in n1 && n in n2 ==> n + o.l2 - m - o.l1 !in {-1, 0, 1})
  }

  lemma EntriesApart(o: Layout)
    requires Valid(o)
    ensures Apart(o)
  {
    var n1, n2 := Nodes(o.elems, o.heads1, o.l1), Nodes(o.elems, o.heads2, o.l2);
    forall n | n in n1
      ensures n in o.elems || n + o.l1 in o.heads1
    {
    }
    forall n | n in n2
      ensures n in o.elems || n + o.l2 in o.heads2
    {
    }
    forall m, n | m in n1 && n in n1
      ensures m + 1 != n
    {
      assert m + o.l1 in o.heads1 + o.heads2 || m in o.elems;
      assert n + o.l1 in o.heads1 + o.heads2 || n in o.elems;
    }
    forall m, n | m in n2 && n in n2
      ensures m + 1 != n
    {
      assert m + o.l2 in o.heads1 + o.heads2 || m in o.elems;
      assert n + o.l2 in o.heads1 + o.heads2 || n in o.elems;
    }
    forall m, n | m in n1 && n in n2
      ensures n + o.l2 - m - o.l1 !in {-1, 0, 1}
    {
      assert m + o.l1 in o.heads1 + o.heads2 || m in o.elems;
      assert n + o.l2 in o.heads1 + o.heads2 || n in o.elems;
    }
  }

  lemma HoldsLinks(words: map<int, int>, link: int, nodes: set<Node>)
    requires Allocated(words, link, nodes)
    requires forall m, n :: m in nodes && n in nodes ==> m + 1 != n
    ensures Holds(words, link, LinksOf(words, link, nodes))
  {
  }

  /**
    The sentinel games are sound: through either entry, memory holds the links of all elements and
    all sentinels as those of different nodes, and no sentinel is mistaken for an element.
    */
  lemma {:induction false} SentinelsAreNodes(o: Layout, words: map<int, int>)
    requires Valid(o)
    requires Allocated(words, o.l1, Nodes(o.elems, o.heads1, o.l1))
    requires Allocated(words, o.l2, Nodes(o.elems, o.heads2, o.l2))
    ensures Holds(words, o.l1, LinksOf(words, o.l1, Nodes(o.elems, o.heads1, o.l1)))
    ensures Holds(words, o.l2, LinksOf(words, o.l2, Nodes(o.elems, o.heads2, o.l2)))
    ensures forall p :: p in o.heads1 ==> Sentinel(p, o.l1) !in o.elems
    ensures forall p :: p in o.heads2 ==> Sentinel(p, o.l2) !in o.elems
  {
    EntriesApart(o);
    HoldsLinks(words, o.l1, Nodes(o.elems, o.heads1, o.l1));
    HoldsLinks(words, o.l2, Nodes(o.elems, o.heads2, o.l2));
    SentinelNoElement(o);
  }

  lemma SentinelNoElement(o: Layout)
    requires Valid(o)
    ensures forall p :: p in o.heads1 ==> Sentinel(p, o.l1) !in o.elems
    ensures forall p :: p in o.heads2 ==> Sentinel(p, o.l2) !in o.elems
  {
    forall p | p in o.heads1 + o.heads2
      ensures Sentinel(p, o.l1) !in o.elems && Sentinel(p, o.l2) !in o.elems
    {
    }
  }

  /** Whatever a macro does through one entry, the links through the other entry stay as they are. */
  lemma OtherEntryUntouched(o: Layout, words: map<int, int>, words': map<int, int>, h1: Heap, h2: Heap)
    requires Valid(o)
    requires Holds(words, o.l1, h1) && h1.next.Keys <= Nodes(o.elems, o.heads1, o.l1)
    requires Holds(words, o.l2, h2) && h2.next.Keys <= Nodes(o.elems, o.heads2, o.l2)
    ensures SameElsewhere(words, words', o.l1, h1.next.Keys) ==> Holds(words', o.l2, h2)
    ensures SameElsewhere(words, words', o.l2, h2.next.Keys) ==> Holds(words', o.l1, h1)
  {
    EntriesApart(o);
    if SameElsewhere(words, words', o.l1, h1.next.Keys) {
      OtherFrame(words, words', o.l1, h1.next.Keys, o.l2, h2);
    }
    if SameElsewhere(words, words', o.l2, h2.next.Keys) {
      OtherFrame(words, words', o.l2, h2.next.Keys, o.l1, h1);
    }
  }

  lemma OtherFrame(words: map<int, int>, words': map<int, int>, link: int, nodes: set<Node>, other: int, h: Heap)
    requires forall m, n :: m in nodes && n in h.next ==> n + other - m - link !in {-1, 0, 1}
    requires SameElsewhere(words, words', link, nodes) && Holds(words, other, h)
    ensures Holds(words', other, h)
  {
    forall n | n in h.next
      ensures words'[n + other] == words[n + other] && words'[n + other + 1] == words[n + other + 1]
    {
      assert !IsLink(link, nodes, n + other) && !IsLink(link, nodes, n + other + 1);
    }
  }

  /** The links of memory at other nodes of the same entry are untouched as well. */
  lemma OtherNodesUntouched(words: map<int, int>, words': map<int, int>, link: int, h: Heap, g: Heap, all: Heap)
    requires Holds(words, link, all) && Holds(words, link, h) && Holds(words, link, g)
    requires h.next.Keys <= all.next.Keys && g.next.Keys <= all.next.Keys && h.next.Keys !! g.next.Keys
    requires SameElsewhere(words, words', link, h.next.Keys)
    ensures Holds(words', link, g)
  {
    OtherFrame(words, words', link, h.next.Keys, link, g);
  }

  /** In terms of words: from the last element, two steps lead to the first, and back. */
  lemma AroundTheSentinel(words: map<int, int>, link: int, hp: int, h: Heap, c: seq<Node>)
    requires Holds(words, link, h) && IsRing(h, [Sentinel(hp, link)] + c) && c != []
    ensures hp in words && hp + 1 in words && words[hp] == c[0] && words[hp + 1] == Last(c)
    ensures Last(c) + link in words && words[Last(c) + link] + link in words
    ensures words[words[Last(c) + link] + link] == c[0]
    ensures c[0] + link + 1 in words && words[c[0] + link + 1] + link + 1 in words
    ensures words[words[c[0] + link + 1] + link + 1] == Last(c)
  {
    RingParts(h, [Sentinel(hp, link)], c);
  }
}
