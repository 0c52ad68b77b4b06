/** The theorems about runs, said of the words of memory. */
module WordRuns {
  import opened Links
  import opened Macros
  import opened RoundTrips
  import opened Runs
  import opened Memory
  import opened Wrappers

  lemma SameWords(words: map<int, int>, words': map<int, int>, link: int, h: Heap)
    requires Holds(words, link, h) && Holds(words', link, h)
    requires SameElsewhere(words, words', link, h.next.Keys)
    ensures words' == words
  {
    forall a | a in words
      ensures words'[a] == words[a]
    {
      if IsLink(link, h.next.Keys, a) {
        assert a - link in h.next || a - link - 1 in h.next;
      }
    }
  }

  /**
    Elements of any number of rings, removed one after the other and put back in reverse order, each
    by INSERT_BEFORE(NEXT(e), e): every word of memory is as it was.
    */
  method RemoveAndPutBack(mem: Memory, link: int, xs: seq<Node>, ghost h: Heap, ghost rings: set<seq<Node>>)
    requires Holds(mem.words, link, h)
    requires forall c :: c in rings ==> IsRing(h, c)
    requires NoDup(xs) && forall x :: x in xs ==> x in Elements(rings)
    modifies mem
    ensures mem.words == old(mem.words)
  {
    UndoElements(h, rings, xs);
    var g := mem.CallAll(link, Removals(Singles(xs)) + PutBacks(Singles(xs)), h);
    SameWords(old(mem.words), mem.words, link, h);
  }

  /** The same for any segments that are enclosed when they are removed. */
  method UnspliceAndPutBack(mem: Memory, link: int, segments: seq<Segment>, ghost h: Heap)
    requires Holds(mem.words, link, h) && Removable(h, segments)
    modifies mem
    ensures mem.words == old(mem.words)
  {
    UndoRun(h, segments);
    var g := mem.CallAll(link, Removals(segments) + PutBacks(segments), h);
    SameWords(old(mem.words), mem.words, link, h);
  }

  /**
    The suffix `b` of the ring at `h1` is moved to the head at `h2` and brought back with CONCAT: only
    the two words of that head differ, and they say that it is empty.
    */
  method SplitAndJoin(mem: Memory, link: int, h1: int, h2: int, b: seq<Node>, ghost a: seq<Node>, ghost h: Heap)
    requires Holds(mem.words, link, h) && IsRing(h, [Sentinel(h1, link)] + a + b) && b != []
    requires Has(h, Sentinel(h2, link)) && Sentinel(h2, link) !in [Sentinel(h1, link)] + a + b
    modifies mem
    ensures mem.words == old(mem.words)[h2 := Sentinel(h2, link)][h2 + 1 := Sentinel(h2, link)]
  {
    var s1, s2 := Sentinel(h1, link), Sentinel(h2, link);
    SplitJoin(h, s1, a, b, s2);
    var g := mem.CallAll(link, SplitCalls(b, s2) + [CallConcat(s1, s2)], h);
    OnlyHeadDiffers(old(mem.words), mem.words, link, h2, h);
  }

  lemma OnlyHeadDiffers(words: map<int, int>, words': map<int, int>, link: int, hp: int, h: Heap)
    requires Holds(words, link, h) && Has(h, Sentinel(hp, link))
    requires Holds(words', link, Init(h, Sentinel(hp, link)))
    requires SameElsewhere(words, words', link, h.next.Keys)
    ensures words' == words[hp := Sentinel(hp, link)][hp + 1 := Sentinel(hp, link)]
  {
    var s := Sentinel(hp, link);
    var h1 := Heap(h.next[s := s], h.prev);
    var want := words[hp := s][hp + 1 := s];
    assert Holds(want, link, Init(h, s)) by {
      HoldsSetNext(words, link, h, s, s);
      HoldsSetPrev(words[hp := s], link, h1, s, s);
    }
    assert SameElsewhere(want, words', link, h.next.Keys) by {
      assert IsLink(link, h.next.Keys, hp) && IsLink(link, h.next.Keys, hp + 1);
    }
    assert Init(h, s).next.Keys == h.next.Keys;
    SameWords(want, words', link, Init(h, s));
  }

  /** Any run of commands, carried out by the macros on memory, gives the rings and chains of the abstract run. */
  method RunCommands(mem: Memory, link: int, cmds: seq<Command>, ghost h: Heap, ghost a: State)
    returns (ghost g: Heap)
    requires Holds(mem.words, link, h) && Inv(h, a) && AllEnabled(a, cmds)
    modifies mem
    ensures Holds(mem.words, link, g) && SameElsewhere(old(mem.words), mem.words, link, h.next.Keys)
    ensures Inv(g, StepAll(a, cmds)) && All(StepAll(a, cmds)) == All(a)
  {
    RunRefines(h, a, cmds);
    g := mem.CallAll(link, AllCalls(cmds), h);
  }
}
