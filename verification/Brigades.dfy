/**
  Bucket brigades: rings of `struct apr_bucket` whose head is the `list` field of a brigade.
  Every field of the structs takes one word.
  */
module Brigades {
  import opened Links
  import opened Macros
  import opened Memory
  import opened Rereading
  import opened RingCheck
  import opened Wrappers

  // struct apr_bucket: link.next, link.prev, type, length, start, data, free, list
  const LINK := 0
  const TYPE := 2
  const DATA := 5
  const FREE := 6
  const BUCKET_SIZE := 8

  // struct apr_bucket_brigade: p, list.next, list.prev, bucket_alloc
  const LIST := 1

  // struct apr_bucket_type_t: name, num_func, is_metadata, destroy, ...
  const TYPE_DESTROY := 3

  function BrigadeSentinel(b: int): Node {
    Sentinel(b + LIST, LINK)
  }

  /** Calls through the function pointers of a bucket. */
  datatype Event =
    | Destroyed(destroy: int, data: int)
    | Freed(free: int, e: Node)

  // ---------- walking a brigade ----------

  /** The documented loop from the first bucket to the sentinel visits the contents, in order. */
  method Forward(mem: Memory, b: int, ghost h: Heap) returns (visited: seq<Node>)
    requires Holds(mem.words, LINK, h) && Headed(h, BrigadeSentinel(b))
    ensures visited == Contents(h, BrigadeSentinel(b))
  {
    ghost var s, c := BrigadeSentinel(b), Contents(h, BrigadeSentinel(b));
    RingStep(h, [s] + c, 0);
    NoDupSwap([s], c);
    assert s in [s] && s !in c;
    var e := mem.First(b + LIST);
    visited := [];
    while e != BrigadeSentinel(b)
      invariant |visited| <= |c| && visited == c[..|visited|]
      invariant e == if |visited| < |c| then c[|visited|] else s
      decreases |c| - |visited|
    {
      RingStep(h, [s] + c, |visited| + 1);
      visited := visited + [e];
      e := mem.Next(LINK, e);
    }
  }

  /** The same loop with LAST and PREV visits them in reverse order. */
  method Backward(mem: Memory, b: int, ghost h: Heap) returns (visited: seq<Node>)
    requires Holds(mem.words, LINK, h) && Headed(h, BrigadeSentinel(b))
    ensures var c := Contents(h, BrigadeSentinel(b));
            |visited| == |c| && forall i :: 0 <= i < |c| ==> visited[i] == c[|c| - 1 - i]
  {
    ghost var s, c := BrigadeSentinel(b), Contents(h, BrigadeSentinel(b));
    RingStep(h, [s] + c, |c|);
    NoDupSwap([s], c);
    assert s in [s] && s !in c;
    var e := mem.LastOf(b + LIST);
    visited := [];
    while e != BrigadeSentinel(b)
      invariant |visited| <= |c| && forall i :: 0 <= i < |visited| ==> visited[i] == c[|c| - 1 - i]
      invariant e == if |visited| < |c| then c[|c| - 1 - |visited|] else s
      decreases |c| - |visited|
    {
      RingStep(h, [s] + c, |c| - 1 - |visited|);
      visited := visited + [e];
      e := mem.Prev(LINK, e);
    }
  }

  /** CONCAT appends what a walk of the second brigade would visit to what a walk of the first would. */
  lemma WalkAfterConcat(h: Heap, s1: Node, s2: Node)
    requires Headed(h, s1) && Headed(h, s2)
    requires Disjoint([s1] + Contents(h, s1), [s2] + Contents(h, s2))
    ensures Joinable(h, s1, s2) && HeadWhole(h, s2)
    ensures Headed(Links.Concat(h, s1, s2), s1) && Headed(Links.Concat(h, s1, s2), s2)
    ensures Contents(Links.Concat(h, s1, s2), s1) == Contents(h, s1) + Contents(h, s2)
    ensures Contents(Links.Concat(h, s1, s2), s2) == []
    ensures SameOutside(h, Links.Concat(h, s1, s2),
                        NodesOf([s1] + Contents(h, s1)) + NodesOf([s2] + Contents(h, s2)))
  {
    var c1, c2 := Contents(h, s1), Contents(h, s2);
    ConcatRings(h, s1, c1, s2, c2);
    ContentsUnique(Links.Concat(h, s1, s2), s1, c1 + c2);
    assert [s2] + [] == [s2];
    ContentsUnique(Links.Concat(h, s1, s2), s2, []);
  }

  lemma WalkAfterPrepend(h: Heap, s1: Node, s2: Node)
    requires Headed(h, s1) && Headed(h, s2)
    requires Disjoint([s1] + Contents(h, s1), [s2] + Contents(h, s2))
    ensures Joinable(h, s1, s2) && HeadWhole(h, s2)
    ensures Headed(Links.Prepend(h, s1, s2), s1) && Headed(Links.Prepend(h, s1, s2), s2)
    ensures Contents(Links.Prepend(h, s1, s2), s1) == Contents(h, s2) + Contents(h, s1)
    ensures Contents(Links.Prepend(h, s1, s2), s2) == []
    ensures SameOutside(h, Links.Prepend(h, s1, s2),
                        NodesOf([s1] + Contents(h, s1)) + NodesOf([s2] + Contents(h, s2)))
  {
    var c1, c2 := Contents(h, s1), Contents(h, s2);
    PrependRings(h, s1, c1, s2, c2);
    ContentsUnique(Links.Prepend(h, s1, s2), s1, c2 + c1);
    assert [s2] + [] == [s2];
    ContentsUnique(Links.Prepend(h, s1, s2), s2, []);
  }

  /**
    APR_BRIGADE_INSERT_HEAD inserts one bucket, not the list of buckets its documentation speaks of:
    given the first of a chain it takes that one and leaves the rest behind, off every ring.
    */
  lemma InsertHeadTakesOne(h: Heap, s: Node, c: seq<Node>, e: Node, rest: seq<Node>)
    requires IsRing(h, [s] + c) && Chain(h, [e] + rest) && NoDup([s] + c + ([e] + rest)) && rest != []
    ensures var g := Expand(h, CallSpliceAfter(Elem(s), Elem(e), Elem(e)));
            && g.Some?
            && IsRing(g.value, [s] + ([e] + c))
            && Chain(g.value, rest) && Has(g.value, rest[0]) && g.value.prev[rest[0]] == e
            && OffRings(g.value, rest[0])
  {
    ChainJoin(h, [e], rest);
    NoDupSwap([s] + c, [e] + rest);
    NoDupSwap([e], rest);
    assert rest[0] in rest && e in [e];
    assert forall f :: f in rest || f == e ==> f in [e] + rest;
    NoDupJoin([s] + c, [e]);
    SpliceAfterRing(h, [s], c, [e]);
    assert [s] + [e] + c == [s] + ([e] + c);
    SpliceAfterByValue(h, s, e, e);
    var h' := SpliceAfter(h, s, e, e);
    ChainFrame(h, h', rest);
    RingStep(h', [s] + ([e] + c), 1);
    NoRingThrough(h', rest[0]);
  }

  // ---------- the brigade macros, with the checks of a debugging build ----------

  /** Memory holds the links `h`, which all lead somewhere. */
  ghost predicate Sound(words: map<int, int>, h: Heap) {
    Holds(words, LINK, h) && Closed(h)
  }

  /** `e` is a bucket that is not on the brigade. */
  ghost predicate Outside(h: Heap, b: int, e: Node)
    requires Headed(h, BrigadeSentinel(b))
  {
    Has(h, e) && e !in [BrigadeSentinel(b)] + Contents(h, BrigadeSentinel(b))
  }

  method InsertHead(mem: Memory, b: int, e: Node, ghost h: Heap) returns (v: Verdict, ghost g: Heap)
    requires Sound(mem.words, h) && Headed(h, BrigadeSentinel(b)) && Outside(h, b, e)
    modifies mem
    ensures v == Consistent && Sound(mem.words, g) && SameElsewhere(old(mem.words), mem.words, LINK, h.next.Keys)
    ensures Headed(g, BrigadeSentinel(b))
    ensures Contents(g, BrigadeSentinel(b)) == [e] + Contents(h, BrigadeSentinel(b))
    ensures SameOutside(h, g, NodesOf([BrigadeSentinel(b)] + Contents(h, BrigadeSentinel(b))) + {e})
  {
    Inserted(h, BrigadeSentinel(b), e);
    g := mem.InsertHead(LINK, b + LIST, Elem(e), h);
    v := Check(mem, LINK, b + LIST, g);
  }

  method InsertTail(mem: Memory, b: int, e: Node, ghost h: Heap) returns (v: Verdict, ghost g: Heap)
    requires Sound(mem.words, h) && Headed(h, BrigadeSentinel(b)) && Outside(h, b, e)
    modifies mem
    ensures v == Consistent && Sound(mem.words, g) && SameElsewhere(old(mem.words), mem.words, LINK, h.next.Keys)
    ensures Headed(g, BrigadeSentinel(b))
    ensures Contents(g, BrigadeSentinel(b)) == Contents(h, BrigadeSentinel(b)) + [e]
    ensures SameOutside(h, g, NodesOf([BrigadeSentinel(b)] + Contents(h, BrigadeSentinel(b))) + {e})
  {
    Inserted(h, BrigadeSentinel(b), e);
    g := mem.InsertTail(LINK, b + LIST, Elem(e), h);
    v := Check(mem, LINK, b + LIST, g);
  }

  /** The brigade is well-formed in `g` and has the contents `c`. */
  ghost predicate Holding(g: Option<Heap>, s: Node, c: seq<Node>) {
    && g.Some? && Closed(g.value) && Has(g.value, s)
    && Headed(g.value, s) && Contents(g.value, s) == c
  }

  lemma Inserted(h: Heap, s: Node, e: Node)
    requires Closed(h) && Headed(h, s) && Has(h, e) && e !in [s] + Contents(h, s)
    ensures Holding(Expand(h, CallSpliceAfter(Elem(s), Elem(e), Elem(e))), s, [e] + Contents(h, s))
    ensures Holding(Expand(h, CallSpliceBefore(Elem(s), Elem(e), Elem(e))), s, Contents(h, s) + [e])
    ensures var touched := NodesOf([s] + Contents(h, s)) + {e};
            && SameOutside(h, Expand(h, CallSpliceAfter(Elem(s), Elem(e), Elem(e))).value, touched)
            && SameOutside(h, Expand(h, CallSpliceBefore(Elem(s), Elem(e), Elem(e))).value, touched)
  {
    var m, n := CallSpliceAfter(Elem(s), Elem(e), Elem(e)), CallSpliceBefore(Elem(s), Elem(e), Elem(e));
    var c := Contents(h, s);
    InsertedAtEnds(h, s, c, e);
    ByValue(h, m);
    ByValue(h, n);
    RingNeighbours(h, [s] + c, s);
    ClosedKept(h, m);
    ClosedKept(h, n);
    ContentsUnique(Execute(h, m), s, [e] + c);
    ContentsUnique(Execute(h, n), s, c + [e]);
  }

  lemma InsertedAtEnds(h: Heap, s: Node, c: seq<Node>, e: Node)
    requires IsRing(h, [s] + c) && Has(h, e) && e !in [s] + c
    ensures var m := CallSpliceAfter(Elem(s), Elem(e), Elem(e));
            && Defined(h, m) && IsRing(Execute(h, m), [s] + ([e] + c))
            && SameOutside(h, Execute(h, m), NodesOf([s] + c) + {e})
    ensures var m := CallSpliceBefore(Elem(s), Elem(e), Elem(e));
            && Defined(h, m) && IsRing(Execute(h, m), [s] + (c + [e]))
            && SameOutside(h, Execute(h, m), NodesOf([s] + c) + {e})
  {
    NoDupJoin([s] + c, [e]);
    SpliceAfterRing(h, [s], c, [e]);
    assert [s] + [e] + c == [s] + ([e] + c);
    SpliceAtEnd(h, [s] + c, [e]);
    RingNeighbours(h, [s] + c, s);
    assert [s] + c + [e] == [s] + (c + [e]);
  }

  method Concat(mem: Memory, a: int, b: int, ghost h: Heap) returns (v: Verdict, ghost g: Heap)
    requires Sound(mem.words, h) && Headed(h, BrigadeSentinel(a)) && Headed(h, BrigadeSentinel(b))
    requires Disjoint([BrigadeSentinel(a)] + Contents(h, BrigadeSentinel(a)),
                      [BrigadeSentinel(b)] + Contents(h, BrigadeSentinel(b)))
    modifies mem
    ensures v == Consistent && Sound(mem.words, g) && SameElsewhere(old(mem.words), mem.words, LINK, h.next.Keys)
    ensures Headed(g, BrigadeSentinel(a)) && Headed(g, BrigadeSentinel(b))
    ensures Contents(g, BrigadeSentinel(a)) == Contents(h, BrigadeSentinel(a)) + Contents(h, BrigadeSentinel(b))
    ensures Contents(g, BrigadeSentinel(b)) == []
    ensures SameOutside(h, g, NodesOf([BrigadeSentinel(a)] + Contents(h, BrigadeSentinel(a)))
                            + NodesOf([BrigadeSentinel(b)] + Contents(h, BrigadeSentinel(b))))
  {
    ghost var m := CallConcat(BrigadeSentinel(a), BrigadeSentinel(b));
    WalkAfterConcat(h, BrigadeSentinel(a), BrigadeSentinel(b));
    ByValue(h, m);
    ClosedKept(h, m);
    g := mem.Concat(LINK, a + LIST, b + LIST, h);
    v := Check(mem, LINK, a + LIST, g);
  }

  method Prepend(mem: Memory, a: int, b: int, ghost h: Heap) returns (v: Verdict, ghost g: Heap)
    requires Sound(mem.words, h) && Headed(h, BrigadeSentinel(a)) && Headed(h, BrigadeSentinel(b))
    requires Disjoint([BrigadeSentinel(a)] + Contents(h, BrigadeSentinel(a)),
                      [BrigadeSentinel(b)] + Contents(h, BrigadeSentinel(b)))
    modifies mem
    ensures v == Consistent && Sound(mem.words, g) && SameElsewhere(old(mem.words), mem.words, LINK, h.next.Keys)
    ensures Headed(g, BrigadeSentinel(a)) && Headed(g, BrigadeSentinel(b))
    ensures Contents(g, BrigadeSentinel(a)) == Contents(h, BrigadeSentinel(b)) + Contents(h, BrigadeSentinel(a))
    ensures Contents(g, BrigadeSentinel(b)) == []
    ensures SameOutside(h, g, NodesOf([BrigadeSentinel(a)] + Contents(h, BrigadeSentinel(a)))
                            + NodesOf([BrigadeSentinel(b)] + Contents(h, BrigadeSentinel(b))))
  {
    ghost var m := CallPrepend(BrigadeSentinel(a), BrigadeSentinel(b));
    WalkAfterPrepend(h, BrigadeSentinel(a), BrigadeSentinel(b));
    ByValue(h, m);
    ClosedKept(h, m);
    g := mem.Prepend(LINK, a + LIST, b + LIST, h);
    v := Check(mem, LINK, a + LIST, g);
  }

  // ---------- deleting buckets ----------

  /** The words of a bucket. */
  predicate InBucket(e: Node, a: int) {
    e <= a < e + BUCKET_SIZE
  }

  /** A bucket is allocated, and so is the table of its type. */
  predicate IsBucket(words: map<int, int>, e: Node) {
    && e in words && e + 1 in words && e + 2 in words && e + 3 in words
    && e + 4 in words && e + 5 in words && e + 6 in words && e + 7 in words
    && words[e + TYPE] + TYPE_DESTROY in words
  }

  /** The word of a bucket's type table that holds its destroy function. */
  function Table(words: map<int, int>, e: Node): int
    requires IsBucket(words, e)
  {
    words[e + TYPE] + TYPE_DESTROY
  }

  /** The links of other nodes lie outside of the bucket, and the table of its type is no link. */
  ghost predicate Separate(words: map<int, int>, h: Heap, e: Node)
    requires IsBucket(words, e)
  {
    var t := Table(words, e);
    && (forall n :: n in h.next && n != e ==> n + 1 < e || e + BUCKET_SIZE <= n)
    && !IsLink(LINK, h.next.Keys, t)
  }

  /** The calls by which a bucket ends. */
  function Deaths(words: map<int, int>, e: Node): seq<Event>
    requires IsBucket(words, e)
  {
    [Destroyed(words[Table(words, e)], words[e + DATA]), Freed(words[e + FREE], e)]
  }

  function Without(h: Heap, e: Node): Heap {
    Heap(h.next - {e}, h.prev - {e})
  }

  /** Memory after a bucket is freed: its words are gone. */
  function Released(words: map<int, int>, e: Node): map<int, int> {
    map a | a in words && !InBucket(e, a) :: words[a]
  }

  /**
    apr_bucket_destroy: the type's destroy function on the data, then the bucket's own free function.
    The argument is read each time it is written; nothing writes a link in between.
    */
  method Destroy(mem: Memory, e: Arg, ghost h: Heap) returns (log: seq<Event>)
    requires Holds(mem.words, LINK, h) && Readable(h, e) && IsBucket(mem.words, Eval(h, e))
    modifies mem
    ensures var words, v := old(mem.words), Eval(h, e);
            && |log| == 2
            && log[0] == Destroyed(words[words[v + TYPE] + TYPE_DESTROY], words[v + DATA])
            && log[1] == Freed(words[v + FREE], v)
            && mem.words == map a | a in words && !(v <= a < v + BUCKET_SIZE) :: words[a]
  {
    var e1 := mem.Read(LINK, e, h);
    var e2 := mem.Read(LINK, e, h);
    log := [Destroyed(mem.words[Table(mem.words, e1)], mem.words[e2 + DATA])];
    e1 := mem.Read(LINK, e, h);
    e2 := mem.Read(LINK, e, h);
    log := log + [Freed(mem.words[e1 + FREE], e2)];
    mem.words := Released(mem.words, e2);
  }

  lemma HoldsAfterRelease(words: map<int, int>, g: Heap, e: Node)
    requires Holds(words, LINK, g)
    requires forall n :: n in g.next && n != e ==> n + 1 < e || e + BUCKET_SIZE <= n
    ensures Holds(Released(words, e), LINK, Without(g, e))
  {
  }

  lemma BodyUntouched(words: map<int, int>, words': map<int, int>, h: Heap, e: Node)
    requires IsBucket(words, e) && Separate(words, h, e)
    requires SameElsewhere(words, words', LINK, h.next.Keys)
    ensures IsBucket(words', e)
    ensures words'[e + TYPE] == words[e + TYPE] && words'[e + DATA] == words[e + DATA]
    ensures words'[e + FREE] == words[e + FREE] && words'[Table(words, e)] == words[Table(words, e)]
  {
    assert !IsLink(LINK, h.next.Keys, e + TYPE);
    assert !IsLink(LINK, h.next.Keys, e + DATA);
    assert !IsLink(LINK, h.next.Keys, e + FREE);
    assert words'[e + TYPE] == words[e + TYPE] && words'[e + DATA] == words[e + DATA];
    assert words'[e + FREE] == words[e + FREE];
    var t := Table(words, e);
    assert !IsLink(LINK, h.next.Keys, t);
  }

  /** Links are changed, then a bucket is freed. */
  lemma FreedWords(words: map<int, int>, words1: map<int, int>, words': map<int, int>, nodes: set<Node>, e: Node)
    requires SameElsewhere(words, words1, LINK, nodes)
    requires words' == Released(words1, e)
    ensures forall a {:trigger a in words'} :: a in words' <==> a in words && !(e <= a < e + BUCKET_SIZE)
    ensures SameBut(words, words', LINK, nodes)
  {
    forall a | a in words' && !IsLink(LINK, nodes, a)
      ensures a in words && words'[a] == words[a]
    {
      assert a in words1;
    }
  }

  /** The bucket that apr_bucket_delete destroys: what its argument denotes once REMOVE is done. */
  ghost function Victim(h: Heap, e: Arg): Node
    requires Expand(h, CallRemove(e)).Some? && Readable(Expand(h, CallRemove(e)).value, e)
  {
    Eval(Expand(h, CallRemove(e)).value, e)
  }

  /** apr_bucket_delete: REMOVE of the argument, then apr_bucket_destroy of the argument, read again. */
  method Delete(mem: Memory, e: Arg, ghost h: Heap) returns (log: seq<Event>, ghost g: Heap)
    requires Holds(mem.words, LINK, h) && Expand(h, CallRemove(e)).Some?
    requires Readable(Expand(h, CallRemove(e)).value, e)
    requires IsBucket(mem.words, Victim(h, e)) && Separate(mem.words, h, Victim(h, e))
    modifies mem
    ensures var words, v := old(mem.words), Victim(h, e);
            && |log| == 2
            && log[0] == Destroyed(words[words[v + TYPE] + TYPE_DESTROY], words[v + DATA])
            && log[1] == Freed(words[v + FREE], v)
            && forall a {:trigger a in mem.words} :: a in mem.words <==> a in words && !(v <= a < v + BUCKET_SIZE)
    ensures SameBut(old(mem.words), mem.words, LINK, h.next.Keys)
    ensures g == Without(Expand(h, CallRemove(e)).value, Victim(h, e)) && Holds(mem.words, LINK, g)
  {
    g := mem.Remove(LINK, e, h);
    ghost var words, v := mem.words, Victim(h, e);
    BodyUntouched(old(mem.words), words, h, v);
    log := Destroy(mem, e, g);
    assert mem.words == Released(words, v);
    FreedWords(old(mem.words), words, mem.words, h.next.Keys, v);
    HoldsAfterRelease(words, g, v);
    g := Without(g, v);
  }

  /** With a variable as the argument it deletes that bucket. */
  lemma DeleteVariable(h: Heap, e: Node)
    requires Defined(h, CallRemove(Elem(e)))
    ensures Expand(h, CallRemove(Elem(e))) == Some(Unsplice(h, e, e)) && Victim(h, Elem(e)) == e
  {
    UnspliceByValue(h, e, e);
  }

  /**
    apr_bucket_delete(APR_BRIGADE_FIRST(b)), as written, never deletes the first bucket: on every
    brigade that has one it destroys the next bucket, or the sentinel, and leaves the head on no ring.
    */
  lemma DeleteFirst(h: Heap, s: Node, c: seq<Node>)
    requires IsRing(h, [s] + c) && c != []
    ensures Expand(h, CallRemove(NextOf(Elem(s)))).Some?
    ensures var g := Expand(h, CallRemove(NextOf(Elem(s)))).value;
            OffRings(g, s) && Readable(g, NextOf(Elem(s)))
    ensures Victim(h, NextOf(Elem(s))) == (if |c| > 1 then c[1] else s) != c[0]
  {
    var r := [s] + c;
    RemoveNextBreaks(h, s, c);
    RingStep(h, r, 0);
    RingStep(h, r, 1);
    RingNeighbours(h, r, h.next[c[0]]);
    RemoveNextText(h, s, c[0], h.next[c[0]]);
    ReadLinks(Expand(h, CallRemove(NextOf(Elem(s)))).value, s);
    NoDupSwap([s], c);
    assert s in [s] && c[0] in c;
  }

  /**
    apr_bucket_delete(APR_BRIGADE_LAST(b)) does remove the last bucket, but destroys the one before it,
    or the sentinel, which is still on the ring.
    */
  lemma DeleteLast(h: Heap, s: Node, c: seq<Node>)
    requires IsRing(h, [s] + c) && c != []
    ensures Expand(h, CallRemove(PrevOf(Elem(s)))).Some?
    ensures var g := Expand(h, CallRemove(PrevOf(Elem(s)))).value;
            IsRing(g, [s] + c[..|c| - 1]) && Readable(g, PrevOf(Elem(s)))
    ensures Victim(h, PrevOf(Elem(s))) == Last([s] + c[..|c| - 1]) != Last(c)
  {
    var k := [s] + c[..|c| - 1];
    assert [s] + c == k + [Last(c)] == k + [Last(c)] + [];
    RemovePrev(h, s, c);
    RingStep(h, [s] + c, |c|);
    ReadLinks(h, s);
    UnspliceRing(h, k, [Last(c)], []);
    assert k + [] == k;
    var g := Expand(h, CallRemove(PrevOf(Elem(s)))).value;
    RingWhole(g, k);
    ReadLinks(g, s);
    assert Last([] + k) == Last(k);
    NoDupSwap(k, [Last(c)]);
    assert Last(k) in k && Last(c) in [Last(c)];
  }

  // ---------- emptying a brigade ----------

  /** Two calls for each of the first `i` buckets, in order. */
  ghost predicate Recorded(words: map<int, int>, log: seq<Event>, c: seq<Node>, i: nat)
    requires i <= |c|
    requires forall e {:trigger IsBucket(words, e)} :: e in c ==> IsBucket(words, e)
  {
    && |log| == 2 * i
    && forall k {:trigger c[k]} :: 0 <= k < i ==>
       IsBucket(words, c[k]) && log[2 * k..2 * k + 2] == Deaths(words, c[k])
  }

  lemma RecordNext(words: map<int, int>, log: seq<Event>, events: seq<Event>, c: seq<Node>, i: nat)
    requires i < |c|
    requires forall e {:trigger IsBucket(words, e)} :: e in c ==> IsBucket(words, e)
    requires Recorded(words, log, c, i) && IsBucket(words, c[i]) && events == Deaths(words, c[i])
    ensures Recorded(words, log + events, c, i + 1)
  {
    var longer := log + events;
    forall k {:trigger c[k]} | 0 <= k < i + 1
      ensures IsBucket(words, c[k]) && longer[2 * k..2 * k + 2] == Deaths(words, c[k])
    {
      if k < i {
        assert longer[2 * k..2 * k + 2] == log[2 * k..2 * k + 2];
      } else {
        assert longer[2 * k..2 * k + 2] == events;
      }
    }
  }

  lemma RecordRead(words: map<int, int>, log: seq<Event>, c: seq<Node>)
    requires forall e {:trigger IsBucket(words, e)} :: e in c ==> IsBucket(words, e)
    requires Recorded(words, log, c, |c|)
    ensures |log| == 2 * |c|
    ensures forall i {:trigger c[i]} :: 0 <= i < |c| ==>
            && IsBucket(words, c[i])
            && log[2 * i] == Destroyed(words[words[c[i] + TYPE] + TYPE_DESTROY], words[c[i] + DATA])
            && log[2 * i + 1] == Freed(words[c[i] + FREE], c[i])
  {
    forall i {:trigger c[i]} | 0 <= i < |c|
      ensures IsBucket(words, c[i])
      ensures log[2 * i] == Destroyed(words[words[c[i] + TYPE] + TYPE_DESTROY], words[c[i] + DATA])
      ensures log[2 * i + 1] == Freed(words[c[i] + FREE], c[i])
    {
      var two := log[2 * i..2 * i + 2];
      assert two == Deaths(words, c[i]);
      assert two[0] == log[2 * i] && two[1] == log[2 * i + 1];
    }
  }

  ghost predicate InSome(c: seq<Node>, a: int) {
    exists e :: e in c && InBucket(e, a)
  }

  /** Buckets in order on one brigade, none overlapping another or the type tables. */
  ghost predicate Buckets(words: map<int, int>, h: Heap, c: seq<Node>) {
    && (forall e {:trigger IsBucket(words, e)} :: e in c ==> IsBucket(words, e))
    && (forall e {:trigger Separate(words, h, e)} :: e in c ==> IsBucket(words, e) && Separate(words, h, e))
    && (forall e, f {:trigger InBucket(e, Table(words, f))} :: e in c && f in c ==>
        IsBucket(words, f) && !InBucket(e, Table(words, f)))
  }

  /** The links when the first `i` buckets are gone: only the sentinel's and the remaining buckets' may differ. */
  ghost predicate DrainedLinks(h: Heap, g: Heap, s: Node, c: seq<Node>, i: nat)
    requires i <= |c|
  {
    && IsRing(g, [s] + c[i..])
    && g.next.Keys == h.next.Keys - NodesOf(c[..i])
    && (forall n :: n in g.next && n != s && n !in c ==>
        Has(h, n) && Has(g, n) && g.next[n] == h.next[n] && g.prev[n] == h.prev[n])
  }

  ghost predicate DrainedWords(words0: map<int, int>, words: map<int, int>, h: Heap, c: seq<Node>, i: nat)
    requires i <= |c|
  {
    && (forall a {:trigger a in words} :: a in words <==> a in words0 && !InSome(c[..i], a))
    && SameBut(words0, words, LINK, h.next.Keys)
  }

  /** The remaining buckets are as they were. */
  ghost predicate DrainedBuckets(words0: map<int, int>, words: map<int, int>, g: Heap, c: seq<Node>, i: nat)
    requires i <= |c|
  {
    && Buckets(words, g, c[i..])
    && (forall f {:trigger IsBucket(words0, f)} :: f in c ==> IsBucket(words0, f))
    && (forall f {:trigger Deaths(words, f)} :: f in c[i..] ==>
        IsBucket(words, f) && IsBucket(words0, f) && Deaths(words, f) == Deaths(words0, f))
  }

  lemma Survivor(words: map<int, int>, words': map<int, int>, g: Heap, e: Node, f: Node)
    requires IsBucket(words, e) && Separate(words, g, e) && IsBucket(words, f) && Separate(words, g, f)
    requires e in g.next && f in g.next && e != f && !InBucket(e, Table(words, f))
    requires words'.Keys == Released(words, e).Keys
    requires SameBut(words, words', LINK, g.next.Keys)
    ensures IsBucket(words', f) && words'[f + TYPE] == words[f + TYPE] && Deaths(words', f) == Deaths(words, f)
  {
    assert f + BUCKET_SIZE <= e || e + BUCKET_SIZE <= f;
    assert forall a :: a in words' <==> a in words && !InBucket(e, a);
    assert !IsLink(LINK, g.next.Keys, f + TYPE);
    assert !IsLink(LINK, g.next.Keys, f + DATA);
    assert !IsLink(LINK, g.next.Keys, f + FREE);
  }

  lemma RingWithout(g: Heap, c: seq<Node>, e: Node)
    requires IsRing(g, c) && e !in c
    ensures IsRing(Without(g, e), c)
  {
    RingWhole(g, c);
    ChainFrame(g, Without(g, e), c);
    RingWhole(Without(g, e), c);
  }

  lemma DrainLinksStep(h: Heap, g: Heap, s: Node, c: seq<Node>, i: nat)
    requires i < |c| && NoDup(c) && s !in c && DrainedLinks(h, g, s, c, i)
    requires g.next.Keys == g.prev.Keys
    ensures Defined(g, CallRemove(Elem(c[i])))
    ensures DrainedLinks(h, Without(Unsplice(g, c[i], c[i]), c[i]), s, c, i + 1)
  {
    var e, r, r' := c[i], c[i..], c[i + 1..];
    assert r == [e] + r' && c[..i + 1] == c[..i] + [e];
    assert [s] + r == [s] + [e] + r';
    assert forall f :: f in r' + [s] ==> f in c || f == s;
    FirstDropped(g, s, e, r');
  }

  /** The first bucket taken out of a ring and forgotten. */
  lemma FirstDropped(g: Heap, s: Node, e: Node, r: seq<Node>)
    requires IsRing(g, [s] + [e] + r) && g.next.Keys == g.prev.Keys
    ensures Defined(g, CallRemove(Elem(e)))
    ensures var g' := Without(Unsplice(g, e, e), e);
            && IsRing(g', [s] + r) && g'.next.Keys == g.next.Keys - {e}
            && forall n :: n in g'.next && n !in r + [s] ==>
               Has(g', n) && g'.next[n] == g.next[n] && g'.prev[n] == g.prev[n]
  {
    UnspliceRing(g, [s], [e], r);
    NoDupSwap([s] + r, [e]);
    assert e in [e];
    RingWithout(Unsplice(g, e, e), [s] + r, e);
    assert Last(r + [s]) in r + [s] && (r + [s])[0] in r + [s];
  }

  lemma DrainWordsStep(words0: map<int, int>, words: map<int, int>, words': map<int, int>,
                       h: Heap, keys: set<Node>, c: seq<Node>, i: nat)
    requires i < |c| && DrainedWords(words0, words, h, c, i)
    requires keys <= h.next.Keys
    requires words'.Keys == Released(words, c[i]).Keys
    requires SameBut(words, words', LINK, keys)
    ensures DrainedWords(words0, words', h, c, i + 1)
  {
    assert c[..i + 1] == c[..i] + [c[i]];
    forall a
      ensures InSome(c[..i + 1], a) <==> InSome(c[..i], a) || InBucket(c[i], a)
    {
      if InBucket(c[i], a) {
        assert c[i] in c[..i + 1];
      }
    }
    assert forall a :: a in words' <==> a in words && !InBucket(c[i], a);
    forall a | a in words' && !IsLink(LINK, h.next.Keys, a)
      ensures a in words0 && words'[a] == words0[a]
    {
      assert !IsLink(LINK, keys, a);
    }
  }

  lemma DrainBucketsStep(words0: map<int, int>, words: map<int, int>, words': map<int, int>,
                         g: Heap, g': Heap, c: seq<Node>, i: nat)
    requires i < |c| && NoDup(c) && DrainedBuckets(words0, words, g, c, i)
    requires forall f :: f in c[i..] ==> f in g.next
    requires g'.next.Keys <= g.next.Keys
    requires words'.Keys == Released(words, c[i]).Keys
    requires SameBut(words, words', LINK, g.next.Keys)
    ensures DrainedBuckets(words0, words', g', c, i + 1)
  {
    var e := c[i];
    assert c[i..] == [e] + c[i + 1..];
    assert e in c[i..];
    forall f | f in c[i + 1..]
      ensures IsBucket(words', f) && words'[f + TYPE] == words[f + TYPE] && IsBucket(words, f)
      ensures IsBucket(words0, f) && Deaths(words', f) == Deaths(words0, f)
      ensures Separate(words', g', f)
    {
      assert f in c[i..] && f in c && f != e;
      assert IsBucket(words, e) && Separate(words, g, e) && IsBucket(words, f) && Separate(words, g, f);
      assert !InBucket(e, Table(words, f)) && Deaths(words, f) == Deaths(words0, f);
      Survivor(words, words', g, e, f);
    }
    forall f, f' | f in c[i + 1..] && f' in c[i + 1..]
      ensures !InBucket(f, Table(words', f'))
    {
      assert f in c[i..] && f' in c[i..];
      assert !InBucket(f, Table(words, f'));
    }
  }

  /** The situation when the first `i` buckets are gone. */
  ghost predicate Drained(words0: map<int, int>, words: map<int, int>, h: Heap, g: Heap, s: Node, c: seq<Node>, i: nat)
    requires i <= |c|
  {
    && Holds(words, LINK, g)
    && DrainedLinks(h, g, s, c, i)
    && DrainedWords(words0, words, h, c, i)
    && DrainedBuckets(words0, words, g, c, i)
  }

  /** What the head of the brigade says in this situation. */
  lemma DrainFront(words0: map<int, int>, words: map<int, int>, h: Heap, g: Heap, b: int, c: seq<Node>, i: nat)
    requires i <= |c| && Drained(words0, words, h, g, BrigadeSentinel(b), c, i)
    ensures b + LIST in words && (words[b + LIST] == BrigadeSentinel(b) <==> i == |c|)
    ensures i < |c| ==> words[b + LIST] == c[i]
    ensures forall f :: f in c[i..] ==> f in g.next
  {
    var s, r := BrigadeSentinel(b), c[i..];
    ContentsUnique(g, s, r);
    RingStep(g, [s] + r, 0);
    forall f | f in r
      ensures f in g.next
    {
      assert f in [s] + r;
      RingNeighbours(g, [s] + r, f);
    }
  }

  lemma DrainReady(words0: map<int, int>, words: map<int, int>, h: Heap, g: Heap, b: int, c: seq<Node>, i: nat)
    requires i < |c| && NoDup(c) && BrigadeSentinel(b) !in c
    requires Drained(words0, words, h, g, BrigadeSentinel(b), c, i)
    ensures b + LIST in words && words[b + LIST] == c[i]
    ensures forall f :: f in c[i..] ==> f in g.next
    ensures IsBucket(words0, c[i]) && IsBucket(words, c[i]) && Separate(words, g, c[i])
    ensures Deaths(words, c[i]) == Deaths(words0, c[i])
    ensures Defined(g, CallRemove(Elem(c[i])))
    ensures DrainedLinks(h, Without(Unsplice(g, c[i], c[i]), c[i]), BrigadeSentinel(b), c, i + 1)
  {
    DrainFront(words0, words, h, g, b, c, i);
    DrainLinksStep(h, g, BrigadeSentinel(b), c, i);
    assert c[i] in c[i..] && c[i] in c;
  }

  lemma WordsGone(words: map<int, int>, words': map<int, int>, e: Node)
    requires forall a {:trigger a in words'} :: a in words' <==> a in words && !(e <= a < e + BUCKET_SIZE)
    ensures words'.Keys == Released(words, e).Keys
  {
    forall a
      ensures a in words'.Keys <==> a in Released(words, e).Keys
    {
      assert a in words' <==> a in words && !InBucket(e, a);
    }
  }

  /** Deleting a bucket that is bound to a variable. */
  method DeleteBound(mem: Memory, e: Node, ghost h: Heap) returns (log: seq<Event>, ghost g: Heap)
    requires Holds(mem.words, LINK, h) && Defined(h, CallRemove(Elem(e)))
    requires IsBucket(mem.words, e) && Separate(mem.words, h, e)
    modifies mem
    ensures log == Deaths(old(mem.words), e) && mem.words.Keys == Released(old(mem.words), e).Keys
    ensures SameBut(old(mem.words), mem.words, LINK, h.next.Keys)
    ensures g == Without(Unsplice(h, e, e), e) && Holds(mem.words, LINK, g)
  {
    DeleteVariable(h, e);
    log, g := Delete(mem, Elem(e), h);
    WordsGone(old(mem.words), mem.words, e);
  }

  /** One turn of the loop: the first bucket is bound to a variable and deleted. */
  method DeleteNext(mem: Memory, b: int, ghost words0: map<int, int>, ghost h: Heap, ghost g: Heap, ghost c: seq<Node>,
                    ghost i: nat)
    returns (log: seq<Event>, ghost g': Heap)
    requires i < |c| && NoDup(c) && BrigadeSentinel(b) !in c
    requires Drained(words0, mem.words, h, g, BrigadeSentinel(b), c, i)
    modifies mem
    ensures Drained(words0, mem.words, h, g', BrigadeSentinel(b), c, i + 1)
    ensures IsBucket(words0, c[i]) && log == Deaths(words0, c[i])
    ensures b + LIST in mem.words && (mem.words[b + LIST] == BrigadeSentinel(b) <==> i + 1 == |c|)
  {
    ghost var s, words := BrigadeSentinel(b), mem.words;
    DrainReady(words0, words, h, g, b, c, i);
    var e := mem.First(b + LIST);
    log, g' := DeleteBound(mem, e, g);
    DrainWordsStep(words0, words, mem.words, h, g.next.Keys, c, i);
    DrainBucketsStep(words0, words, mem.words, g, g', c, i);
    DrainFront(words0, mem.words, h, g', b, c, i + 1);
  }

  /**
    Deleting the first bucket until the brigade is empty: every bucket is destroyed and freed once, in
    order, nothing is read after it is freed, and no other node's links and no other word changes.
    */
  method Cleanup(mem: Memory, b: int, ghost h: Heap, ghost c: seq<Node>) returns (log: seq<Event>, ghost g: Heap)
    requires Holds(mem.words, LINK, h) && IsRing(h, [BrigadeSentinel(b)] + c) && Buckets(mem.words, h, c)
    modifies mem
    ensures |log| == 2 * |c|
    ensures var words := old(mem.words);
            forall i {:trigger c[i]} :: 0 <= i < |c| ==>
            && IsBucket(words, c[i])
            && log[2 * i] == Destroyed(words[words[c[i] + TYPE] + TYPE_DESTROY], words[c[i] + DATA])
            && log[2 * i + 1] == Freed(words[c[i] + FREE], c[i])
    ensures Holds(mem.words, LINK, g) && IsRing(g, [BrigadeSentinel(b)])
    ensures g.next.Keys == h.next.Keys - NodesOf(c)
    ensures forall n :: n in g.next && n != BrigadeSentinel(b) ==>
            Has(h, n) && Has(g, n) && g.next[n] == h.next[n] && g.prev[n] == h.prev[n]
    ensures forall a {:trigger a in mem.words} ::
            a in mem.words <==> a in old(mem.words) && forall e :: e in c ==> !(e <= a < e + BUCKET_SIZE)
    ensures SameBut(old(mem.words), mem.words, LINK, h.next.Keys)
  {
    ghost var s, i, words0 := BrigadeSentinel(b), 0, mem.words;
    g := h;
    log := [];
    DrainStart(words0, h, s, c);
    DrainFront(words0, words0, h, h, b, c, 0);
    while !mem.Empty(LINK, b + LIST)
      invariant i <= |c| && b + LIST in mem.words && Drained(words0, mem.words, h, g, s, c, i)
      invariant mem.words[b + LIST] == s <==> i == |c|
      invariant Recorded(words0, log, c, i)
      decreases |c| - i
    {
      var events;
      events, g := DeleteNext(mem, b, words0, h, g, c, i);
      RecordNext(words0, log, events, c, i);
      log := log + events;
      i := i + 1;
    }
    RecordRead(words0, log, c);
    DrainEnd(words0, mem.words, h, g, s, c);
  }

  lemma DrainStart(words: map<int, int>, h: Heap, s: Node, c: seq<Node>)
    requires Holds(words, LINK, h) && IsRing(h, [s] + c) && Buckets(words, h, c)
    ensures Drained(words, words, h, h, s, c, 0) && NoDup(c) && s !in c
    ensures forall e {:trigger IsBucket(words, e)} :: e in c ==> IsBucket(words, e)
  {
    NoDupSwap([s], c);
    assert s in [s] && c[0..] == c && c[..0] == [];
  }

  lemma DrainEnd(words0: map<int, int>, words: map<int, int>, h: Heap, g: Heap, s: Node, c: seq<Node>)
    requires Drained(words0, words, h, g, s, c, |c|)
    ensures IsRing(g, [s]) && g.next.Keys == h.next.Keys - NodesOf(c)
    ensures forall n :: n in g.next && n != s ==>
            Has(h, n) && Has(g, n) && g.next[n] == h.next[n] && g.prev[n] == h.prev[n]
    ensures forall a {:trigger a in words} ::
            a in words <==> a in words0 && forall e :: e in c ==> !(e <= a < e + BUCKET_SIZE)
    ensures SameBut(words0, words, LINK, h.next.Keys)
  {
    assert c[..|c|] == c && [s] + c[|c|..] == [s];
  }
}
