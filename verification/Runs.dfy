/**
  Whole runs.  An abstract state is a collection of rings and loose chains; every run of macros on
  the links simulates the same run on the abstract state.
  */
module Runs {
  import opened Links
  import opened Macros
  import opened Wrappers

  // ---------- lines: rings and loose chains ----------

  /** No line is empty and no node occurs twice, on one line or on two. */
  ghost predicate Tidy(p: set<seq<Node>>) {
    && (forall c :: c in p ==> c != [] && NoDup(c))
    && (forall c, d :: c in p && d in p && c != d ==> Disjoint(c, d))
  }

  lemma Replace(p: set<seq<Node>>, q: set<seq<Node>>, q': set<seq<Node>>)
    requires Tidy(p) && q <= p && Tidy(q') && Elements(q') == Elements(q)
    ensures Tidy(p - q + q') && (p - q) !! q' && Elements(p - q + q') == Elements(p)
  {
    forall c, d | c in p - q && d in q'
      ensures Disjoint(c, d) && Disjoint(d, c) && c != d
    {
      forall e | e in d
        ensures e !in c
      {
        assert e in Elements(q');
        var f :| f in q && e in f;
        assert Disjoint(f, c);
      }
      assert d[0] in d;
    }
    forall e | e in Elements(p)
      ensures e in Elements(p - q + q')
    {
      var c :| c in p && e in c;
      if c in q {
        assert e in Elements(q);
        var d :| d in q' && e in d;
      }
    }
    forall e | e in Elements(p - q + q')
      ensures e in Elements(p)
    {
      var c :| c in p - q + q' && e in c;
      if c in q' {
        assert e in Elements(q');
        var d :| d in q && e in d;
      }
    }
  }

  /** What the macros are for: a collection of rings, a head before its elements, and of loose chains. */
  datatype State = State(rings: set<seq<Node>>, loose: set<seq<Node>>)

  ghost predicate Inv(h: Heap, a: State) {
    && a.rings !! a.loose
    && Tidy(a.rings + a.loose)
    && (forall c :: c in a.rings ==> IsRing(h, c))
    && (forall c :: c in a.loose ==> Chain(h, c))
  }

  function All(a: State): set<Node> {
    Elements(a.rings + a.loose)
  }

  /** Replacing some lines by others with the same nodes; the other lines are not touched. */
  lemma Rewrite(h: Heap, h': Heap, a: State, before: State, after: State)
    requires Inv(h, a) && before.rings <= a.rings && before.loose <= a.loose
    requires Inv(h', after) && All(after) == All(before)
    requires SameOutside(h, h', All(before))
    ensures var a' := State(a.rings - before.rings + after.rings, a.loose - before.loose + after.loose);
            Inv(h', a') && All(a') == All(a)
  {
    var p, q, q' := a.rings + a.loose, before.rings + before.loose, after.rings + after.loose;
    Replace(p, q, q');
    var a' := State(a.rings - before.rings + after.rings, a.loose - before.loose + after.loose);
    assert a'.rings + a'.loose == p - q + q';
    forall c, e | c in p - q && e in All(before)
      ensures e !in c
    {
      var d :| d in q && e in d;
      assert Disjoint(d, c);
    }
    forall c | c in a.rings - before.rings
      ensures IsRing(h', c)
    {
      assert c in p - q;
      RingFrame(h, h', c, All(before));
    }
    forall c | c in a.loose - before.loose
      ensures Chain(h', c)
    {
      assert c in p - q;
      ChainFrame(h, h', c);
    }
  }

  /**
    A command says where on which lines a macro is used.  `Turn` starts a ring at another node and
    `Divide` looks at a chain as two; neither writes anything.
    */
  datatype Command =
    | SelfLink(e: Node)
    | Reset(s: Node, c: seq<Node>)
    | SpliceInBefore(x: seq<Node>, y: seq<Node>, c: seq<Node>)
    | SpliceInAfter(x: seq<Node>, y: seq<Node>, c: seq<Node>)
    | TakeOut(x: seq<Node>, c: seq<Node>, y: seq<Node>)
    | Join(s1: Node, c1: seq<Node>, s2: Node, c2: seq<Node>)
    | JoinFront(s1: Node, c1: seq<Node>, s2: Node, c2: seq<Node>)
    | Turn(x: seq<Node>, y: seq<Node>)
    | Divide(x: seq<Node>, y: seq<Node>)

  /** A chain to be spliced in is loose, or it is an entire other ring. */
  ghost predicate Free(a: State, ring: seq<Node>, c: seq<Node>) {
    c in a.loose || (c in a.rings && c != ring)
  }

  ghost predicate Enabled(a: State, cmd: Command) {
    match cmd
    case SelfLink(e) => [e] in a.loose
    case Reset(s, c) => [s] + c in a.rings
    case SpliceInBefore(x, y, c) => x + y in a.rings && y != [] && Free(a, x + y, c)
    case SpliceInAfter(x, y, c) => x + y in a.rings && x != [] && Free(a, x + y, c)
    case TakeOut(x, c, y) => x + c + y in a.rings && c != [] && x + y != []
    case Join(s1, c1, s2, c2) => [s1] + c1 in a.rings && [s2] + c2 in a.rings && s1 != s2
    case JoinFront(s1, c1, s2, c2) => [s1] + c1 in a.rings && [s2] + c2 in a.rings && s1 != s2
    case Turn(x, y) => x + y in a.rings
    case Divide(x, y) => x + y in a.loose && x != [] && y != []
  }

  /** The lines the command replaces and what it replaces them by. */
  function Change(cmd: Command): (State, State) {
    match cmd
    case SelfLink(e) => (State({}, {[e]}), State({[e]}, {}))
    case Reset(s, c) => (State({[s] + c}, {}), State({[s]}, if c == [] then {} else {c}))
    case SpliceInBefore(x, y, c) => (State({x + y, c}, {c}), State({x + c + y}, {}))
    case SpliceInAfter(x, y, c) => (State({x + y, c}, {c}), State({x + c + y}, {}))
    case TakeOut(x, c, y) => (State({x + c + y}, {}), State({x + y}, {c}))
    case Join(s1, c1, s2, c2) =>
      (State({[s1] + c1, [s2] + c2}, {}), State({[s1] + (c1 + c2), [s2]}, {}))
    case JoinFront(s1, c1, s2, c2) =>
      (State({[s1] + c1, [s2] + c2}, {}), State({[s1] + (c2 + c1), [s2]}, {}))
    case Turn(x, y) => (State({x + y}, {}), State({y + x}, {}))
    case Divide(x, y) => (State({}, {x + y}), State({}, {x, y}))
  }

  function Step(a: State, cmd: Command): State {
    var (before, after) := Change(cmd);
    State(a.rings - before.rings + after.rings, a.loose - before.loose + after.loose)
  }

  /** The macro calls, with variables as arguments. */
  function Calls(cmd: Command): seq<Macro> {
    match cmd
    case SelfLink(e) => [CallInit(Elem(e))]
    case Reset(s, c) => [CallInit(Elem(s))]
    case SpliceInBefore(x, y, c) =>
      if y == [] || c == [] then [] else [CallSpliceBefore(Elem(y[0]), Elem(c[0]), Elem(Last(c)))]
    case SpliceInAfter(x, y, c) =>
      if x == [] || c == [] then [] else [CallSpliceAfter(Elem(Last(x)), Elem(c[0]), Elem(Last(c)))]
    case TakeOut(x, c, y) => if c == [] then [] else [CallUnsplice(Elem(c[0]), Elem(Last(c)))]
    case Join(s1, c1, s2, c2) => [CallConcat(s1, s2)]
    case JoinFront(s1, c1, s2, c2) => [CallPrepend(s1, s2)]
    case Turn(x, y) => []
    case Divide(x, y) => []
  }

  ghost predicate AllEnabled(a: State, cmds: seq<Command>)
    decreases |cmds|
  {
    cmds == [] || (Enabled(a, cmds[0]) && AllEnabled(Step(a, cmds[0]), cmds[1..]))
  }

  function StepAll(a: State, cmds: seq<Command>): State
    decreases |cmds|
  {
    if cmds == [] then a else StepAll(Step(a, cmds[0]), cmds[1..])
  }

  function AllCalls(cmds: seq<Command>): seq<Macro> {
    if cmds == [] then [] else Calls(cmds[0]) + AllCalls(cmds[1..])
  }

  /** Each command, executed as macro calls on the links, does what it says to the lines and nothing else. */
  lemma StepRefines(h: Heap, a: State, cmd: Command)
    requires Inv(h, a) && Enabled(a, cmd)
    ensures Run(h, Calls(cmd)).Some?
    ensures Inv(Run(h, Calls(cmd)).value, Step(a, cmd))
    ensures All(Step(a, cmd)) == All(a)
  {
    match cmd
    case SelfLink(e) => StepSelfLink(h, a, e);
    case Reset(s, c) => StepReset(h, a, s, c);
    case SpliceInBefore(x, y, c) => StepSplice(h, a, x, y, c, cmd);
    case SpliceInAfter(x, y, c) => StepSplice(h, a, x, y, c, cmd);
    case TakeOut(x, c, y) => StepTakeOut(h, a, x, c, y);
    case Join(s1, c1, s2, c2) => StepJoin(h, a, s1, c1, s2, c2, cmd);
    case JoinFront(s1, c1, s2, c2) => StepJoin(h, a, s1, c1, s2, c2, cmd);
    case Turn(x, y) =>
      Rotate(h, x, y);
      NoDupSwap(x, y);
      Lines1(x + y, y + x);
      Rewrite(h, h, a, State({x + y}, {}), State({y + x}, {}));
    case Divide(x, y) =>
      ChainJoin(h, x, y);
      NoDupSwap(x, y);
      Lines2(x, y, x + y);
      Rewrite(h, h, a, State({}, {x + y}), State({}, {x, y}));
  }

  /** What the calls of a single command leave behind, on the links and among the lines. */
  lemma CommandDone(h: Heap, a: State, cmd: Command)
    requires Inv(h, a) && Enabled(a, cmd)
    ensures Run(h, Calls(cmd)).Some?
    ensures var g, a' := Run(h, Calls(cmd)).value, Step(a, cmd);
      match cmd
      case SelfLink(e) =>
        IsRing(g, [e]) && [e] in a'.rings && a.rings <= a'.rings && a.loose - {[e]} <= a'.loose
      case Reset(s, c) =>
        && IsRing(g, [s]) && Chain(g, c) && [s] in a'.rings && (c != [] ==> c in a'.loose)
        && a.rings - {[s] + c} <= a'.rings && a.loose <= a'.loose
      case SpliceInBefore(x, y, c) =>
        && IsRing(g, x + c + y) && x + c + y in a'.rings
        && a.rings - {x + y, c} <= a'.rings && a.loose - {c} <= a'.loose
      case SpliceInAfter(x, y, c) =>
        && IsRing(g, x + c + y) && x + c + y in a'.rings
        && a.rings - {x + y, c} <= a'.rings && a.loose - {c} <= a'.loose
      case TakeOut(x, c, y) =>
        && IsRing(g, x + y) && Chain(g, c) && x + y in a'.rings && c in a'.loose
        && a.rings - {x + c + y} <= a'.rings && a.loose <= a'.loose
      case Join(s1, c1, s2, c2) =>
        && IsRing(g, [s1] + (c1 + c2)) && IsRing(g, [s2]) && {[s1] + (c1 + c2), [s2]} <= a'.rings
        && a.rings - {[s1] + c1, [s2] + c2} <= a'.rings && a.loose <= a'.loose
      case JoinFront(s1, c1, s2, c2) =>
        && IsRing(g, [s1] + (c2 + c1)) && IsRing(g, [s2]) && {[s1] + (c2 + c1), [s2]} <= a'.rings
        && a.rings - {[s1] + c1, [s2] + c2} <= a'.rings && a.loose <= a'.loose
      case Turn(x, y) =>
        g == h && IsRing(g, y + x) && y + x in a'.rings && a.rings - {x + y} <= a'.rings && a.loose <= a'.loose
      case Divide(x, y) =>
        && g == h && Chain(g, x) && Chain(g, y) && {x, y} <= a'.loose
        && a.rings <= a'.rings && a.loose - {x + y} <= a'.loose
  {
    StepRefines(h, a, cmd);
    if cmd.Join? || cmd.JoinFront? {
      assert [cmd.s2] in Step(a, cmd).rings;
    }
  }

  /** Lines with the same nodes. */
  lemma Lines1(c: seq<Node>, d: seq<Node>)
    requires forall e :: e in c <==> e in d
    ensures Elements({c}) == Elements({d}) == NodesOf(c)
    ensures Elements({}) == {}
  {
    forall e | e in c || e in d
      ensures e in Elements({c}) && e in Elements({d})
    {
      assert c in {c} && d in {d};
    }
  }

  lemma Lines2(c: seq<Node>, d: seq<Node>, f: seq<Node>)
    requires forall e :: e in f <==> e in c || e in d
    requires c != [] && d != [] && NoDup(c) && NoDup(d) && Disjoint(c, d)
    ensures Elements({c, d}) == NodesOf(f) == Elements({f})
    ensures Tidy({c, d}) && c != d
  {
    assert c[0] in c;
    forall e | e in d
      ensures e !in c
    {
    }
    forall e | e in f
      ensures e in Elements({c, d}) && e in Elements({f})
    {
      assert c in {c, d} && d in {c, d} && f in {f};
    }
  }

  lemma StepSelfLink(h: Heap, a: State, e: Node)
    requires Inv(h, a) && [e] in a.loose
    ensures Run(h, Calls(SelfLink(e))).Some?
    ensures Inv(Run(h, Calls(SelfLink(e))).value, Step(a, SelfLink(e)))
    ensures All(Step(a, SelfLink(e))) == All(a)
  {
    assert e in [e];
    Single(h, CallInit(Elem(e)));
    InitRing(h, e, []);
    Lines1([e], [e]);
    Rewrite(h, Init(h, e), a, State({}, {[e]}), State({[e]}, {}));
  }

  lemma StepReset(h: Heap, a: State, s: Node, c: seq<Node>)
    requires Inv(h, a) && [s] + c in a.rings
    ensures Run(h, Calls(Reset(s, c))).Some?
    ensures Inv(Run(h, Calls(Reset(s, c))).value, Step(a, Reset(s, c)))
    ensures All(Step(a, Reset(s, c))) == All(a)
  {
    assert IsRing(h, [s] + c);
    NoDupSwap([s], c);
    RingNeighbours(h, [s] + c, s);
    Single(h, CallInit(Elem(s)));
    if c == [] {
      assert [s] + c == [s];
      InitRing(h, s, []);
      Lines1([s], [s]);
    } else {
      RingParts(h, [s], c);
      InitRing(h, s, c);
      Lines2([s], c, [s] + c);
      assert {[s]} + {c} == {[s], c};
    }
    var (before, after) := Change(Reset(s, c));
    Rewrite(h, Init(h, s), a, before, after);
  }

  lemma StepSplice(h: Heap, a: State, x: seq<Node>, y: seq<Node>, c: seq<Node>, cmd: Command)
    requires Inv(h, a) && Enabled(a, cmd)
    requires cmd == SpliceInBefore(x, y, c) || cmd == SpliceInAfter(x, y, c)
    ensures Run(h, Calls(cmd)).Some?
    ensures Inv(Run(h, Calls(cmd)).value, Step(a, cmd))
    ensures All(Step(a, cmd)) == All(a)
  {
    FreeChain(h, a, x + y, c);
    var m := Calls(cmd)[0];
    var touched := SpliceLinks(h, x, y, c, m);
    Single(h, m);
    SpliceLines(h, Execute(h, m), a, x, y, c);
    var one := SplicedLine(a, x, y, c);
    assert Step(a, cmd) == one;
  }

  lemma FreeChain(h: Heap, a: State, r: seq<Node>, c: seq<Node>)
    requires Inv(h, a) && r in a.rings && Free(a, r, c)
    ensures c != [] && Chain(h, c) && NoDup(r + c) && NoDup(c) && NoDup(r) && Disjoint(r, c)
  {
    var p := a.rings + a.loose;
    assert r in p && c in p && r != c;
    if c in a.rings {
      RingWhole(h, c);
    }
    NoDupJoin(r, c);
  }

  /** One ring and one chain, loose or a ring, make one ring. */
  function SplicedLine(a: State, x: seq<Node>, y: seq<Node>, c: seq<Node>): State {
    State(a.rings - {x + y, c} + {x + c + y}, a.loose - {c})
  }

  lemma SpliceLines(h: Heap, h': Heap, a: State, x: seq<Node>, y: seq<Node>, c: seq<Node>)
    requires Inv(h, a) && x + y in a.rings && Free(a, x + y, c) && c != [] && x + y != []
    requires NoDup(c) && NoDup(x + y) && Disjoint(x + y, c)
    requires IsRing(h', x + c + y) && SameOutside(h, h', NodesOf(x + c + y))
    ensures Inv(h', SplicedLine(a, x, y, c)) && All(SplicedLine(a, x, y, c)) == All(a)
  {
    Lines2(x + y, c, x + c + y);
    var after := State({x + c + y}, {});
    assert after.rings + after.loose == {x + c + y};
    if c in a.rings {
      var before := State({x + y, c}, {});
      assert before.rings + before.loose == {x + y, c};
      Rewrite(h, h', a, before, after);
      assert a.loose - {c} == a.loose;
    } else {
      var before := State({x + y}, {c});
      assert before.rings + before.loose == {x + y, c};
      Rewrite(h, h', a, before, after);
      assert a.rings - {x + y, c} == a.rings - {x + y};
    }
  }

  lemma SpliceLinks(h: Heap, x: seq<Node>, y: seq<Node>, c: seq<Node>, m: Macro) returns (touched: set<Node>)
    requires IsRing(h, x + y) && c != [] && Chain(h, c) && NoDup(x + y + c)
    requires
      || (y != [] && m == CallSpliceBefore(Elem(y[0]), Elem(c[0]), Elem(Last(c))))
      || (x != [] && m == CallSpliceAfter(Elem(Last(x)), Elem(c[0]), Elem(Last(c))))
    ensures Defined(h, m)
    ensures IsRing(Execute(h, m), x + c + y)
    ensures SameOutside(h, Execute(h, m), touched) && touched <= NodesOf(x + c + y)
  {
    if m.CallSpliceBefore? {
      SpliceBeforeRing(h, x, y, c);
      touched := {y[0], h.prev[y[0]], c[0], Last(c)};
    } else {
      SpliceAfterRing(h, x, y, c);
      touched := {Last(x), h.next[Last(x)], c[0], Last(c)};
    }
  }

  lemma StepTakeOut(h: Heap, a: State, x: seq<Node>, c: seq<Node>, y: seq<Node>)
    requires Inv(h, a) && Enabled(a, TakeOut(x, c, y))
    ensures Run(h, Calls(TakeOut(x, c, y))).Some?
    ensures Inv(Run(h, Calls(TakeOut(x, c, y))).value, Step(a, TakeOut(x, c, y)))
    ensures All(Step(a, TakeOut(x, c, y))) == All(a)
  {
    UnspliceRing(h, x, c, y);
    NoDupSwap(x + y, c);
    var m := CallUnsplice(Elem(c[0]), Elem(Last(c)));
    Single(h, m);
    Lines2(x + y, c, x + c + y);
    assert {x + y} + {c} == {x + y, c};
    assert {x + c + y} + {} == {x + c + y};
    assert (y + x)[0] in y + x && Last(y + x) in y + x;
    Rewrite(h, Execute(h, m), a, State({x + c + y}, {}), State({x + y}, {c}));
  }

  lemma StepJoin(h: Heap, a: State, s1: Node, c1: seq<Node>, s2: Node, c2: seq<Node>, cmd: Command)
    requires Inv(h, a) && Enabled(a, cmd)
    requires cmd == Join(s1, c1, s2, c2) || cmd == JoinFront(s1, c1, s2, c2)
    ensures Run(h, Calls(cmd)).Some?
    ensures Inv(Run(h, Calls(cmd)).value, Step(a, cmd))
    ensures All(Step(a, cmd)) == All(a)
  {
    var r1, r2 := [s1] + c1, [s2] + c2;
    assert r1[0] == s1 && r2[0] == s2;
    assert r1 in a.rings + a.loose && r2 in a.rings + a.loose;
    assert Disjoint(r1, r2);
    var m := Calls(cmd)[0];
    var r := if cmd.Join? then [s1] + (c1 + c2) else [s1] + (c2 + c1);
    JoinLinks(h, s1, c1, s2, c2, m, r);
    Single(h, m);
    JoinLines(h, Execute(h, m), a, r1, r2, r, [s2]);
  }

  /** Two rings become two rings with the same nodes. */
  lemma JoinLines(h: Heap, h': Heap, a: State, r1: seq<Node>, r2: seq<Node>, q1: seq<Node>, q2: seq<Node>)
    requires Inv(h, a) && r1 in a.rings && r2 in a.rings && Disjoint(r1, r2)
    requires IsRing(h', q1) && IsRing(h', q2) && Disjoint(q1, q2)
    requires SameOutside(h, h', NodesOf(r1) + NodesOf(r2))
    requires forall e :: e in r1 + r2 <==> e in q1 || e in q2
    ensures var after := State(a.rings - {r1, r2} + {q1, q2}, a.loose - {} + {});
            Inv(h', after) && All(after) == All(a)
  {
    var before, after := State({r1, r2}, {}), State({q1, q2}, {});
    assert before.rings + before.loose == {r1, r2} && after.rings + after.loose == {q1, q2};
    assert IsRing(h, r1) && IsRing(h, r2);
    Lines2(r1, r2, r1 + r2);
    Lines2(q1, q2, r1 + r2);
    Rewrite(h, h', a, before, after);
  }

  lemma JoinLinks(h: Heap, s1: Node, c1: seq<Node>, s2: Node, c2: seq<Node>, m: Macro, r: seq<Node>)
    requires IsRing(h, [s1] + c1) && IsRing(h, [s2] + c2) && Disjoint([s1] + c1, [s2] + c2)
    requires
      || (m == CallConcat(s1, s2) && r == [s1] + (c1 + c2))
      || (m == CallPrepend(s1, s2) && r == [s1] + (c2 + c1))
    ensures Defined(h, m) && HeadWhole(h, s2)
    ensures IsRing(Execute(h, m), r) && IsRing(Execute(h, m), [s2])
    ensures SameOutside(h, Execute(h, m), NodesOf([s1] + c1) + NodesOf([s2] + c2))
    ensures forall e :: e in ([s1] + c1) + ([s2] + c2) <==> e in r || e in [s2]
    ensures Disjoint(r, [s2])
  {
    if m.CallConcat? {
      ConcatRings(h, s1, c1, s2, c2);
    } else {
      PrependRings(h, s1, c1, s2, c2);
    }
    NoDupSwap([s2], c2);
    assert forall e :: e in r <==> e in [s1] + c1 || e in c2;
  }

  /**
    The whole-run theorem.  Whatever commands are given, as long as each is enabled where it is used,
    the macro calls never leave the heap, the links represent exactly the lines the commands produce,
    and no node is lost, duplicated or shared between lines.
    */
  lemma {:induction false} RunRefines(h: Heap, a: State, cmds: seq<Command>)
    requires Inv(h, a) && AllEnabled(a, cmds)
    ensures Run(h, AllCalls(cmds)).Some?
    ensures Inv(Run(h, AllCalls(cmds)).value, StepAll(a, cmds))
    ensures All(StepAll(a, cmds)) == All(a)
    decreases |cmds|
  {
    if cmds != [] {
      var g := FirstCommand(h, a, cmds);
      RunRefines(g, Step(a, cmds[0]), cmds[1..]);
    }
  }

  lemma FirstCommand(h: Heap, a: State, cmds: seq<Command>) returns (g: Heap)
    requires cmds != [] && Inv(h, a) && Enabled(a, cmds[0])
    ensures Run(h, Calls(cmds[0])) == Some(g) && Run(h, AllCalls(cmds)) == Run(g, AllCalls(cmds[1..]))
    ensures Inv(g, Step(a, cmds[0])) && All(Step(a, cmds[0])) == All(a)
  {
    StepRefines(h, a, cmds[0]);
    RunAppend(h, Calls(cmds[0]), AllCalls(cmds[1..]));
    g := Run(h, Calls(cmds[0])).value;
  }

  /**
    The run is the calls of one command after the other, and after every one of them the links represent
    the lines produced so far.
    */
  lemma {:induction false} RunStates(h: Heap, a: State, cmds: seq<Command>)
    returns (hs: seq<Heap>, states: seq<State>)
    requires Inv(h, a) && AllEnabled(a, cmds)
    ensures |hs| == |states| == |cmds| + 1 && hs[0] == h && states[0] == a
    ensures Run(h, AllCalls(cmds)) == Some(hs[|cmds|]) && StepAll(a, cmds) == states[|cmds|]
    ensures forall i :: 0 <= i <= |cmds| ==> Inv(hs[i], states[i])
    ensures forall i :: 0 <= i < |cmds| ==>
            && Enabled(states[i], cmds[i]) && states[i + 1] == Step(states[i], cmds[i])
            && Run(hs[i], Calls(cmds[i])) == Some(hs[i + 1])
    decreases |cmds|
  {
    if cmds == [] {
      hs, states := [h], [a];
    } else {
      var g := FirstCommand(h, a, cmds);
      var hs', states' := RunStates(g, Step(a, cmds[0]), cmds[1..]);
      hs, states := [h] + hs', [a] + states';
      forall i | 0 <= i < |cmds|
        ensures Enabled(states[i], cmds[i]) && states[i + 1] == Step(states[i], cmds[i])
        ensures Run(hs[i], Calls(cmds[i])) == Some(hs[i + 1])
      {
        if i > 0 {
          assert hs[i] == hs'[i - 1] && states[i] == states'[i - 1] && cmds[i] == cmds[1..][i - 1];
        }
      }
    }
  }

  /** Runs may start from uninitialised links: every node is then a loose chain of its own. */
  lemma FromScratch(h: Heap, nodes: set<Node>)
    requires forall e :: e in nodes ==> Has(h, e)
    ensures Inv(h, State({}, set e | e in nodes :: [e]))
    ensures All(State({}, set e | e in nodes :: [e])) == nodes
  {
    var lines := set e | e in nodes :: [e];
    assert {} + lines == lines;
    forall e | e in nodes
      ensures e in Elements(lines)
    {
      assert [e] in lines && e in [e];
    }
  }

  /** So after any run, the ring of every head holds exactly the elements the commands put there. */
  lemma RunContents(h: Heap, a: State, cmds: seq<Command>, s: Node, c: seq<Node>)
    requires Inv(h, a) && AllEnabled(a, cmds) && [s] + c in StepAll(a, cmds).rings
    ensures Run(h, AllCalls(cmds)).Some?
    ensures Headed(Run(h, AllCalls(cmds)).value, s) && Contents(Run(h, AllCalls(cmds)).value, s) == c
  {
    RunRefines(h, a, cmds);
    ContentsUnique(Run(h, AllCalls(cmds)).value, s, c);
  }
}
