/**
  Hooks: registration of callbacks and the loops that run them.

  A callback is a function of the program state that returns a result and the next state.  Callbacks
  do not register hooks while a run is in progress.
  */
module Hooks {

  import opened Wrappers

  type Hook<!S, R> = S -> (R, S)

  datatype Link<!S, R> = Link(
    func: Hook<S, R>, predecessors: seq<string>, successors: seq<string>, order: int, name: string)

  /** When a run stops early, and what it returns if it does not. */
  datatype Rule<R> = All(ok: R, decline: R) | First(decline: R)

  predicate Stops<R(==)>(rule: Rule<R>, rv: R) {
    match rule
    case All(ok, decline) => rv != ok && rv != decline
    case First(decline) => rv != decline
  }

  function Default<R>(rule: Rule<R>): R {
    match rule
    case All(ok, _) => ok
    case First(decline) => decline
  }

  /** The state after the first `n` callbacks. */
  function After<S, R>(links: seq<Link<S, R>>, n: nat, s0: S): S
    requires n <= |links|
  {
    if n == 0 then s0 else links[n - 1].func(After(links, n - 1, s0)).1
  }

  /** What callback `n` returns when all those before it have been called. */
  function ResultOf<S, R>(links: seq<Link<S, R>>, n: nat, s0: S): R
    requires n < |links|
  {
    links[n].func(After(links, n, s0)).0
  }

  datatype Outcome<S, R> = Outcome(result: R, state: S, called: nat)

  ghost predicate StoppedAt<S, R>(links: seq<Link<S, R>>, rule: Rule<R>, s0: S, n: nat) {
    n < |links| && Stops(rule, ResultOf(links, n, s0))
  }

  /**
    The callbacks called are a prefix of the list: up to and including the first one that stops the
    run, whose result is returned; or all of them, and the default is returned.  A null list is
    treated like an empty one.
    */
  ghost predicate IsOutcome<S, R>(list: Option<seq<Link<S, R>>>, rule: Rule<R>, s0: S, o: Outcome<S, R>) {
    match list
    case None => o == Outcome(Default(rule), s0, 0)
    case Some(links) =>
      && o.called <= |links|
      && o.state == After(links, o.called, s0)
      && (forall n :: 0 <= n < o.called - 1 ==> !StoppedAt(links, rule, s0, n))
      && (if o.called > 0 && StoppedAt(links, rule, s0, o.called - 1)
          then o.result == ResultOf(links, o.called - 1, s0)
          else o.called == |links| && o.result == Default(rule))
  }

  class HookPoint<S(!new), R(==)> {
    /** `None` is the null pointer of a hook nobody has registered for. */
    var list: Option<seq<Link<S, R>>>

    constructor ()
      ensures list == None
    {
      list := None;
    }

    /**
      Registration appends to the list.  The first one makes it and hands it to
      apr_hook_sort_register, which is what `sorts` says.
      */
    method Register(func: Hook<S, R>, predecessors: seq<string>, successors: seq<string>, order: int, current: string)
      returns (sorts: bool)
      modifies this
      ensures sorts <==> old(list) == None
      ensures list == Some((if old(list) == None then [] else old(list).value)
                           + [Link(func, predecessors, successors, order, current)])
    {
      sorts := false;
      if list == None {
        list := Some([]);
        sorts := true;
      }
      list := Some(list.value + [Link(func, predecessors, successors, order, current)]);
    }

    /** The runner of hooks without a result. */
    method RunVoid(s0: S) returns (s: S)
      ensures s == if list == None then s0 else After(list.value, |list.value|, s0)
    {
      s := s0;
      if list == None {
        return;
      }
      var n := 0;
      while n < |list.value|
        invariant n <= |list.value| && s == After(list.value, n, s0)
      {
        s := list.value[n].func(s).1;
        n := n + 1;
      }
    }

    method RunAll(ok: R, decline: R, s0: S) returns (o: Outcome<S, R>)
      ensures IsOutcome(list, All(ok, decline), s0, o)
    {
      if list == None {
        return Outcome(ok, s0, 0);
      }
      var s := s0;
      var n := 0;
      while n < |list.value|
        invariant n <= |list.value| && s == After(list.value, n, s0)
        invariant forall m :: 0 <= m < n ==> !StoppedAt(list.value, All(ok, decline), s0, m)
      {
        var (rv, s') := list.value[n].func(s);
        s := s';
        if rv != ok && rv != decline {
          return Outcome(rv, s, n + 1);
        }
        n := n + 1;
      }
      return Outcome(ok, s, n);
    }

    method RunFirst(decline: R, s0: S) returns (o: Outcome<S, R>)
      ensures IsOutcome(list, First(decline), s0, o)
    {
      if list == None {
        return Outcome(decline, s0, 0);
      }
      var s := s0;
      var n := 0;
      while n < |list.value|
        invariant n <= |list.value| && s == After(list.value, n, s0)
        invariant forall m :: 0 <= m < n ==> !StoppedAt(list.value, First(decline), s0, m)
      {
        var (rv, s') := list.value[n].func(s);
        s := s';
        if rv != decline {
          return Outcome(rv, s, n + 1);
        }
        n := n + 1;
      }
      return Outcome(decline, s, n);
    }
  }

  /** The runner of optional hooks looks the list up by name; `list` is what it finds. */
  method RunAllOptional<S(!new), R(==)>(list: Option<seq<Link<S, R>>>, ok: R, decline: R, s0: S)
    returns (o: Outcome<S, R>)
    ensures IsOutcome(list, All(ok, decline), s0, o)
  {
    if list == None {
      return Outcome(ok, s0, 0);
    }
    var links := list.value;
    var s := s0;
    var n := 0;
    while n < |links|
      invariant n <= |links| && s == After(links, n, s0)
      invariant forall m :: 0 <= m < n ==> !StoppedAt(links, All(ok, decline), s0, m)
    {
      var (rv, s') := links[n].func(s);
      s := s';
      if rv != ok && rv != decline {
        return Outcome(rv, s, n + 1);
      }
      n := n + 1;
    }
    return Outcome(ok, s, n);
  }

  // ---------- what the outcomes mean, call by call ----------

  /** A null list has no callbacks. */
  function Callbacks<S, R>(list: Option<seq<Link<S, R>>>): (links: seq<Link<S, R>>)
    ensures list == None ==> links == []
    ensures list.Some? ==> links == list.value
  {
    if list.Some? then list.value else []
  }

  /** Each callback is called in the state the one before it left, the first one in the initial state. */
  lemma AfterMeans<S(!new), R(!new)>(links: seq<Link<S, R>>, n: nat, s0: S) returns (st: seq<S>, rv: seq<R>)
    requires n <= |links|
    ensures |rv| == n && |st| == n + 1 && st[0] == s0 && st[n] == After(links, n, s0)
    ensures forall i :: 0 <= i < n ==> (rv[i], st[i + 1]) == links[i].func(st[i])
    ensures forall i :: 0 <= i < n ==> rv[i] == ResultOf(links, i, s0)
  {
    st := seq(n + 1, i requires 0 <= i <= n => After(links, i, s0));
    rv := seq(n, i requires 0 <= i < n => ResultOf(links, i, s0));
  }

  /**
    RUN_ALL, call by call: all results before the last call are ok or decline; then either the last one is
    neither and is returned, or all callbacks have been called, all with these results, and ok is returned.
    */
  lemma AllMeans<S(!new), R(!new)>(list: Option<seq<Link<S, R>>>, ok: R, decline: R, s0: S, o: Outcome<S, R>)
    returns (st: seq<S>, rv: seq<R>)
    requires IsOutcome(list, All(ok, decline), s0, o)
    ensures |rv| == o.called <= |Callbacks(list)| && |st| == o.called + 1 && st[0] == s0 && st[o.called] == o.state
    ensures forall i :: 0 <= i < o.called ==> (rv[i], st[i + 1]) == Callbacks(list)[i].func(st[i])
    ensures forall i :: 0 <= i < o.called - 1 ==> rv[i] == ok || rv[i] == decline
    ensures
      || (rv != [] && o.result == rv[|rv| - 1] && o.result != ok && o.result != decline)
      || (o.called == |Callbacks(list)| && o.result == ok
          && (rv != [] ==> rv[|rv| - 1] == ok || rv[|rv| - 1] == decline))
  {
    var links := Callbacks(list);
    st, rv := AfterMeans(links, o.called, s0);
    forall i | 0 <= i < o.called - 1
      ensures rv[i] == ok || rv[i] == decline
    {
      assert !StoppedAt(links, All(ok, decline), s0, i);
    }
  }

  /** RUN_FIRST, call by call. */
  lemma FirstMeans<S(!new), R(!new)>(list: Option<seq<Link<S, R>>>, decline: R, s0: S, o: Outcome<S, R>)
    returns (st: seq<S>, rv: seq<R>)
    requires IsOutcome(list, First(decline), s0, o)
    ensures |rv| == o.called <= |Callbacks(list)| && |st| == o.called + 1 && st[0] == s0 && st[o.called] == o.state
    ensures forall i :: 0 <= i < o.called ==> (rv[i], st[i + 1]) == Callbacks(list)[i].func(st[i])
    ensures forall i :: 0 <= i < o.called - 1 ==> rv[i] == decline
    ensures
      || (rv != [] && o.result == rv[|rv| - 1] && o.result != decline)
      || (o.called == |Callbacks(list)| && o.result == decline && (rv != [] ==> rv[|rv| - 1] == decline))
  {
    AllIsFirst(list, decline, s0, o);
    st, rv := AllMeans(list, decline, decline, s0, o);
  }

  /**
    A list, a rule and a state determine the outcome: result, final state and which callbacks were
    called.  So the optional runner and the external one agree on the same list.
    */
  lemma OutcomeUnique<S, R>(list: Option<seq<Link<S, R>>>, rule: Rule<R>, s0: S, o: Outcome<S, R>, p: Outcome<S, R>)
    requires IsOutcome(list, rule, s0, o) && IsOutcome(list, rule, s0, p)
    ensures o == p
  {
  }

  /** With `ok` and `decline` the same value, RUN_ALL is RUN_FIRST, on every list including the null one. */
  lemma AllIsFirst<S, R>(list: Option<seq<Link<S, R>>>, d: R, s0: S, o: Outcome<S, R>)
    ensures IsOutcome(list, All(d, d), s0, o) <==> IsOutcome(list, First(d), s0, o)
  {
    if list.Some? {
      assert forall n: nat :: StoppedAt(list.value, All(d, d), s0, n) <==> StoppedAt(list.value, First(d), s0, n);
    }
  }

  /** Running a list made of two: the second part runs only if the first did not stop, from the state it left. */
  lemma RunTwoParts<S, R>(xs: seq<Link<S, R>>, ys: seq<Link<S, R>>, rule: Rule<R>, s0: S,
                          o: Outcome<S, R>, p: Outcome<S, R>)
    requires IsOutcome(Some(xs), rule, s0, o) && IsOutcome(Some(ys), rule, o.state, p)
    ensures o.called > 0 && StoppedAt(xs, rule, s0, o.called - 1)
            ==> IsOutcome(Some(xs + ys), rule, s0, o)
    ensures !(o.called > 0 && StoppedAt(xs, rule, s0, o.called - 1))
            ==> IsOutcome(Some(xs + ys), rule, s0, p.(called := |xs| + p.called))
  {
    if o.called > 0 && StoppedAt(xs, rule, s0, o.called - 1) {
      StoppedInFirst(xs, ys, rule, s0, o);
    } else {
      RanBoth(xs, ys, rule, s0, o, p);
    }
  }

  /** In a list made of two, each callback does what it does in its part. */
  lemma SameCallback<S, R>(xs: seq<Link<S, R>>, ys: seq<Link<S, R>>, rule: Rule<R>, s0: S, n: nat)
    requires n < |xs + ys|
    ensures ResultOf(xs + ys, n, s0)
         == if n < |xs| then ResultOf(xs, n, s0) else ResultOf(ys, n - |xs|, After(xs, |xs|, s0))
    ensures StoppedAt(xs + ys, rule, s0, n)
       <==> if n < |xs| then StoppedAt(xs, rule, s0, n) else StoppedAt(ys, rule, After(xs, |xs|, s0), n - |xs|)
  {
    if n < |xs| {
      AfterPrefix(xs, ys, n, s0);
    } else {
      AfterSuffix(xs, ys, n - |xs|, s0);
    }
  }

  lemma StoppedInFirst<S, R>(xs: seq<Link<S, R>>, ys: seq<Link<S, R>>, rule: Rule<R>, s0: S, o: Outcome<S, R>)
    requires IsOutcome(Some(xs), rule, s0, o) && o.called > 0 && StoppedAt(xs, rule, s0, o.called - 1)
    ensures IsOutcome(Some(xs + ys), rule, s0, o)
  {
    AfterPrefix(xs, ys, o.called, s0);
    forall n: nat | n < o.called
      ensures StoppedAt(xs + ys, rule, s0, n) <==> StoppedAt(xs, rule, s0, n)
    {
      SameCallback(xs, ys, rule, s0, n);
    }
    SameCallback(xs, ys, rule, s0, o.called - 1);
  }

  lemma RanBoth<S, R>(xs: seq<Link<S, R>>, ys: seq<Link<S, R>>, rule: Rule<R>, s0: S,
                      o: Outcome<S, R>, p: Outcome<S, R>)
    requires IsOutcome(Some(xs), rule, s0, o) && !(o.called > 0 && StoppedAt(xs, rule, s0, o.called - 1))
    requires IsOutcome(Some(ys), rule, o.state, p)
    ensures IsOutcome(Some(xs + ys), rule, s0, p.(called := |xs| + p.called))
  {
    var k := |xs| + p.called;
    NoneStopped(xs, ys, rule, s0, o, p);
    AfterSuffix(xs, ys, p.called, s0);
    if k > 0 {
      SameCallback(xs, ys, rule, s0, k - 1);
    }
  }

  lemma NoneStopped<S, R>(xs: seq<Link<S, R>>, ys: seq<Link<S, R>>, rule: Rule<R>, s0: S,
                          o: Outcome<S, R>, p: Outcome<S, R>)
    requires IsOutcome(Some(xs), rule, s0, o) && !(o.called > 0 && StoppedAt(xs, rule, s0, o.called - 1))
    requires IsOutcome(Some(ys), rule, o.state, p)
    ensures forall n :: 0 <= n < |xs| + p.called - 1 ==> !StoppedAt(xs + ys, rule, s0, n)
  {
    forall n | 0 <= n < |xs| + p.called - 1
      ensures !StoppedAt(xs + ys, rule, s0, n)
    {
      SameCallback(xs, ys, rule, s0, n);
      assert n < |xs| ==> !StoppedAt(xs, rule, s0, n);
    }
  }

  lemma {:induction false} AfterPrefix<S, R>(xs: seq<Link<S, R>>, ys: seq<Link<S, R>>, n: nat, s0: S)
    requires n <= |xs|
    ensures After(xs + ys, n, s0) == After(xs, n, s0)
  {
    if n > 0 {
      AfterPrefix(xs, ys, n - 1, s0);
    }
  }

  lemma {:induction false} AfterSuffix<S, R>(xs: seq<Link<S, R>>, ys: seq<Link<S, R>>, n: nat, s0: S)
    requires n <= |ys|
    ensures After(xs + ys, |xs| + n, s0) == After(ys, n, After(xs, |xs|, s0))
  {
    if n == 0 {
      AfterPrefix(xs, ys, |xs|, s0);
    } else {
      AfterSuffix(xs, ys, n - 1, s0);
    }
  }
}
