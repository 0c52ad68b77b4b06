/**
  Buckets that share reference-counted data, at the level of what the header promises of
  apr_bucket_shared_make, _copy, _split and _destroy: their bodies are not part of this model.
  Lengths are known.  `room` says whether the allocation an operation needs succeeds.
  */
module Sharing {

  /** A bucket refers to the bytes `start .. start + length` of a shared resource. */
  datatype Bucket = Bucket(res: nat, start: nat, length: nat)

  /** The live buckets, brigade after brigade; the counts; and the resources released, in order. */
  datatype Store = Store(live: seq<Bucket>, count: map<nat, int>, released: seq<nat>)

  datatype Op =
    | Make(b: Bucket, at: nat)
    | Copy(i: nat, at: nat, room: bool)
    | Split(i: nat, point: nat, room: bool)
    | Delete(i: nat)

  /** Operations name live buckets, places to insert at, and, for a new bucket, a new resource. */
  predicate Enabled(st: Store, op: Op) {
    match op
    case Make(b, at) => b.res !in st.count && at <= |st.live|
    case Copy(i, at, _) => i < |st.live| && st.live[i].res in st.count && at <= |st.live|
    case Split(i, _, _) => i < |st.live| && st.live[i].res in st.count
    case Delete(i) => i < |st.live| && st.live[i].res in st.count
  }

  function Insert(live: seq<Bucket>, at: nat, b: Bucket): seq<Bucket>
    requires at <= |live|
  {
    live[..at] + [b] + live[at..]
  }

  function Halves(b: Bucket, point: nat): seq<Bucket>
    requires point <= b.length
  {
    [Bucket(b.res, b.start, point), Bucket(b.res, b.start + point, b.length - point)]
  }

  function Step(st: Store, op: Op): Store
    requires Enabled(st, op)
  {
    match op
    case Make(b, at) => Store(Insert(st.live, at, b), st.count[b.res := 1], st.released)
    case Copy(i, at, room) =>
      var r := st.live[i].res;
      if !room then st  // APR_ENOMEM
      else Store(Insert(st.live, at, st.live[i]), st.count[r := st.count[r] + 1], st.released)
    case Split(i, point, room) =>
      var b := st.live[i];
      if point > b.length then st  // APR_EINVAL
      else if !room then st  // APR_ENOMEM
      else Store(st.live[..i] + Halves(b, point) + st.live[i + 1..],
                 st.count[b.res := st.count[b.res] + 1], st.released)
    case Delete(i) =>
      var r := st.live[i].res;
      var n := st.count[r] - 1;
      Store(st.live[..i] + st.live[i + 1..], st.count[r := n], if n == 0 then st.released + [r] else st.released)
  }

  function References(live: seq<Bucket>, r: nat): nat {
    if live == [] then 0
    else (if live[0].res == r then 1 else 0) + References(live[1..], r)
  }

  lemma {:induction false} ReferencesJoin(a: seq<Bucket>, b: seq<Bucket>, r: nat)
    ensures References(a + b, r) == References(a, r) + References(b, r)
  {
    if a == [] {
      assert a + b == b;
    } else {
      assert (a + b)[1..] == a[1..] + b;
      ReferencesJoin(a[1..], b, r);
    }
  }

  /** Every count is the number of live references, and exactly the unreferenced resources are released, once. */
  ghost predicate Inv(st: Store) {
    && (forall b :: b in st.live ==> b.res in st.count)
    && (forall r :: r in st.count ==> st.count[r] == References(st.live, r))
    && (forall r :: r in st.released <==> r in st.count && st.count[r] == 0)
    && (forall i, j :: 0 <= i < j < |st.released| ==> st.released[i] != st.released[j])
  }

  function One(b: Bucket, r: nat): nat {
    if b.res == r then 1 else 0
  }

  lemma {:induction false} ReferencesOne(b: Bucket, r: nat)
    ensures References([b], r) == One(b, r)
  {
    assert [b][1..] == [];
  }

  /** The number of places that refer to the resource. */
  lemma {:induction false} ReferencesCount(live: seq<Bucket>, r: nat)
    ensures References(live, r) == |set i | 0 <= i < |live| && live[i].res == r|
    decreases |live|
  {
    if live != [] {
      var n := |live| - 1;
      var rest := live[..n];
      ReferencesCount(rest, r);
      assert live == rest + [live[n]];
      ReferencesJoin(rest, [live[n]], r);
      ReferencesOne(live[n], r);
      var places, places1 := set i | 0 <= i < |live| && live[i].res == r, set i | 0 <= i < n && rest[i].res == r;
      assert places == if live[n].res == r then places1 + {n} else places1;
    }
  }

  lemma {:induction false} References3(x: seq<Bucket>, mid: seq<Bucket>, y: seq<Bucket>, r: nat)
    ensures References(x + mid + y, r) == References(x, r) + References(mid, r) + References(y, r)
  {
    ReferencesJoin(x + mid, y, r);
    ReferencesJoin(x, mid, r);
  }

  lemma {:induction false} Inserted(live: seq<Bucket>, at: nat, b: Bucket, r: nat)
    requires at <= |live|
    ensures References(Insert(live, at, b), r) == References(live, r) + One(b, r)
  {
    References3(live[..at], [b], live[at..], r);
    assert live == live[..at] + [] + live[at..];
    References3(live[..at], [], live[at..], r);
    ReferencesOne(b, r);
  }

  lemma {:induction false} Replaced(x: seq<Bucket>, b: Bucket, y: seq<Bucket>, mid: seq<Bucket>, r: nat)
    ensures References(x + mid + y, r) == References(x + [b] + y, r) - One(b, r) + References(mid, r)
  {
    References3(x, mid, y, r);
    References3(x, [b], y, r);
    ReferencesOne(b, r);
  }

  lemma {:induction false} HalvesRefer(b: Bucket, point: nat, r: nat)
    requires point <= b.length
    ensures References(Halves(b, point), r) == 2 * One(b, r)
  {
    var h := Halves(b, point);
    assert h == [h[0]] + [h[1]];
    ReferencesJoin([h[0]], [h[1]], r);
    ReferencesOne(h[0], r);
    ReferencesOne(h[1], r);
  }

  lemma NoneReferred(live: seq<Bucket>, r: nat)
    ensures References(live, r) == 0 <==> forall b :: b in live ==> b.res != r
  {
  }

  lemma {:induction false} SplitRefers(live: seq<Bucket>, i: nat, point: nat, r: nat)
    requires i < |live| && point <= live[i].length
    ensures References(live[..i] + Halves(live[i], point) + live[i + 1..], r) == References(live, r) + One(live[i], r)
  {
    assert live == live[..i] + [live[i]] + live[i + 1..];
    Replaced(live[..i], live[i], live[i + 1..], Halves(live[i], point), r);
    HalvesRefer(live[i], point, r);
  }

  lemma {:induction false} DeleteRefers(live: seq<Bucket>, i: nat, r: nat)
    requires i < |live|
    ensures References(live[..i] + live[i + 1..], r) == References(live, r) - One(live[i], r)
  {
    assert live == live[..i] + [live[i]] + live[i + 1..];
    assert live[..i] + [] + live[i + 1..] == live[..i] + live[i + 1..];
    Replaced(live[..i], live[i], live[i + 1..], [], r);
  }

  lemma {:induction false} StepCounts(st: Store, op: Op, r: nat)
    requires Inv(st) && Enabled(st, op)
    ensures var st' := Step(st, op);
            r in st'.count ==> st'.count[r] == References(st'.live, r)
  {
    match op
    case Make(b, at) =>
      NoneReferred(st.live, r);
      Inserted(st.live, at, b, r);
    case Copy(i, at, _) => Inserted(st.live, at, st.live[i], r);
    case Split(i, point, _) => if point <= st.live[i].length { SplitRefers(st.live, i, point, r); }
    case Delete(i) => DeleteRefers(st.live, i, r);
  }

  lemma {:induction false} StepKnown(st: Store, op: Op, b: Bucket)
    requires Inv(st) && Enabled(st, op) && b in Step(st, op).live
    ensures b.res in Step(st, op).count
  {
    if op.Split? && op.point <= st.live[op.i].length && op.room {
      assert b in st.live || b in Halves(st.live[op.i], op.point);
    }
  }

  lemma {:induction false} StepReleases(st: Store, op: Op)
    requires Inv(st) && Enabled(st, op)
    ensures var st' := Step(st, op);
            && (forall r :: r in st'.released <==> r in st'.count && st'.count[r] == 0)
            && (forall i, j :: 0 <= i < j < |st'.released| ==> st'.released[i] != st'.released[j])
  {
    if op.Copy? || op.Split? || op.Delete? {
      NoneReferred(st.live, st.live[op.i].res);
      assert st.live[op.i] in st.live;
    }
  }

  lemma {:induction false} StepKeeps(st: Store, op: Op)
    requires Inv(st) && Enabled(st, op)
    ensures Inv(Step(st, op))
  {
    var st' := Step(st, op);
    forall r | r in st'.count
      ensures st'.count[r] == References(st'.live, r)
    {
      StepCounts(st, op, r);
    }
    forall b | b in st'.live
      ensures b.res in st'.count
    {
      StepKnown(st, op, b);
    }
    StepReleases(st, op);
  }

  ghost predicate AllEnabled(st: Store, ops: seq<Op>)
    decreases |ops|
  {
    ops == [] || (Enabled(st, ops[0]) && AllEnabled(Step(st, ops[0]), ops[1..]))
  }

  function StepAll(st: Store, ops: seq<Op>): Store
    requires AllEnabled(st, ops)
    decreases |ops|
  {
    if ops == [] then st else StepAll(Step(st, ops[0]), ops[1..])
  }

  /** No bucket refers to a resource that is released. */
  lemma LiveNotReleased(st: Store, b: Bucket)
    requires Inv(st) && b in st.live
    ensures b.res !in st.released
  {
    NoneReferred(st.live, b.res);
  }

  /**
    Over any run, and after each of its operations: counts are exact, and no resource is released twice or
    while a bucket refers to it.
    */
  lemma {:induction false} RunKeeps(st: Store, ops: seq<Op>) returns (stores: seq<Store>)
    requires Inv(st) && AllEnabled(st, ops)
    ensures |stores| == |ops| + 1 && stores[0] == st && stores[|ops|] == StepAll(st, ops)
    ensures forall i :: 0 <= i < |ops| ==> Enabled(stores[i], ops[i]) && stores[i + 1] == Step(stores[i], ops[i])
    ensures forall i :: 0 <= i <= |ops| ==> Inv(stores[i])
    ensures forall b :: b in StepAll(st, ops).live ==> b.res !in StepAll(st, ops).released
    decreases |ops|
  {
    if ops == [] {
      stores := [st];
      forall b | b in st.live
        ensures b.res !in st.released
      {
        LiveNotReleased(st, b);
      }
    } else {
      StepKeeps(st, ops[0]);
      stores := RunKeeps(Step(st, ops[0]), ops[1..]);
      stores := [st] + stores;
    }
  }

  /** The bytes a bucket refers to, given those of the resources. */
  function Segment(b: Bucket, data: nat -> seq<char>): seq<char>
  {
    if b.start + b.length <= |data(b.res)| then data(b.res)[b.start..b.start + b.length] else []
  }

  function Bytes(live: seq<Bucket>, data: nat -> seq<char>): seq<char> {
    if live == [] then [] else Segment(live[0], data) + Bytes(live[1..], data)
  }

  lemma {:induction false} BytesJoin(a: seq<Bucket>, b: seq<Bucket>, data: nat -> seq<char>)
    ensures Bytes(a + b, data) == Bytes(a, data) + Bytes(b, data)
  {
    if a == [] {
      assert a + b == b;
    } else {
      assert (a + b)[1..] == a[1..] + b;
      BytesJoin(a[1..], b, data);
    }
  }

  lemma {:induction false} Bytes3(x: seq<Bucket>, mid: seq<Bucket>, y: seq<Bucket>, data: nat -> seq<char>)
    ensures Bytes(x + mid + y, data) == Bytes(x, data) + Bytes(mid, data) + Bytes(y, data)
  {
    BytesJoin(x + mid, y, data);
    BytesJoin(x, mid, data);
  }

  lemma {:induction false} HalvesBytes(b: Bucket, point: nat, data: nat -> seq<char>)
    requires point <= b.length && b.start + b.length <= |data(b.res)|
    ensures Bytes(Halves(b, point), data) == Bytes([b], data)
  {
    var x, y := Bucket(b.res, b.start, point), Bucket(b.res, b.start + point, b.length - point);
    assert Halves(b, point) == [x] + [y];
    BytesJoin([x], [y], data);
    BytesOne(x, data);
    BytesOne(y, data);
    BytesOne(b, data);
    Slices(data(b.res), b.start, b.start + point, b.start + b.length);
  }

  lemma {:induction false} Slices(d: seq<char>, i: nat, j: nat, k: nat)
    requires i <= j <= k <= |d|
    ensures d[i..k] == d[i..j] + d[j..k]
  {
  }

  lemma {:induction false} BytesOne(b: Bucket, data: nat -> seq<char>)
    ensures Bytes([b], data) == Segment(b, data)
  {
    assert [b][1..] == [];
  }

  lemma HalvesSegments(b: Bucket, point: nat, data: nat -> seq<char>)
    requires point <= b.length
    ensures Halves(b, point) == [Bucket(b.res, b.start, point), Bucket(b.res, b.start + point, b.length - point)]
    ensures b.start + b.length <= |data(b.res)| ==>
            && |Segment(b, data)| == b.length
            && Segment(Bucket(b.res, b.start, point), data) == Segment(b, data)[..point]
            && Segment(Bucket(b.res, b.start + point, b.length - point), data) == Segment(b, data)[point..]
  {
    if b.start + b.length <= |data(b.res)| {
      Slices(data(b.res), b.start, b.start + point, b.start + b.length);
    }
  }

  /**
    A split is rejected exactly when the point is past the end or there is no room, and changes nothing then.
    Otherwise `point` is the offset of the first byte of the second bucket, which comes just behind the first.
    */
  lemma {:induction false} SplitAtPoint(st: Store, i: nat, point: nat, room: bool, data: nat -> seq<char>)
    requires Enabled(st, Split(i, point, room))
    ensures var st', b := Step(st, Split(i, point, room)), st.live[i];
            if point <= b.length && room then
              && |st'.live| == |st.live| + 1
              && st'.live[i] == Bucket(b.res, b.start, point)
              && st'.live[i + 1] == Bucket(b.res, b.start + point, b.length - point)
              && (b.start + b.length <= |data(b.res)| ==>
                  && |Segment(b, data)| == b.length
                  && Segment(st'.live[i], data) == Segment(b, data)[..point]
                  && Segment(st'.live[i + 1], data) == Segment(b, data)[point..])
              && (forall j :: 0 <= j < i ==> st'.live[j] == st.live[j])
              && (forall j :: i < j < |st.live| ==> st'.live[j + 1] == st.live[j])
              && st'.count == st.count[b.res := st.count[b.res] + 1] && st'.released == st.released
            else st' == st
  {
    if point <= st.live[i].length {
      HalvesSegments(st.live[i], point, data);
      var x, mid, y := st.live[..i], Halves(st.live[i], point), st.live[i + 1..];
      assert forall j :: i < j < |st.live| ==> (x + mid + y)[j + 1] == st.live[j];
    }
  }

  /** The copy refers to the same bytes as the original and stands where it was put; nothing else moves. */
  lemma {:induction false} CopyInPlace(st: Store, i: nat, at: nat, room: bool, data: nat -> seq<char>)
    requires Enabled(st, Copy(i, at, room))
    ensures var st', b := Step(st, Copy(i, at, room)), st.live[i];
            if room then
              && |st'.live| == |st.live| + 1
              && st'.live[at] == b && Segment(st'.live[at], data) == Segment(b, data)
              && (forall j :: 0 <= j < at ==> st'.live[j] == st.live[j])
              && (forall j :: at <= j < |st.live| ==> st'.live[j + 1] == st.live[j])
              && st'.count == st.count[b.res := st.count[b.res] + 1] && st'.released == st.released
            else st' == st
  {
  }

  /** A new bucket stands where it was put and is the only one to refer to its resource. */
  lemma {:induction false} MakeInPlace(st: Store, b: Bucket, at: nat)
    requires Enabled(st, Make(b, at)) && Inv(st)
    ensures var st' := Step(st, Make(b, at));
            && |st'.live| == |st.live| + 1 && st'.live[at] == b
            && (forall c :: c in st.live ==> c.res != b.res)
            && (forall j :: 0 <= j < at ==> st'.live[j] == st.live[j])
            && (forall j :: at <= j < |st.live| ==> st'.live[j + 1] == st.live[j])
            && st'.count == st.count[b.res := 1] && st'.released == st.released
  {
  }

  /** The other buckets keep their order; the resource is released when the last one goes. */
  lemma {:induction false} DeleteLeavesRest(st: Store, i: nat)
    requires Enabled(st, Delete(i)) && Inv(st)
    ensures var st', r := Step(st, Delete(i)), st.live[i].res;
            && |st'.live| == |st.live| - 1
            && (forall j :: 0 <= j < i ==> st'.live[j] == st.live[j])
            && (forall j :: i < j < |st.live| ==> st'.live[j - 1] == st.live[j])
            && st'.count == st.count[r := st.count[r] - 1]
            && st'.released == (if exists b :: b in st'.live && b.res == r then st.released else st.released + [r])
  {
    StepKeeps(st, Delete(i));
    NoneReferred(Step(st, Delete(i)).live, st.live[i].res);
  }

  /** The bytes of a brigade are those of its buckets, each in its place. */
  lemma {:induction false} BytesInPlace(x: seq<Bucket>, b: Bucket, y: seq<Bucket>, data: nat -> seq<char>)
    requires b.start + b.length <= |data(b.res)|
    ensures Bytes(x + [b] + y, data) == Bytes(x, data) + data(b.res)[b.start..b.start + b.length] + Bytes(y, data)
  {
    Bytes3(x, [b], y, data);
    BytesOne(b, data);
  }

  /** A split, accepted or not, leaves the bytes of the brigade as they were. */
  lemma {:induction false} SplitKeepsBytes(st: Store, i: nat, point: nat, room: bool, data: nat -> seq<char>)
    requires Enabled(st, Split(i, point, room))
    requires st.live[i].start + st.live[i].length <= |data(st.live[i].res)|
    ensures Bytes(Step(st, Split(i, point, room)).live, data) == Bytes(st.live, data)
  {
    var x, b, y := st.live[..i], st.live[i], st.live[i + 1..];
    if point <= b.length {
      assert st.live == x + [b] + y;
      Bytes3(x, [b], y, data);
      Bytes3(x, Halves(b, point), y, data);
      HalvesBytes(b, point, data);
    }
  }
}
