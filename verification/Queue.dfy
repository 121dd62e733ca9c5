/** The greatest element of a finite set of integers, for walking an ordered map from its end. */
module IntSets {

  lemma Pick<T>(s: set<T>) returns (a: T)
    requires s != {}
    ensures a in s
  {
    a :| a in s;
  }

  lemma {:induction false} MaxExists(s: set<int>)
    requires s != {}
    ensures exists k :: k in s && forall j | j in s :: j <= k
  {
    var a := Pick(s);
    var top := a;
    if s != {a} {
      MaxExists(s - {a});
      var k :| k in s - {a} && forall j | j in s - {a} :: j <= k;
      top := if a < k then k else a;
    }
    forall j | j in s ensures j <= top {
      assert j == a || j in s - {a};
    }
    assert top in s;
  }

  ghost function MaxKey(s: set<int>): (k: int)
    requires s != {}
    ensures k in s && forall j | j in s :: j <= k
  {
    MaxExists(s);
    var k :| k in s && forall j | j in s :: j <= k;
    k
  }
}

/** The multi-priority queue every thread of the framework hands work through: a map from
    priority to a double-ended queue, emptied from the greatest priority down. */
module Queue {
  import opened IntSets

  /** Priority to deque, as m_queuemap holds it. A priority that was drained keeps its empty deque. */
  type Levels<T> = map<int, seq<T>>

  /** The deque at one priority; a priority never pushed to reads as empty. */
  function At<T>(m: Levels<T>, k: int): seq<T> {
    if k in m then m[k] else []
  }

  ghost predicate AllEmpty<T>(m: Levels<T>) {
    forall k | k in m :: m[k] == []
  }

  /** k is the greatest priority with something in it. */
  ghost predicate IsTop<T>(m: Levels<T>, k: int) {
    && k in m && m[k] != []
    && forall j | j in m && k < j :: m[j] == []
  }

  /** No negative priority was ever stored, so -1 from Pop can only mean "nothing there". */
  ghost predicate Usable<T>(m: Levels<T>) {
    forall k | k in m :: 0 <= k
  }

  /** What Push does to the map; a negative priority is taken as 0. */
  function Put<T>(m: Levels<T>, x: T, key: int, isback: bool): Levels<T> {
    var k := if key < 0 then 0 else key;
    m[k := if isback then At(m, k) + [x] else [x] + At(m, k)]
  }

  /** The reference view: everything queued, in the order repeated pops return it. */
  ghost function Flatten<T>(m: Levels<T>): seq<T>
    decreases |m|
  {
    if m.Keys == {} then []
    else
      var k := MaxKey(m.Keys);
      m[k] + Flatten(m - {k})
  }

  /** The part of the queue at priority k and above. */
  ghost function Above<T>(m: Levels<T>, k: int): Levels<T> {
    map j | j in m && k <= j :: m[j]
  }

  /** The part of the queue strictly below priority k. */
  ghost function Below<T>(m: Levels<T>, k: int): Levels<T> {
    map j | j in m && j < k :: m[j]
  }

  lemma FlattenTop<T>(m: Levels<T>, t: int)
    requires t in m && forall j | j in m :: j <= t
    ensures Flatten(m) == m[t] + Flatten(m - {t})
  {
    assert MaxKey(m.Keys) == t;
  }

  lemma RestrictRemove<T>(m: Levels<T>, k: int, t: int)
    requires t in m && k <= t
    ensures Above(m - {t}, k) == Above(m, k) - {t}
    ensures Below(m - {t}, k) == Below(m, k)
  {
  }

  lemma FlattenNone<T>()
    ensures Flatten<T>(map[]) == []
  {
  }

  lemma AllBelow<T>(m: Levels<T>, k: int)
    requires forall j | j in m :: j < k
    ensures Above(m, k) == map[] && Below(m, k) == m
  {
  }

  lemma TopAbove<T>(m: Levels<T>, k: int, t: int)
    requires t in m && k <= t && forall j | j in m :: j <= t
    ensures t in Above(m, k) && Above(m, k)[t] == m[t] && forall j | j in Above(m, k) :: j <= t
  {
  }

  lemma {:induction false} FlattenSplit<T>(m: Levels<T>, k: int)
    ensures Flatten(m) == Flatten(Above(m, k)) + Flatten(Below(m, k))
    decreases |m|
  {
    hide Flatten, Above, Below;
    if forall j | j in m :: j < k {
      AllBelow(m, k);
      FlattenNone<T>();
    } else {
      assert m.Keys != {};
      var t := MaxKey(m.Keys);
      TopAbove(m, k, t);
      FlattenSplit(m - {t}, k);
      FlattenTop(m, t);
      RestrictRemove(m, k, t);
      FlattenTop(Above(m, k), t);
    }
  }

  lemma PutParts<T>(m: Levels<T>, x: T, k: int, isback: bool)
    requires 0 <= k
    ensures
      var t := Put(m, x, k, isback);
      && Below(t, k) == Below(m, k) && Above(t, k + 1) == Above(m, k + 1)
      && At(t, k) == if isback then At(m, k) + [x] else [x] + At(m, k)
  {
  }

  /** Pushing at the back of priority k adds x right after everything of that priority and above,
      and before everything below it. */
  lemma PutBackFlatten<T>(m: Levels<T>, x: T, k: int)
    requires 0 <= k
    ensures Flatten(Put(m, x, k, true)) == Flatten(Above(m, k)) + [x] + Flatten(Below(m, k))
  {
    hide *;
    var m' := Put(m, x, k, true);
    PutParts(m, x, k, true);
    FlattenSplit(m', k);
    AboveOwn(m, k);
    AboveOwn(m', k);
    assert Flatten(Above(m', k)) == Flatten(Above(m, k)) + [x];
  }

  /** Pushing at the front of priority k adds x right before everything of that priority. */
  lemma PutFrontFlatten<T>(m: Levels<T>, x: T, k: int)
    requires 0 <= k
    ensures Flatten(Put(m, x, k, false)) == Flatten(Above(m, k + 1)) + [x] + (At(m, k) + Flatten(Below(m, k)))
  {
    hide *;
    var m' := Put(m, x, k, false);
    PutParts(m, x, k, false);
    FlattenSplit(m', k);
    AboveOwn(m', k);
  }

  lemma AboveOwn<T>(m: Levels<T>, k: int)
    ensures Flatten(Above(m, k)) == Flatten(Above(m, k + 1)) + At(m, k)
  {
    var a := Above(m, k);
    FlattenSplit(a, k + 1);
    assert Above(a, k + 1) == Above(m, k + 1);
    if k in m {
      assert Below(a, k + 1).Keys == {k};
    } else {
      assert Below(a, k + 1).Keys == {};
    }
  }

  lemma {:induction false} AllEmptyFlatten<T>(m: Levels<T>)
    ensures AllEmpty(m) <==> Flatten(m) == []
    decreases |m|
  {
    if m.Keys != {} {
      var t := MaxKey(m.Keys);
      AllEmptyFlatten(m - {t});
      if Flatten(m) == [] {
        assert m[t] == [] && Flatten(m - {t}) == [];
        forall k | k in m ensures m[k] == [] {
          if k != t { assert k in m - {t}; }
        }
      }
    }
  }

  /** The front of the greatest non-empty priority is the first element of the reference view, and
      taking it away leaves the rest of the view. */
  lemma TopIsFirst<T>(m: Levels<T>, k: int)
    requires IsTop(m, k)
    ensures Flatten(m) != [] && Flatten(m)[0] == m[k][0]
    ensures Flatten(m[k := m[k][1..]]) == Flatten(m)[1..]
  {
    var m' := m[k := m[k][1..]];
    TopSplit(m, k);
    TopSplit(m', k);
    assert Below(m', k) == Below(m, k);
    assert Flatten(m)[1..] == m[k][1..] + Flatten(Below(m, k));
  }

  lemma TopSplit<T>(m: Levels<T>, k: int)
    requires k in m
    requires forall j | j in m && k < j :: m[j] == []
    ensures Flatten(m) == m[k] + Flatten(Below(m, k))
  {
    FlattenSplit(m, k);
    AboveOwn(m, k);
    AllEmptyFlatten(Above(m, k + 1));
  }

  lemma FlattenRemove<T>(m: Levels<T>, k: int)
    requires k in m
    ensures |Flatten(m)| == |m[k]| + |Flatten(m - {k})|
  {
    FlattenSplit(m, k);
    FlattenSplit(m - {k}, k);
    AboveOwn(m, k);
    AboveOwn(m - {k}, k);
    assert Above(m - {k}, k + 1) == Above(m, k + 1);
    assert Below(m - {k}, k) == Below(m, k);
  }

  class CQueue<T> {
    var queuemap: Levels<T>

    constructor ()
      ensures Usable(queuemap) && Flatten(queuemap) == []
    {
      queuemap := map[];
    }

    /** The mutex-protected sum over every deque is the length of the reference view. */
    method Size() returns (size: nat)
      ensures size == |Flatten(queuemap)|
    {
      size := 0;
      var rest := queuemap;
      while rest.Keys != {}
        invariant rest.Keys <= queuemap.Keys && forall k | k in rest :: rest[k] == queuemap[k]
        invariant size + |Flatten(rest)| == |Flatten(queuemap)|
        decreases |rest|
      {
        var k :| k in rest.Keys;
        size := size + |rest[k]|;
        FlattenRemove(rest, k);
        rest := rest - {k};
      }
    }

    method Push(x: T, key: int, isback: bool)
      modifies this
      ensures queuemap == Put(old(queuemap), x, key, isback)
      ensures old(Usable(queuemap)) ==> Usable(queuemap)
    {
      var k := key;
      if k < 0 {
        k := 0;
      }
      if k !in queuemap {
        queuemap := queuemap[k := []];
      }
      if isback {
        queuemap := queuemap[k := queuemap[k] + [x]];
      } else {
        queuemap := queuemap[k := [x] + queuemap[k]];
      }
    }

    /** Walks the priorities from the last one down to the first non-empty deque. The caller's
        variable x0 keeps its value when there is none. Waiting on the condition variable changes
        nothing here: a Pop that waited still answers -1. */
    method Pop(x0: T, ispop: bool) returns (key: int, x: T)
      requires Usable(queuemap)
      modifies this
      ensures Usable(queuemap)
      ensures key == -1 <==> Flatten(old(queuemap)) == []
      ensures key == -1 ==> queuemap == old(queuemap) && x == x0
      ensures key != -1 ==> IsTop(old(queuemap), key) && x == Flatten(old(queuemap))[0]
      ensures key != -1 && !ispop ==> queuemap == old(queuemap)
      ensures key != -1 && ispop ==>
        && queuemap == old(queuemap)[key := old(queuemap)[key][1..]]
        && Flatten(queuemap) == Flatten(old(queuemap))[1..]
    {
      key, x := -1, x0;
      AllEmptyFlatten(queuemap);
      var rest := queuemap.Keys;
      while rest != {}
        invariant rest <= queuemap.Keys && queuemap == old(queuemap) && key == -1 && x == x0
        invariant forall k, j | k in rest && j in queuemap && j !in rest :: k < j
        invariant forall j | j in queuemap && j !in rest :: queuemap[j] == []
        decreases rest
      {
        MaxExists(rest);
        var it :| it in rest && forall j | j in rest :: j <= it;
        rest := rest - {it};
        if queuemap[it] != [] {
          x := queuemap[it][0];
          TopIsFirst(queuemap, it);
          if ispop {
            queuemap := queuemap[it := queuemap[it][1..]];
          }
          key := it;
          return;
        }
      }
    }
  }

  // ---- runs of operations by any mix of threads, each operation under the mutex ----

  datatype Op<T> = PushOp(x: T, key: int, isback: bool) | PopOp | PeekOp

  ghost function TopKey<T>(m: Levels<T>): (k: int)
    requires !AllEmpty(m)
    ensures IsTop(m, k)
  {
    var live := set j | j in m && m[j] != [];
    assert exists j :: j in live by {
      var j :| j in m && m[j] != [];
      assert j in live;
    }
    var k := MaxKey(live);
    assert forall j | j in m && m[j] != [] :: j in live;
    k
  }

  /** The queue after one operation and what it took out, as the contracts of Push and Pop say. */
  ghost function Apply<T>(m: Levels<T>, op: Op<T>): (r: (Levels<T>, seq<T>)) {
    match op
    case PushOp(x, key, isback) => (Put(m, x, key, isback), [])
    case PeekOp => (m, [])
    case PopOp =>
      if AllEmpty(m) then (m, [])
      else (m[TopKey(m) := m[TopKey(m)][1..]], [m[TopKey(m)][0]])
  }

  ghost function RunOps<T>(m: Levels<T>, ops: seq<Op<T>>): (r: (Levels<T>, seq<T>))
    decreases |ops|
  {
    if ops == [] then (m, [])
    else
      var s := Apply(m, ops[0]);
      var t := RunOps(s.0, ops[1..]);
      (t.0, s.1 + t.1)
  }

  function Pops<T>(n: nat): seq<Op<T>> {
    seq(n, _ => PopOp)
  }

  /** Repeated pops return the elements in the order of the reference view: greatest priority
      first, and front to back within one priority. */
  lemma {:induction false} DrainOrder<T>(m: Levels<T>, n: nat)
    requires n <= |Flatten(m)|
    ensures RunOps(m, Pops(n)).1 == Flatten(m)[..n]
    ensures Flatten(RunOps(m, Pops(n)).0) == Flatten(m)[n..]
    decreases n
  {
    if n > 0 {
      AllEmptyFlatten(m);
      TopIsFirst(m, TopKey(m));
      assert Pops<T>(n)[1..] == Pops(n - 1);
      DrainOrder(Apply(m, PopOp).0, n - 1);
      assert Flatten(m)[..n] == [Flatten(m)[0]] + Flatten(m)[1..][..n - 1];
    }
  }

  function Pushed<T>(ops: seq<Op<T>>): seq<T> {
    if ops == [] then []
    else (if ops[0].PushOp? then [ops[0].x] else []) + Pushed(ops[1..])
  }

  lemma ApplyConserves<T>(m: Levels<T>, op: Op<T>)
    ensures multiset(Flatten(m)) + multiset(Pushed([op]))
      == multiset(Apply(m, op).1) + multiset(Flatten(Apply(m, op).0))
  {
    assert Pushed([op]) == if op.PushOp? then [op.x] else [] by { assert [op][1..] == []; }
    hide Flatten, Put, Pushed;
    match op {
      case PushOp(x, key, isback) => PutConserves(m, x, key, isback);
      case PopOp => if !AllEmpty(m) { PopConserves(m); }
      case PeekOp =>
    }
  }

  lemma PopConserves<T>(m: Levels<T>)
    requires !AllEmpty(m)
    ensures multiset(Flatten(m)) == multiset(Apply(m, PopOp).1) + multiset(Flatten(Apply(m, PopOp).0))
  {
    TopIsFirst(m, TopKey(m));
    hide Flatten;
    assert Flatten(m) == [Flatten(m)[0]] + Flatten(m)[1..];
  }

  lemma PutClamped<T>(m: Levels<T>, x: T, key: int, isback: bool)
    ensures Put(m, x, key, isback) == Put(m, x, if key < 0 then 0 else key, isback)
  {
  }

  lemma OneBetween<T>(a: seq<T>, x: T, b: seq<T>)
    ensures multiset(a + [x] + b) == multiset(a + b) + multiset([x])
  {
  }

  lemma PutConserves<T>(m: Levels<T>, x: T, key: int, isback: bool)
    ensures multiset(Flatten(Put(m, x, key, isback))) == multiset(Flatten(m)) + multiset([x])
  {
    hide *;
    var k := if key < 0 then 0 else key;
    PutClamped(m, x, key, isback);
    FlattenSplit(m, k);
    if isback {
      PutBackFlatten(m, x, k);
      OneBetween(Flatten(Above(m, k)), x, Flatten(Below(m, k)));
    } else {
      PutFrontFlatten(m, x, k);
      AboveOwn(m, k);
      OneBetween(Flatten(Above(m, k + 1)), x, At(m, k) + Flatten(Below(m, k)));
      assert Flatten(Above(m, k + 1)) + (At(m, k) + Flatten(Below(m, k))) == Flatten(m);
    }
  }

  lemma PushedFirst<T>(ops: seq<Op<T>>)
    requires ops != []
    ensures Pushed(ops) == Pushed([ops[0]]) + Pushed(ops[1..])
    ensures Pushed([ops[0]]) == if ops[0].PushOp? then [ops[0].x] else []
  {
    assert [ops[0]][1..] == [];
  }

  /** No element is lost or duplicated by any mix of pushes at either end, peeks and pops. */
  lemma {:induction false} RunConserves<T>(m: Levels<T>, ops: seq<Op<T>>)
    ensures multiset(Flatten(m)) + multiset(Pushed(ops))
         == multiset(RunOps(m, ops).1) + multiset(Flatten(RunOps(m, ops).0))
    decreases |ops|
  {
    if ops != [] {
      var (m1, out) := Apply(m, ops[0]);
      var (m2, outs) := RunOps(m1, ops[1..]);
      calc {
        multiset(Flatten(m)) + multiset(Pushed(ops));
        { PushedFirst(ops); }
        multiset(Flatten(m)) + multiset(Pushed([ops[0]])) + multiset(Pushed(ops[1..]));
        { ApplyConserves(m, ops[0]); }
        multiset(out) + (multiset(Flatten(m1)) + multiset(Pushed(ops[1..])));
        { RunConserves(m1, ops[1..]); }
        multiset(out) + (multiset(outs) + multiset(Flatten(m2)));
        { assert RunOps(m, ops).1 == out + outs; }
        multiset(RunOps(m, ops).1) + multiset(Flatten(m2));
      }
    }
  }

  /** One operation on a queue that only ever uses the back of priority k. */
  lemma ApplyIsFifo<T>(m: Levels<T>, op: Op<T>, k: int)
    requires 0 <= k
    requires forall j | j in m && j != k :: m[j] == []
    requires op.PushOp? ==> op.key == k && op.isback
    ensures At(m, k) + (if op.PushOp? then [op.x] else []) == Apply(m, op).1 + At(Apply(m, op).0, k)
    ensures forall j | j in Apply(m, op).0 && j != k :: Apply(m, op).0[j] == []
  {
    if op.PopOp? && !AllEmpty(m) {
      assert TopKey(m) == k;
    }
  }

  /** When every push goes to the back of one priority the queue is first in, first out: what was
      taken out followed by what is left is what was there followed by what was pushed. */
  lemma {:induction false} SinglePriorityIsFifo<T>(m: Levels<T>, ops: seq<Op<T>>, k: int)
    requires 0 <= k
    requires forall j | j in m && j != k :: m[j] == []
    requires forall i | 0 <= i < |ops| && ops[i].PushOp? :: ops[i].key == k && ops[i].isback
    ensures At(m, k) + Pushed(ops) == RunOps(m, ops).1 + At(RunOps(m, ops).0, k)
    ensures forall j | j in RunOps(m, ops).0 && j != k :: RunOps(m, ops).0[j] == []
    decreases |ops|
  {
    if ops != [] {
      var (m1, out) := Apply(m, ops[0]);
      var (m2, outs) := RunOps(m1, ops[1..]);
      ApplyIsFifo(m, ops[0], k);
      SinglePriorityIsFifo(m1, ops[1..], k);
      PushedFirst(ops);
      Telescope(At(m, k), Pushed([ops[0]]), Pushed(ops[1..]), out, At(m1, k), outs, At(m2, k));
    }
  }

  lemma Telescope<T>(a: seq<T>, p: seq<T>, ps: seq<T>, o: seq<T>, b: seq<T>, os: seq<T>, c: seq<T>)
    requires a + p == o + b && b + ps == os + c
    ensures a + (p + ps) == (o + os) + c
  {
    assert a + (p + ps) == (a + p) + ps == o + (b + ps) == (o + os) + c;
  }
}
