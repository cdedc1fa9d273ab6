/** Resource pools; the heap answers are parameters. */
module ResourcePool {
  import opened Prelude

  /** `freeOnFree`: freed resources go back to the heap. `maxNumRes` 0: no limit. */
  datatype Pool = Pool(
    sizeEach: nat, increment: nat, freeOnFree: bool, maxNumRes: nat,
    freelist: seq<nat>, active: seq<nat>,
    numFree: nat, numInUse: nat, lowWater: nat, hiWater: nat, totalAllocs: nat)

  function Total(p: Pool): nat {
    p.numInUse + p.numFree
  }

  function Reversed(s: seq<nat>): seq<nat> {
    if s == [] then [] else Reversed(s[1..]) + [s[0]]
  }

  /** Each new resource goes to the front of the free list. */
  function AddToPool(p: Pool, space: seq<nat>): Pool {
    p.(freelist := Reversed(space) + p.freelist, numFree := p.numFree + |space|,
       lowWater := if Total(p) == 0 then |space| else p.lowWater)
  }

  /** `None`: the heap gave nothing, and the caller gets no pool. */
  function Init(size: nat, initAlloc: nat, increment: nat, max: nat, space: Option<seq<nat>>): Option<Pool> {
    var p := Pool(size, increment, size == 0 || (increment <= 1 && initAlloc <= 1), max, [], [], 0, 0, initAlloc, 0, 0);
    if initAlloc == 0 then Some(p) else if space.None? then None else Some(AddToPool(p, space.value))
  }

  /** A request is turned down for a wrong size, and as soon as the quota is reached, free resources or not. */
  predicate Refused(p: Pool, len: nat) {
    len == 0 || (p.maxNumRes != 0 && Total(p) >= p.maxNumRes) || (p.sizeEach != 0 && len != p.sizeEach)
  }

  function Max(a: int, b: int): int {
    if a > b then a else b
  }

  function Min(a: nat, b: nat): nat {
    if a < b then a else b
  }

  /** The first free resource becomes active. */
  function HandOut(p: Pool): (Pool, Option<nat>)
    requires p.freelist != [] && p.numFree > 0
  {
    var r := p.freelist[0];
    (p.(freelist := p.freelist[1..], active := [r] + p.active, numFree := p.numFree - 1,
        lowWater := Min(p.lowWater, p.numFree - 1), numInUse := p.numInUse + 1,
        hiWater := if p.numInUse + 1 > p.hiWater then p.numInUse + 1 else p.hiWater, totalAllocs := p.totalAllocs + 1),
     Some(r))
  }

  /** `space` is what the heap gives for `increment` more resources, if it is asked and can. */
  function Granted(p: Pool, len: nat, space: Option<seq<nat>>): (Pool, Option<nat>)
    requires Counted(p)
  {
    if Refused(p, len) then (p, None)
    else if p.freelist != [] then HandOut(p)
    else if space.None? || |space.value| == 0 then (p, None)
    else
      ReversedKeeps(space.value);
      HandOut(AddToPool(p, space.value))
  }

  function Remove(s: seq<nat>, r: nat): seq<nat> {
    if s == [] then [] else if s[0] == r then s[1..] else [s[0]] + Remove(s[1..], r)
  }

  /** `None` when the resource is already on the free list: the program aborts. */
  function Freed(p: Pool, r: nat): Option<Pool>
    requires Counted(p) && (r in p.active || r in p.freelist)
  {
    if r in p.freelist then None
    else
      var q := p.(active := Remove(p.active, r), numInUse := p.numInUse - 1);
      Some(if p.freeOnFree then q else q.(freelist := [r] + q.freelist, numFree := q.numFree + 1))
  }

  predicate Distinct(s: seq<nat>) {
    forall i, j | 0 <= i < j < |s| :: s[i] != s[j]
  }

  /** The counters are the lengths of the lists. */
  predicate Counted(p: Pool) {
    p.numFree == |p.freelist| && p.numInUse == |p.active|
  }

  /** The heap gives what was asked for, at addresses that the pool does not hold. */
  predicate Fresh(p: Pool, count: nat, space: Option<seq<nat>>) {
    space.Some? ==>
      && |space.value| == count
      && Distinct(space.value)
      && forall r | r in space.value :: r !in p.freelist && r !in p.active
  }

  // ---------------------------------------------------------------- the invariant

  predicate Disjoint(p: Pool) {
    Distinct(p.freelist) && Distinct(p.active) && forall r | r in p.active :: r !in p.freelist
  }

  /** `init` is what the pool started with; neither bound means anything for an unlimited pool. */
  predicate Bounded(p: Pool, init: nat) {
    p.maxNumRes != 0 ==>
      && p.numInUse <= p.maxNumRes
      && Total(p) <= Max(init, p.maxNumRes - 1 + p.increment)
  }

  predicate Inv(p: Pool, init: nat) {
    Counted(p) && Disjoint(p) && Bounded(p, init) && p.lowWater <= p.numFree && p.numInUse <= p.hiWater
  }

  lemma {:induction false} ReversedKeeps(s: seq<nat>)
    ensures |Reversed(s)| == |s|
    ensures forall r :: r in Reversed(s) <==> r in s
    ensures Distinct(s) ==> Distinct(Reversed(s))
  {
    if s != [] {
      ReversedKeeps(s[1..]);
      assert s == [s[0]] + s[1..];
      if Distinct(s) {
        assert forall i | 0 <= i < |s| - 1 :: s[1..][i] == s[i + 1];
        assert s[0] !in s[1..];
        assert Reversed(s)[|s| - 1] == s[0];
      }
    }
  }

  lemma {:induction false} RemoveKeeps(s: seq<nat>, r: nat)
    requires Distinct(s) && r in s
    ensures |Remove(s, r)| == |s| - 1
    ensures Distinct(Remove(s, r))
    ensures forall x :: x in Remove(s, r) <==> x in s && x != r
  {
    assert s == [s[0]] + s[1..];
    assert forall i | 0 <= i < |s| - 1 :: s[1..][i] == s[i + 1];
    assert s[0] !in s[1..];
    if s[0] != r {
      RemoveKeeps(s[1..], r);
      assert Remove(s, r) == [s[0]] + Remove(s[1..], r);
    }
  }

  lemma InitInv(size: nat, initAlloc: nat, increment: nat, max: nat, space: Option<seq<nat>>)
    requires space.Some? ==> |space.value| == initAlloc && Distinct(space.value)
    ensures var o := Init(size, initAlloc, increment, max, space);
            o.Some? ==>
              && Inv(o.value, initAlloc) && o.value.lowWater == o.value.numFree == initAlloc
              && o.value.hiWater == o.value.totalAllocs == o.value.numInUse == 0
              && o.value.sizeEach == size && o.value.increment == increment && o.value.maxNumRes == max
              && (o.value.freeOnFree <==> size == 0 || (increment <= 1 && initAlloc <= 1))
    ensures Init(size, initAlloc, increment, max, space).None? <==> initAlloc > 0 && space.None?
  {
    if initAlloc != 0 && space.Some? {
      ReversedKeeps(space.value);
      assert Reversed(space.value) + [] == Reversed(space.value);
    }
  }

  lemma AddInv(p: Pool, init: nat, space: seq<nat>)
    requires Inv(p, init) && Fresh(p, p.increment, Some(space)) && p.freelist == []
    requires p.maxNumRes != 0 ==> Total(p) < p.maxNumRes
    ensures Inv(AddToPool(p, space), init)
    ensures AddToPool(p, space).freelist == Reversed(space)
    ensures forall r :: r in Reversed(space) <==> r in space
  {
    ReversedKeeps(space);
    assert Reversed(space) + [] == Reversed(space);
  }

  lemma HandOutInv(p: Pool, init: nat)
    requires Inv(p, init) && p.freelist != []
    requires p.maxNumRes != 0 ==> p.numInUse < p.maxNumRes
    ensures Inv(HandOut(p).0, init)
  {
    var q, r := HandOut(p).0, p.freelist[0];
    assert p.freelist == [r] + q.freelist;
    assert forall i | 0 <= i < |q.freelist| :: q.freelist[i] == p.freelist[i + 1];
    assert forall i | 1 <= i < |q.active| :: q.active[i] == p.active[i - 1] && p.active[i - 1] in p.active;
    assert r !in q.freelist;
  }

  /**
   A request is met exactly when it is of the right size, the quota leaves room, and a resource is
   free or the heap gives more; what is handed out was not in use, and was free or is new.
   */
  lemma AllocInv(p: Pool, init: nat, len: nat, space: Option<seq<nat>>)
    requires Inv(p, init) && Fresh(p, p.increment, space)
    ensures var (q, o) := Granted(p, len, space);
            && Inv(q, init)
            && (o.Some? <==>
                  && len > 0 && (p.sizeEach == 0 || len == p.sizeEach)
                  && (p.maxNumRes == 0 || p.numInUse + p.numFree < p.maxNumRes)
                  && (p.freelist != [] || (p.increment > 0 && space.Some?)))
            && (o.None? ==> q == p)
            && (o.Some? ==> q.totalAllocs == p.totalAllocs + 1)
            && (o.Some? ==>
                  && o.value !in p.active
                  && q.active == [o.value] + p.active
                  && (o.value in p.freelist || (p.freelist == [] && o.value in space.value)))
  {
    if !Refused(p, len) {
      if p.freelist != [] {
        HandOutInv(p, init);
        assert p.freelist[0] in p.freelist;
      } else if space.Some? && |space.value| > 0 {
        AddInv(p, init, space.value);
        HandOutInv(AddToPool(p, space.value), init);
        assert Reversed(space.value)[0] in Reversed(space.value);
      }
    }
  }

  /** The resource handed out is the one freed last, or else the last of those that the heap gave. */
  lemma AllocOrder(p: Pool, len: nat, space: Option<seq<nat>>)
    requires Counted(p) && Granted(p, len, space).1.Some?
    ensures var (q, o) := Granted(p, len, space);
            if p.freelist != [] then [o.value] + q.freelist == p.freelist
            else
              var n := |space.value|;
              && space.Some? && n > 0 && o.value == space.value[n - 1] && |q.freelist| == n - 1
              && forall k | 0 <= k < n - 1 :: q.freelist[k] == space.value[n - 2 - k]
  {
    if p.freelist == [] {
      ReversedKeeps(space.value);
      forall k | 0 <= k < |space.value|
        ensures Reversed(space.value)[k] == space.value[|space.value| - 1 - k]
      {
        ReversedIs(space.value, k);
      }
      assert Reversed(space.value) + [] == Reversed(space.value);
    }
  }

  lemma {:induction false} ReversedIs(s: seq<nat>, k: nat)
    requires k < |s|
    ensures |Reversed(s)| == |s| && Reversed(s)[k] == s[|s| - 1 - k]
  {
    ReversedKeeps(s);
    ReversedKeeps(s[1..]);
    if k < |s| - 1 {
      ReversedIs(s[1..], k);
    }
  }

  /** The others in use keep their order. */
  lemma {:induction false} RemoveOrder(a: seq<nat>, r: nat, b: seq<nat>)
    requires r !in a
    ensures Remove(a + ([r] + b), r) == a + b
  {
    var t := [r] + b;
    if a == [] {
      assert a + t == t && t[1..] == b && a + b == b;
    } else {
      var x, y := a[0], a[1..];
      RemoveOrder(y, r, b);
      FirstOf(a, t);
      FirstOf(a, b);
      hide Remove;
      RemoveLater(x, y + t, r);
    }
  }

  lemma FirstOf(a: seq<nat>, t: seq<nat>)
    requires a != []
    ensures a + t == [a[0]] + (a[1..] + t)
  {
  }

  lemma RemoveLater(x: nat, s: seq<nat>, r: nat)
    requires x != r
    ensures Remove([x] + s, r) == [x] + Remove(s, r)
  {
    assert ([x] + s)[1..] == s;
  }

  /** Freeing takes exactly the one resource out of use; freeing it again aborts, if the pool keeps it. */
  lemma FreeInv(p: Pool, init: nat, r: nat)
    requires Inv(p, init) && (r in p.active || r in p.freelist)
    ensures Freed(p, r).Some? <==> r in p.active
    ensures r in p.active ==>
              var q := Freed(p, r).value;
              && Inv(q, init)
              && (forall x :: x in q.active <==> x in p.active && x != r)
              && q.freelist == (if p.freeOnFree then p.freelist else [r] + p.freelist)
              && (q.totalAllocs, q.hiWater, q.lowWater) == (p.totalAllocs, p.hiWater, p.lowWater)
              && (!p.freeOnFree ==> Freed(q, r).None?)
  {
    if r in p.active {
      RemoveKeeps(p.active, r);
      var q := Freed(p, r).value;
      assert p.freeOnFree || q.freelist == [r] + p.freelist;
      assert !p.freeOnFree
          ==> forall i | 1 <= i < |q.freelist| :: q.freelist[i] == p.freelist[i - 1] && p.freelist[i - 1] in p.freelist;
    }
  }

  // ---------------------------------------------------------------- runs

  datatype Op = Alloc(len: nat, space: Option<seq<nat>>) | Release(r: nat)

  predicate Allowed(p: Pool, op: Op) {
    Counted(p) &&
    match op
    case Alloc(_, space) => Fresh(p, p.increment, space)
    case Release(r) => r in p.active && r !in p.freelist
  }

  function Step(p: Pool, op: Op): Pool
    requires Allowed(p, op)
  {
    match op
    case Alloc(len, space) => Granted(p, len, space).0
    case Release(r) => Freed(p, r).value
  }

  /** `ps` are the states that the operations pass through. */
  predicate IsRun(ps: seq<Pool>, ops: seq<Op>) {
    |ps| == |ops| + 1 &&
    forall i | 0 <= i < |ops| :: Allowed(ps[i], ops[i]) && ps[i + 1] == Step(ps[i], ops[i])
  }

  lemma StepInv(p: Pool, init: nat, op: Op)
    requires Inv(p, init) && Allowed(p, op)
    ensures Inv(Step(p, op), init)
  {
    match op
    case Alloc(len, space) => AllocInv(p, init, len, space);
    case Release(r) => FreeInv(p, init, r);
  }

  /** The first resources of an empty pool set the low-water mark anew, and one at a time do no harm. */
  predicate TracksLow(p: Pool) {
    (!p.freeOnFree && Total(p) > 0) || p.increment <= 1
  }

  /** How one step moves the watermarks. */
  lemma StepMarks(p: Pool, init: nat, op: Op)
    requires Inv(p, init) && Allowed(p, op)
    ensures Step(p, op).hiWater == Max(p.hiWater, Step(p, op).numInUse)
    ensures TracksLow(p) ==> Step(p, op).lowWater == Min(p.lowWater, Step(p, op).numFree) && TracksLow(Step(p, op))
    ensures Step(p, op).(freelist := [], active := [], numFree := 0, numInUse := 0, lowWater := 0, hiWater := 0,
            totalAllocs := 0)
            == p.(freelist := [], active := [], numFree := 0, numInUse := 0, lowWater := 0, hiWater := 0,
                totalAllocs := 0)
    ensures !p.freeOnFree ==> Total(p) <= Total(Step(p, op))
    ensures !p.freeOnFree
            ==> forall r | r in p.active || r in p.freelist :: r in Step(p, op).active || r in Step(p, op).freelist
  {
    match op
    case Alloc(len, space) =>
      AllocInv(p, init, len, space);
      if !Refused(p, len) && p.freelist != [] {
        assert p.freelist == [p.freelist[0]] + p.freelist[1..];
      }
    case Release(r) => FreeInv(p, init, r);
  }

  lemma {:induction false} RunInv(ps: seq<Pool>, ops: seq<Op>, init: nat)
    requires IsRun(ps, ops) && Inv(ps[0], init)
    ensures forall i | 0 <= i < |ps| :: Inv(ps[i], init)
    decreases |ops|
  {
    if ops != [] {
      var n := |ops| - 1;
      RunInv(ps[..n + 1], ops[..n], init);
      assert Inv(ps[..n + 1][n], init) && ps[..n + 1][n] == ps[n];
      StepInv(ps[n], init, ops[n]);
      forall i | 0 <= i < |ps|
        ensures Inv(ps[i], init)
      {
        if i <= n {
          assert ps[..n + 1][i] == ps[i];
        }
      }
    }
  }

  /** A run is a shorter run and one more step. */
  lemma LastStep(ps: seq<Pool>, ops: seq<Op>, init: nat)
    requires IsRun(ps, ops) && Inv(ps[0], init) && ops != []
    ensures var n := |ops| - 1;
            && IsRun(ps[..n + 1], ops[..n])
            && Inv(ps[n], init) && Allowed(ps[n], ops[n]) && ps[n + 1] == Step(ps[n], ops[n])
  {
    RunInv(ps, ops, init);
  }

  /** The high-water mark is the most resources that were ever in use at once. */
  lemma {:induction false} HiWaterIsThePeak(ps: seq<Pool>, ops: seq<Op>, init: nat)
    requires IsRun(ps, ops) && Inv(ps[0], init) && ps[0].hiWater == ps[0].numInUse
    ensures forall i | 0 <= i < |ps| :: ps[i].numInUse <= ps[|ops|].hiWater
    ensures exists i | 0 <= i < |ps| :: ps[i].numInUse == ps[|ops|].hiWater
    decreases |ops|
  {
    if ops == [] {
      assert ps[0].numInUse == ps[|ops|].hiWater;
    } else {
      hide Inv, IsRun, Allowed, Step;
      var n := |ops| - 1;
      var qs := ps[..n + 1];
      LastStep(ps, ops, init);
      HiWaterIsThePeak(qs, ops[..n], init);
      StepMarks(ps[n], init, ops[n]);
      var i :| 0 <= i < |qs| && qs[i].numInUse == qs[n].hiWater;
      assert forall k | 0 <= k <= n :: ps[k] == qs[k];
      assert ps[i].numInUse == ps[n + 1].hiWater || ps[n + 1].numInUse == ps[n + 1].hiWater;
    }
  }

  /** The last low-water mark is the fewest that were ever free. */
  ghost predicate LowIsFewest(ps: seq<Pool>)
    requires ps != []
  {
    var low := ps[|ps| - 1].lowWater;
    (forall i | 0 <= i < |ps| :: low <= ps[i].numFree) && exists i :: 0 <= i < |ps| && ps[i].numFree == low
  }

  lemma {:induction false} LowWaterIsTheLow(ps: seq<Pool>, ops: seq<Op>, init: nat)
    requires IsRun(ps, ops) && Inv(ps[0], init) && ps[0].lowWater == ps[0].numFree && TracksLow(ps[0])
    ensures LowIsFewest(ps) && TracksLow(ps[|ops|])
    decreases |ops|
  {
    if ops == [] {
      assert ps[0].numFree == ps[|ps| - 1].lowWater;
    } else {
      hide Inv, IsRun, Allowed, Step, TracksLow;
      var n := |ops| - 1;
      var qs := ps[..n + 1];
      LastStep(ps, ops, init);
      LowWaterIsTheLow(qs, ops[..n], init);
      StepMarks(ps[n], init, ops[n]);
      var i :| 0 <= i < |qs| && qs[i].numFree == qs[n].lowWater;
      assert forall k | 0 <= k <= n :: ps[k] == qs[k];
      assert ps[i].numFree == ps[n + 1].lowWater || ps[n + 1].numFree == ps[n + 1].lowWater;
    }
  }

  /**
   Over every run of a new pool the low-water mark is the fewest that were ever free, if and only if
   the pool has resources to begin with or grows by one.
   */
  lemma LowWaterOfNewPool(size: nat, initAlloc: nat, increment: nat, max: nat, space: Option<seq<nat>>)
    requires size == 0 ==> initAlloc <= 1 && increment <= 1
    requires space.Some? ==> |space.value| == initAlloc && Distinct(space.value)
    requires Init(size, initAlloc, increment, max, space).Some?
    ensures var p := Init(size, initAlloc, increment, max, space).value;
            (forall ps, ops | IsRun(ps, ops) && ps[0] == p :: LowIsFewest(ps)) <==> initAlloc > 0 || increment <= 1
  {
    var p := Init(size, initAlloc, increment, max, space).value;
    InitInv(size, initAlloc, increment, max, space);
    if initAlloc > 0 || increment <= 1 {
      forall ps, ops | IsRun(ps, ops) && ps[0] == p
        ensures LowIsFewest(ps)
      {
        LowWaterIsTheLow(ps, ops, initAlloc);
      }
    } else {
      FirstOfMany(p);
    }
  }

  /** An empty pool that grows by more than one forgets, at its first growth, that nothing was free. */
  lemma FirstOfMany(p: Pool)
    requires Inv(p, 0) && Total(p) == 0 && p.increment > 1 && p.sizeEach > 0
    ensures exists ps, ops :: IsRun(ps, ops) && ps[0] == p && !LowIsFewest(ps)
  {
    var space := seq(p.increment, i => i);
    var op := Alloc(p.sizeEach, Some(space));
    assert Distinct(space);
    AllocInv(p, 0, p.sizeEach, Some(space));
    AddInv(p, 0, space);
    var q := Step(p, op);
    assert q.lowWater == p.increment - 1;
    var ps := [p, q];
    assert IsRun(ps, [op]) && ps[0].numFree == 0;
    assert !LowIsFewest(ps);
  }

  // ---------------------------------------------------------------- the quota

  /**
   The quota counts free resources too, and a pool that keeps what is freed never shrinks: once it
   holds `maxNumRes` resources it turns down every later request, however many are free.
   */
  lemma {:induction false} ExhaustedForGood(ps: seq<Pool>, ops: seq<Op>, init: nat)
    requires IsRun(ps, ops) && Inv(ps[0], init)
    requires !ps[0].freeOnFree && ps[0].maxNumRes != 0 && Total(ps[0]) >= ps[0].maxNumRes
    ensures forall i, len | 0 <= i < |ps| :: Refused(ps[i], len)
    ensures forall i | 0 <= i < |ops| && ops[i].Alloc? :: ps[i + 1] == ps[i]
    ensures var p := ps[|ops|]; !p.freeOnFree && p.maxNumRes != 0 && Total(p) >= p.maxNumRes
    decreases |ops|
  {
    if ops != [] {
      var n := |ops| - 1;
      var qs, os := ps[..n + 1], ops[..n];
      assert qs[0] == ps[0] && qs[n] == ps[n];
      ExhaustedForGood(qs, os, init);
      RunInv(ps, ops, init);
      StepMarks(ps[n], init, ops[n]);
      assert forall k | 0 <= k <= n :: ps[k] == qs[k];
      assert forall k | 0 <= k < n :: ops[k] == os[k];
      forall i, len | 0 <= i < |ps|
        ensures Refused(ps[i], len)
      {
        if i <= n {
          assert Refused(qs[i], len);
        }
      }
    }
  }

  /** While the quota leaves room, a pool with a free resource does not turn down a well-sized request. */
  lemma FreeMeansServed(p: Pool, init: nat, len: nat)
    requires Inv(p, init) && p.freelist != [] && len != 0 && (p.sizeEach == 0 || len == p.sizeEach)
    ensures Granted(p, len, None).1.Some? <==> p.maxNumRes == 0 || Total(p) < p.maxNumRes
  {
    AllocInv(p, init, len, None);
  }

  /** A pool of more than one resource that is set up with its whole quota never hands out anything. */
  lemma FullAtStartServesNobody(size: nat, initAlloc: nat, increment: nat, max: nat, space: seq<nat>, ps: seq<Pool>,
      ops: seq<Op>)
    requires size > 0 && initAlloc > 1 && 0 < max <= initAlloc && |space| == initAlloc && Distinct(space)
    requires IsRun(ps, ops) && ps[0] == Init(size, initAlloc, increment, max, Some(space)).value
    ensures ps[0].numFree == initAlloc
    ensures forall i, len | 0 <= i < |ps| :: Refused(ps[i], len)
  {
    hide IsRun;
    InitInv(size, initAlloc, increment, max, Some(space));
    ExhaustedForGood(ps, ops, initAlloc);
  }

  /** A pool that starts empty and grows by one, as a queue has: every resource is in use or with the heap. */
  predicate OneAtATime(p: Pool) {
    p.freeOnFree && p.increment == 1 && p.freelist == []
  }

  lemma CountedBy(p: Pool, init: nat)
    requires Inv(p, init)
    ensures p.numFree == |p.freelist|
  {
  }

  lemma OneAtATimeStays(p: Pool, init: nat, op: Op)
    requires Inv(p, init) && Allowed(p, op) && OneAtATime(p)
    ensures OneAtATime(Step(p, op))
  {
    match op
    case Alloc(len, space) =>
      AllocInv(p, init, len, space);
      if !Refused(p, len) && space.Some? {
        AddInv(p, init, space.value);
      }
    case Release(r) => FreeInv(p, init, r);
  }

  /** Such a pool turns a well-sized request down exactly when `maxNumRes` resources are in use. */
  lemma {:induction false} OnlyUseCounts(size: nat, max: nat, ps: seq<Pool>, ops: seq<Op>)
    requires size > 0 && max > 0 && IsRun(ps, ops) && ps[0] == Init(size, 0, 1, max, None).value
    ensures forall i | 0 <= i < |ps| :: Refused(ps[i], size) <==> ps[i].numInUse >= max
    ensures forall i | 0 <= i < |ps| ::
              && OneAtATime(ps[i]) && ps[i].maxNumRes == max && ps[i].sizeEach == size
              && Inv(ps[i], 0)
    decreases |ops|
  {
    InitInv(size, 0, 1, max, None);
    if ops != [] {
      var n := |ops| - 1;
      var qs := ps[..n + 1];
      LastStep(ps, ops, 0);
      OnlyUseCounts(size, max, qs, ops[..n]);
      RunInv(ps, ops, 0);
      assert qs[n] == ps[n] && forall k | 0 <= k <= n :: ps[k] == qs[k];
      hide IsRun, Inv, Allowed, Step;
      OneAtATimeStays(ps[n], 0, ops[n]);
      StepMarks(ps[n], 0, ops[n]);
      CountedBy(ps[n + 1], 0);
    }
  }

  // ---------------------------------------------------------------- the pool itself

  class RsrcPool {
    const sizeEach: nat
    const increment: nat
    const freeOnFree: bool
    const maxNumRes: nat
    var freelist: seq<nat>
    var active: seq<nat>
    var numFree: nat
    var numInUse: nat
    var lowWater: nat
    var hiWater: nat
    var totalAllocs: nat

    ghost function Value(): Pool
      reads this
    {
      Pool(sizeEach, increment, freeOnFree, maxNumRes, freelist, active, numFree, numInUse, lowWater, hiWater,
          totalAllocs)
    }

    /** The fields of a pool that has no resources yet. */
    constructor (size: nat, initAlloc: nat, increment: nat, max: nat)
      ensures Value() == Pool(size, increment, size == 0 || (increment <= 1 && initAlloc <= 1), max,
                              [], [], 0, 0, initAlloc, 0, 0)
    {
      this.sizeEach, this.increment, this.maxNumRes := size, increment, max;
      freeOnFree := size == 0 || (increment <= 1 && initAlloc <= 1);
      freelist, active := [], [];
      numFree, numInUse, lowWater, hiWater, totalAllocs := 0, 0, initAlloc, 0, 0;
    }

    method FreeTail(r: nat)
      modifies this
      ensures Value() == old(Value()).(freelist := [r] + old(freelist), numFree := old(numFree) + 1)
    {
      freelist := [r] + freelist;
      numFree := numFree + 1;
    }

    /** `space`: what the heap answers when asked for `|space|` resources. */
    method Add2Pool(count: nat, space: Option<seq<nat>>) returns (added: int)
      requires space.Some? ==> |space.value| == count
      modifies this
      ensures added == if count == 0 then 0 else if space.None? then -1 else count
      ensures Value() == if count == 0 || space.None? then old(Value()) else AddToPool(old(Value()), space.value)
    {
      if count == 0 {
        return 0;
      }
      if space.None? {
        return -1;
      }
      if numInUse + numFree == 0 {
        lowWater := count;
      }
      ghost var start := Value();
      hide Front;
      FrontNone(space.value, freelist);
      for i := 0 to count
        invariant Value() == start.(freelist := Front(space.value, i, start.freelist), numFree := start.numFree + i)
      {
        FrontNext(space.value, i, start.freelist);
        FreeTail(space.value[i]);
      }
      FrontAll(space.value, start.freelist);
      added := count;
    }

    method TakeFirst() returns (r: nat)
      requires Counted(Value()) && freelist != []
      modifies this
      ensures (Value(), Some(r)) == HandOut(old(Value()))
    {
      r := freelist[0];
      freelist := freelist[1..];
      numFree := numFree - 1;
      if numFree < lowWater {
        lowWater := numFree;
      }
      totalAllocs := totalAllocs + 1;
      active := [r] + active;
      numInUse := numInUse + 1;
      if numInUse > hiWater {
        hiWater := numInUse;
      }
    }

    method VarAlloc(len: nat, space: Option<seq<nat>>) returns (o: Option<nat>)
      requires Counted(Value()) && (space.Some? ==> |space.value| == increment)
      modifies this
      ensures (Value(), o) == Granted(old(Value()), len, space)
    {
      hide HandOut;
      if len == 0 || (maxNumRes != 0 && numInUse + numFree >= maxNumRes) || (sizeEach != 0 && len != sizeEach) {
        return None;
      }
      if freelist == [] {
        var added := Add2Pool(increment, space);
        if added <= 0 {
          return None;
        }
        ReversedKeeps(space.value);
      }
      var r := TakeFirst();
      o := Some(r);
    }

    /** `false`: a double free was seen. */
    method Free(r: nat) returns (ok: bool)
      requires Counted(Value()) && (r in active || r in freelist)
      modifies this
      ensures ok == Freed(old(Value()), r).Some?
      ensures Value() == if ok then Freed(old(Value()), r).value else old(Value())
    {
      if r in freelist {
        return false;
      }
      active := Remove(active, r);
      numInUse := numInUse - 1;
      if !freeOnFree {
        FreeTail(r);
      }
      ok := true;
    }
  }

  /** A new pool; a negative answer says that the heap did not give its first resources. */
  method InitPool(size: nat, initAlloc: nat, increment: nat, max: nat, space: Option<seq<nat>>)
    returns (pool: RsrcPool, added: int)
    requires space.Some? ==> |space.value| == initAlloc
    ensures fresh(pool)
    ensures Init(size, initAlloc, increment, max, space) == if added < 0 then None else Some(pool.Value())
    ensures added >= 0 ==> added == initAlloc
  {
    pool := new RsrcPool(size, initAlloc, increment, max);
    added := 0;
    if initAlloc > 0 {
      added := pool.Add2Pool(initAlloc, space);
    }
  }

  /** The free list when the first `i` new resources are on it. */
  function Front(space: seq<nat>, i: nat, rest: seq<nat>): seq<nat>
    requires i <= |space|
  {
    Reversed(space[..i]) + rest
  }

  lemma FrontNone(space: seq<nat>, rest: seq<nat>)
    ensures Front(space, 0, rest) == rest
  {
    assert Reversed(space[..0]) == [] && [] + rest == rest;
  }

  lemma FrontAll(space: seq<nat>, rest: seq<nat>)
    ensures Front(space, |space|, rest) == Reversed(space) + rest
  {
    assert space[..|space|] == space;
  }

  lemma FrontNext(space: seq<nat>, i: nat, rest: seq<nat>)
    requires i < |space|
    ensures Front(space, i + 1, rest) == [space[i]] + Front(space, i, rest)
  {
    ReversedSnoc(space[..i], space[i]);
    assert space[..i + 1] == space[..i] + [space[i]];
    hide Reversed;
    var r := Reversed(space[..i]);
    assert ([space[i]] + r) + rest == [space[i]] + (r + rest);
  }

  lemma {:induction false} ReversedSnoc(s: seq<nat>, x: nat)
    ensures Reversed(s + [x]) == [x] + Reversed(s)
  {
    if s == [] {
      assert s + [x] == [x] && Reversed([x]) == Reversed([]) + [x];
    } else {
      ReversedSnoc(s[1..], x);
      assert (s + [x])[1..] == s[1..] + [x];
    }
  }
}
