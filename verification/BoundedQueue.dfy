/** The bounded blocking queue, step by step. */
module BoundedQueue {
  import opened Prelude

  // Any number of threads send and receive. One step is a semaphore operation, a pool operation,
  // or a critical section under the mutex.

  /** An item is copied in and out byte by byte. */
  type Item = seq<byte>

  /** How far a thread is into a send or a receive. */
  datatype Phase =
    | Idle
    | HasPlace(x: Item)       // took a place, has no memory yet
    | HasNode(x: Item)        // has memory, not in the list yet
    | Inserted             // in the list, item not announced yet
    | HasItem              // was granted an item, has not taken it yet
    | Taken(x: Item)          // took it off the list, place not given back yet
    | Posted(x: Item)         // gave the place back, memory not freed yet

  /**
   `inUse` counts the pool's resources. `lost`, `sent` and `removed` are history: places never to
   be given back, items inserted and items taken, in order.
   */
  datatype State = State(
    max: nat, list: seq<Item>, places: nat, items: nat, inUse: nat, threads: seq<Phase>,
    lost: nat, sent: seq<Item>, removed: seq<Item>)

  datatype Event =
    | TakePlace(t: nat, x: Item)
    | Alloc(t: nat, heap: bool)   // `heap`: the heap has memory to give, if the pool asks
    | Insert(t: nat)
    | PostItem(t: nat)
    | TakeItem(t: nat)
    | Remove(t: nat)
    | PostPlace(t: nat)
    | Free(t: nat)

  function Init(max: nat, threads: nat): State {
    State(max, [], max, 0, 0, seq(threads, _ => Idle), 0, [], [])
  }

  /** Whether thread `e.t` is at that step, and the semaphore lets it pass. */
  predicate Enabled(s: State, e: Event) {
    && e.t < |s.threads|
    && match e
       case TakePlace(t, _) => s.threads[t].Idle? && s.places > 0
       case Alloc(t, _) => s.threads[t].HasPlace?
       case Insert(t) => s.threads[t].HasNode?
       case PostItem(t) => s.threads[t].Inserted?
       case TakeItem(t) => s.threads[t].Idle? && s.items > 0
       case Remove(t) => s.threads[t].HasItem?
       case PostPlace(t) => s.threads[t].Taken?
       case Free(t) => s.threads[t].Posted? && s.inUse > 0
  }

  /** The pool refuses once its quota is in use; freed memory goes back to the heap at once. */
  predicate Refuses(s: State) {
    s.inUse >= s.max
  }

  function Step(s: State, e: Event): (s': State)
    requires Enabled(s, e)
  {
    var ts := s.threads;
    match e
    case TakePlace(t, x) => s.(places := s.places - 1, threads := ts[t := HasPlace(x)])
    case Alloc(t, heap) =>
      if Refuses(s) || !heap then s.(threads := ts[t := Idle], lost := s.lost + 1)
      else s.(inUse := s.inUse + 1, threads := ts[t := HasNode(ts[t].x)])
    case Insert(t) =>
      s.(list := s.list + [ts[t].x], sent := s.sent + [ts[t].x], threads := ts[t := Inserted])
    case PostItem(t) => s.(items := s.items + 1, threads := ts[t := Idle])
    case TakeItem(t) => s.(items := s.items - 1, threads := ts[t := HasItem])
    case Remove(t) =>
      if s.list == [] then s.(threads := ts[t := Idle])
      else s.(list := s.list[1..], removed := s.removed + [s.list[0]], threads := ts[t := Taken(s.list[0])])
    case PostPlace(t) => s.(places := s.places + 1, threads := ts[t := Posted(ts[t].x)])
    case Free(t) => s.(inUse := s.inUse - 1, threads := ts[t := Idle])
  }

  function Run(s: State, es: seq<Event>): Option<State>
    decreases |es|
  {
    if es == [] then Some(s)
    else if Enabled(s, es[0]) then Run(Step(s, es[0]), es[1..])
    else None
  }

  // ---------------------------------------------------------------- counting threads

  /** How many threads are between taking a place and inserting, and so on. */
  datatype Tally = Tally(place: nat, node: nat, inserted: nat, item: nat, taken: nat, posted: nat)

  function One(p: Phase): Tally {
    match p
    case Idle => Tally(0, 0, 0, 0, 0, 0)
    case HasPlace(_) => Tally(1, 0, 0, 0, 0, 0)
    case HasNode(_) => Tally(0, 1, 0, 0, 0, 0)
    case Inserted => Tally(0, 0, 1, 0, 0, 0)
    case HasItem => Tally(0, 0, 0, 1, 0, 0)
    case Taken(_) => Tally(0, 0, 0, 0, 1, 0)
    case Posted(_) => Tally(0, 0, 0, 0, 0, 1)
  }

  function Plus(a: Tally, b: Tally): Tally {
    Tally(a.place + b.place, a.node + b.node, a.inserted + b.inserted, a.item + b.item, a.taken + b.taken,
        a.posted + b.posted)
  }

  function Count(ts: seq<Phase>): Tally {
    if ts == [] then Tally(0, 0, 0, 0, 0, 0) else Plus(One(ts[0]), Count(ts[1..]))
  }

  lemma {:induction false} CountChange(ts: seq<Phase>, t: nat, p: Phase)
    requires t < |ts|
    ensures Plus(Count(ts[t := p]), One(ts[t])) == Plus(Count(ts), One(p))
  {
    if t > 0 {
      CountChange(ts[1..], t - 1, p);
      assert ts[t := p][1..] == ts[1..][t - 1 := p];
    } else {
      assert ts[t := p][1..] == ts[1..];
    }
  }

  lemma {:induction false} Counted(ts: seq<Phase>, t: nat)
    requires t < |ts|
    ensures var c, o := Count(ts), One(ts[t]);
      && c.place >= o.place && c.node >= o.node && c.inserted >= o.inserted
      && c.item >= o.item && c.taken >= o.taken && c.posted >= o.posted
  {
    if t > 0 {
      Counted(ts[1..], t - 1);
    }
  }

  lemma {:induction false} CountIdle(ts: seq<Phase>)
    requires forall p | p in ts :: p.Idle?
    ensures Count(ts) == Tally(0, 0, 0, 0, 0, 0)
  {
    if ts != [] {
      assert ts[0] in ts;
      CountIdle(ts[1..]);
    }
  }

  // ---------------------------------------------------------------- the invariant

  /** Every place is free, held by a sender, taken by an item, on its way back, or lost. */
  predicate PlacesKept(s: State) {
    var c := Count(s.threads);
    s.places + c.place + c.node + |s.list| + c.taken + s.lost == s.max
  }

  /** Every item in the list is announced, about to be announced, or promised to a receiver. */
  predicate ItemsKept(s: State) {
    var c := Count(s.threads);
    s.items + c.inserted + c.item == |s.list|
  }

  /** Every resource in use is a sender's, an item's, or a receiver's. */
  predicate MemoryKept(s: State) {
    var c := Count(s.threads);
    c.node + |s.list| + c.taken + c.posted == s.inUse <= s.max
  }

  /** First in, first out. */
  predicate OrderKept(s: State) {
    s.sent == s.removed + s.list
  }

  predicate Inv(s: State) {
    PlacesKept(s) && ItemsKept(s) && MemoryKept(s) && OrderKept(s)
  }

  lemma InitInv(max: nat, threads: nat)
    ensures Inv(Init(max, threads))
  {
    InitPlacesAndItems(max, threads);
    InitMemory(max, threads);
    assert OrderKept(Init(max, threads));
    hide PlacesKept, ItemsKept, MemoryKept, OrderKept, Init;
  }

  lemma InitPlacesAndItems(max: nat, threads: nat)
    ensures PlacesKept(Init(max, threads)) && ItemsKept(Init(max, threads))
  {
    CountIdle(Init(max, threads).threads);
  }

  lemma InitMemory(max: nat, threads: nat)
    ensures MemoryKept(Init(max, threads))
  {
    CountIdle(Init(max, threads).threads);
  }

  lemma PlacesStay(s: State, e: Event)
    requires PlacesKept(s) && Enabled(s, e)
    ensures PlacesKept(Step(s, e))
  {
    Moves(s, e);
    var c, c' := Count(s.threads), Count(Step(s, e).threads);
    hide Count, One;
    match e
    case TakePlace(t, _) => SamePlaces(c, c', s.threads[t], Step(s, e).threads[t]);
    case Alloc(t, _) => SamePlaces(c, c', s.threads[t], Step(s, e).threads[t]);
    case Insert(t) => SamePlaces(c, c', s.threads[t], Step(s, e).threads[t]);
    case PostItem(t) => SamePlaces(c, c', s.threads[t], Step(s, e).threads[t]);
    case TakeItem(t) => SamePlaces(c, c', s.threads[t], Step(s, e).threads[t]);
    case Remove(t) => SamePlaces(c, c', s.threads[t], Step(s, e).threads[t]);
    case PostPlace(t) => SamePlaces(c, c', s.threads[t], Step(s, e).threads[t]);
    case Free(t) => SamePlaces(c, c', s.threads[t], Step(s, e).threads[t]);
  }

  lemma ItemsStay(s: State, e: Event)
    requires ItemsKept(s) && Enabled(s, e)
    ensures ItemsKept(Step(s, e))
  {
    Moves(s, e);
    var c, c' := Count(s.threads), Count(Step(s, e).threads);
    match e
    case TakePlace(t, _) => SameTally(c, c', s.threads[t], Step(s, e).threads[t]);
    case Alloc(t, _) => SameTally(c, c', s.threads[t], Step(s, e).threads[t]);
    case Insert(t) => SameTally(c, c', s.threads[t], Step(s, e).threads[t]);
    case PostItem(t) => SameTally(c, c', s.threads[t], Step(s, e).threads[t]);
    case TakeItem(t) => SameTally(c, c', s.threads[t], Step(s, e).threads[t]);
    case Remove(t) => PromisedItem(s, t); SameTally(c, c', s.threads[t], Step(s, e).threads[t]);
    case PostPlace(t) => SameTally(c, c', s.threads[t], Step(s, e).threads[t]);
    case Free(t) => SameTally(c, c', s.threads[t], Step(s, e).threads[t]);
  }

  /** The two counts that matter for items, when one thread moves from `p` to `p'`. */
  lemma SameTally(c: Tally, c': Tally, p: Phase, p': Phase)
    requires Plus(c', One(p)) == Plus(c, One(p'))
    ensures c'.inserted + c'.item == c.inserted + c.item
            + (if p'.Inserted? || p'.HasItem? then 1 else 0) - (if p.Inserted? || p.HasItem? then 1 else 0)
  {
  }

  lemma SamePlaces(c: Tally, c': Tally, p: Phase, p': Phase)
    requires Plus(c', One(p)) == Plus(c, One(p'))
    ensures c'.place + c'.node + c'.taken == c.place + c.node + c.taken
            + (if p'.HasPlace? || p'.HasNode? || p'.Taken? then 1 else 0) - (if p.HasPlace? || p.HasNode?
                || p.Taken? then 1 else 0)
  {
  }

  lemma SameMemory(c: Tally, c': Tally, p: Phase, p': Phase)
    requires Plus(c', One(p)) == Plus(c, One(p'))
    ensures c'.node + c'.taken + c'.posted == c.node + c.taken + c.posted
            + (if p'.HasNode? || p'.Taken? || p'.Posted? then 1 else 0) - (if p.HasNode? || p.Taken?
                || p.Posted? then 1 else 0)
  {
  }

  /** A receiver that was granted an item finds one. */
  lemma PromisedItem(s: State, t: nat)
    requires ItemsKept(s) && t < |s.threads| && s.threads[t].HasItem?
    ensures s.list != []
  {
    Counted(s.threads, t);
  }

  lemma MemoryStays(s: State, e: Event)
    requires MemoryKept(s) && Enabled(s, e)
    ensures MemoryKept(Step(s, e))
  {
    Moves(s, e);
    var c, c' := Count(s.threads), Count(Step(s, e).threads);
    hide Count, One;
    match e
    case TakePlace(t, _) => SameMemory(c, c', s.threads[t], Step(s, e).threads[t]);
    case Alloc(t, _) => SameMemory(c, c', s.threads[t], Step(s, e).threads[t]);
    case Insert(t) => SameMemory(c, c', s.threads[t], Step(s, e).threads[t]);
    case PostItem(t) => SameMemory(c, c', s.threads[t], Step(s, e).threads[t]);
    case TakeItem(t) => SameMemory(c, c', s.threads[t], Step(s, e).threads[t]);
    case Remove(t) => SameMemory(c, c', s.threads[t], Step(s, e).threads[t]);
    case PostPlace(t) => SameMemory(c, c', s.threads[t], Step(s, e).threads[t]);
    case Free(t) => SameMemory(c, c', s.threads[t], Step(s, e).threads[t]);
  }

  lemma OrderStays(s: State, e: Event)
    requires OrderKept(s) && Enabled(s, e)
    ensures OrderKept(Step(s, e))
  {
    if e.Insert? {
      assert s.removed + s.list + [s.threads[e.t].x] == s.removed + (s.list + [s.threads[e.t].x]);
    } else if e.Remove? && s.list != [] {
      assert s.removed + s.list == s.removed + [s.list[0]] + s.list[1..];
    }
  }

  lemma StepInv(s: State, e: Event)
    requires Inv(s) && Enabled(s, e)
    ensures Inv(Step(s, e))
  {
    PlacesStay(s, e);
    ItemsStay(s, e);
    MemoryStays(s, e);
    OrderStays(s, e);
    hide PlacesKept, ItemsKept, MemoryKept, OrderKept;
  }

  /** A step moves one thread from one phase to another. */
  lemma Moves(s: State, e: Event)
    requires Enabled(s, e)
    ensures var s' := Step(s, e);
      && |s'.threads| == |s.threads|
      && Plus(Count(s'.threads), One(s.threads[e.t])) == Plus(Count(s.threads), One(s'.threads[e.t]))
  {
    var p := Step(s, e).threads[e.t];
    CountChange(s.threads, e.t, p);
    assert Step(s, e).threads == s.threads[e.t := p];
  }

  /** The invariant holds in every state that any run of any threads reaches. */
  lemma {:induction false} RunInv(s: State, es: seq<Event>)
    requires Inv(s) && Run(s, es).Some?
    ensures Inv(Run(s, es).value) && Run(s, es).value.max == s.max
    decreases |es|
  {
    if es != [] {
      StepInv(s, es[0]);
      RunInv(Step(s, es[0]), es[1..]);
    }
  }

  predicate Reachable(s: State, max: nat, threads: nat, es: seq<Event>) {
    Run(Init(max, threads), es) == Some(s)
  }

  // ---------------------------------------------------------------- what follows

  lemma ReachableInv(s: State, max: nat, threads: nat, es: seq<Event>)
    requires Reachable(s, max, threads, es)
    ensures Inv(s)
  {
    InitInv(max, threads);
    RunInv(Init(max, threads), es);
  }

  /**
   In every reachable state: the list is never longer than the maximum, a receiver that was
   granted an item finds the list non-empty, and items were removed in the order they were
   inserted.
   */
  lemma Safety(s: State, max: nat, threads: nat, es: seq<Event>)
    requires Reachable(s, max, threads, es)
    ensures |s.list| <= max && s.inUse <= max
    ensures forall t | 0 <= t < |s.threads| && s.threads[t].HasItem? :: s.list != []
    ensures s.removed <= s.sent && s.sent == s.removed + s.list
  {
    InitInv(max, threads);
    RunInv(Init(max, threads), es);
    forall t | 0 <= t < |s.threads| && s.threads[t].HasItem? ensures s.list != [] {
      PromisedItem(s, t);
    }
  }

  lemma RefusedWhen(s: State)
    requires Inv(s)
    ensures var c := Count(s.threads); Refuses(s) <==> c.posted == s.places + c.place + s.lost
  {
  }

  /**
   The pool refuses exactly when as many receivers have given their place back, but not yet freed
   their memory, as there are places free, held by senders, or lost.
   */
  lemma RefusedExactly(s: State, max: nat, threads: nat, es: seq<Event>)
    requires Reachable(s, max, threads, es)
    ensures var c := Count(s.threads); Refuses(s) <==> c.posted == s.places + c.place + s.lost
  {
    ReachableInv(s, max, threads, es);
    RefusedWhen(s);
  }

  /** So a sender that holds a place is refused only while there is such a receiver. */
  lemma RefusedOnlyBetween(s: State, max: nat, threads: nat, es: seq<Event>, t: nat)
    requires Reachable(s, max, threads, es)
    requires t < |s.threads| && s.threads[t].HasPlace? && Refuses(s)
    ensures exists r :: 0 <= r < |s.threads| && s.threads[r].Posted?
  {
    RefusedExactly(s, max, threads, es);
    Counted(s.threads, t);
    if forall r | 0 <= r < |s.threads| :: !s.threads[r].Posted? {
      NonePosted(s.threads);
    }
  }

  lemma {:induction false} NonePosted(ts: seq<Phase>)
    requires forall r | 0 <= r < |ts| :: !ts[r].Posted?
    ensures Count(ts).posted == 0
  {
    if ts != [] {
      NonePosted(ts[1..]);
    }
  }

  /** Each refusal costs a place for good: so much less can the list ever hold. */
  lemma {:induction false} LostForGood(s: State, es: seq<Event>)
    requires Inv(s) && Run(s, es).Some?
    ensures var s' := Run(s, es).value; s'.lost >= s.lost && |s'.list| + s'.places + s.lost <= s.max
    decreases |es|
  {
    if es != [] {
      StepInv(s, es[0]);
      LostForGood(Step(s, es[0]), es[1..]);
    }
  }

  lemma RunOn(s: State, es: seq<Event>, k: nat)
    requires k < |es| && Enabled(s, es[k])
    ensures Run(s, es[k..]) == Run(Step(s, es[k]), es[k + 1..])
  {
    assert es[k..][1..] == es[k + 1..];
  }

  /** Nothing is in the queue, and nothing that any thread does will ever yield a place again. */
  ghost predicate Dead(s: State) {
    s.list == [] && forall es | Run(s, es).Some? :: Run(s, es).value.places == 0 && Run(s, es).value.list == []
  }

  /** Once every place is lost, the queue is dead. */
  lemma AllLost(s: State)
    requires Inv(s) && s.lost == s.max
    ensures Dead(s)
  {
    forall es | Run(s, es).Some? ensures Run(s, es).value.places == 0 && Run(s, es).value.list == [] {
      LostForGood(s, es);
    }
  }

  lemma {:induction false} SomeThread(ts: seq<Phase>) returns (t: nat)
    requires var c := Count(ts); c.place + c.node + c.taken > 0
    ensures t < |ts| && (ts[t].HasPlace? || ts[t].HasNode? || ts[t].Taken?)
  {
    assert Count(ts) == Plus(One(ts[0]), Count(ts[1..]));
    hide Count;
    if ts[0].HasPlace? || ts[0].HasNode? || ts[0].Taken? {
      t := 0;
    } else {
      t := SomeThread(ts[1..]);
      t := t + 1;
    }
  }

  /** A thread that is on its way with a place makes the queue move. */
  lemma Moving(s: State, t: nat)
    requires Inv(s) && t < |s.threads| && (s.threads[t].HasPlace? || s.threads[t].HasNode? || s.threads[t].Taken?)
    ensures !Dead(s)
  {
    match s.threads[t]
    case Taken(_) =>
      RunOne(s, PostPlace(t));
    case HasNode(_) =>
      RunOne(s, Insert(t));
    case HasPlace(_) =>
      if Refuses(s) {
        Counted(s.threads, t);
        if forall r | 0 <= r < |s.threads| :: !s.threads[r].Posted? {
          NonePosted(s.threads);
          assert false;
        }
        var r: nat :| r < |s.threads| && s.threads[r].Posted?;
        var s1 := Step(s, Free(r));
        var s2 := Step(s1, Alloc(t, true));
        RunThree(s, Free(r), Alloc(t, true), Insert(t));
      } else {
        RunTwo(s, Alloc(t, true), Insert(t));
      }
  }

  /** A queue is dead exactly when every place is lost. */
  lemma DeadIffAllLost(s: State)
    requires Inv(s)
    ensures Dead(s) <==> s.lost == s.max
  {
    if s.lost == s.max {
      AllLost(s);
    } else if Dead(s) {
      assert Run(s, []) == Some(s);
      var t := SomeThread(s.threads);
      Moving(s, t);
    }
  }

  // ---------------------------------------------------------------- which item goes where

  lemma {:induction false} RunSnoc(s: State, es: seq<Event>, e: Event)
    requires Run(s, es).Some? && Enabled(Run(s, es).value, e)
    ensures Run(s, es + [e]) == Some(Step(Run(s, es).value, e))
    decreases |es|
  {
    if es == [] {
      assert [] + [e] == [e] && [e][1..] == [];
    } else {
      RunSnoc(Step(s, es[0]), es[1..], e);
      assert (es + [e])[1..] == es[1..] + [e];
    }
  }

  lemma {:induction false} RunLast(s: State, es: seq<Event>)
    requires es != [] && Run(s, es).Some?
    ensures var n := |es| - 1;
            && Run(s, es[..n]).Some? && Enabled(Run(s, es[..n]).value, es[n])
            && Run(s, es) == Some(Step(Run(s, es[..n]).value, es[n]))
    decreases |es|
  {
    var n := |es| - 1;
    if n == 0 {
      assert es[..0] == [] && es[1..] == [];
    } else {
      RunLast(Step(s, es[0]), es[1..]);
      assert es[..n][1..] == es[1..][..n - 1] && es[1..][n - 1] == es[n];
    }
  }

  /** The item that thread `t` came with last. */
  function LastOffer(es: seq<Event>, t: nat): Option<Item>
    decreases |es|
  {
    if es == [] then None
    else
      var e := es[|es| - 1];
      if e.TakePlace? && e.t == t then Some(e.x) else LastOffer(es[..|es| - 1], t)
  }

  /** What the inserting threads came with, in the order in which they inserted. */
  function Offered(es: seq<Event>): seq<Option<Item>>
    decreases |es|
  {
    if es == [] then []
    else
      var n := |es| - 1;
      Offered(es[..n]) + if es[n].Insert? then [LastOffer(es[..n], es[n].t)] else []
  }

  function Removals(es: seq<Event>): nat
    decreases |es|
  {
    if es == [] then 0 else Removals(es[..|es| - 1]) + if es[|es| - 1].Remove? then 1 else 0
  }

  /** How many removals there were before the last one of thread `t`. */
  function TurnOf(es: seq<Event>, t: nat): nat
    decreases |es|
  {
    if es == [] then 0
    else
      var n := |es| - 1;
      if es[n].Remove? && es[n].t == t then Removals(es[..n]) else TurnOf(es[..n], t)
  }

  /** All items, as they were offered. */
  function Wrapped(xs: seq<Item>): (r: seq<Option<Item>>)
    ensures |r| == |xs| && forall i | 0 <= i < |xs| :: r[i] == Some(xs[i])
  {
    seq(|xs|, i requires 0 <= i < |xs| => Some(xs[i]))
  }

  /** A thread on its way in carries what it came with; one on its way out, the item of its turn. */
  ghost predicate Carries(s: State, es: seq<Event>, t: nat)
    requires t < |s.threads|
  {
    match s.threads[t]
    case HasPlace(x) => LastOffer(es, t) == Some(x)
    case HasNode(x) => LastOffer(es, t) == Some(x)
    case Taken(x) => TurnOf(es, t) < |Offered(es)| && Offered(es)[TurnOf(es, t)] == Some(x)
    case Posted(x) => TurnOf(es, t) < |Offered(es)| && Offered(es)[TurnOf(es, t)] == Some(x)
    case _ => true
  }

  /** The items inserted are those offered; as many have been removed as there were removals. */
  ghost predicate InTurn(s: State, es: seq<Event>) {
    Offered(es) == Wrapped(s.sent) && |s.removed| == Removals(es)
  }

  lemma CarriesOn(s: State, es: seq<Event>, e: Event, t: nat)
    requires Inv(s) && Enabled(s, e) && t < |s.threads| && InTurn(s, es) && Carries(s, es, t)
    ensures Carries(Step(s, e), es + [e], t)
  {
    assert (es + [e])[..|es|] == es;
    if e.Remove? && e.t == t {
      PromisedItem(s, t);
      assert s.sent[|s.removed|] == s.list[0];
    }
  }

  lemma InTurnOn(s: State, es: seq<Event>, e: Event)
    requires Inv(s) && Enabled(s, e) && InTurn(s, es) && Carries(s, es, e.t)
    ensures InTurn(Step(s, e), es + [e])
  {
    assert (es + [e])[..|es|] == es;
    if e.Insert? {
      assert Wrapped(s.sent + [s.threads[e.t].x]) == Wrapped(s.sent) + [Some(s.threads[e.t].x)];
    } else if e.Remove? {
      PromisedItem(s, e.t);
    }
  }

  ghost predicate AllCarry(s: State, es: seq<Event>) {
    forall t | 0 <= t < |s.threads| :: Carries(s, es, t)
  }

  lemma AllCarryOn(s: State, es: seq<Event>, e: Event)
    requires Inv(s) && Enabled(s, e) && InTurn(s, es) && AllCarry(s, es)
    ensures InTurn(Step(s, e), es + [e]) && AllCarry(Step(s, e), es + [e])
  {
    Moves(s, e);
    hide Inv, InTurn, Count, Plus, One, Carries;
    InTurnOn(s, es, e);
    forall t | 0 <= t < |Step(s, e).threads|
      ensures Carries(Step(s, e), es + [e], t)
    {
      CarriesOn(s, es, e, t);
    }
  }

  lemma {:induction false} InTurnAlways(s: State, max: nat, threads: nat, es: seq<Event>)
    requires Reachable(s, max, threads, es)
    ensures Inv(s) && InTurn(s, es) && AllCarry(s, es)
    decreases |es|
  {
    ReachableInv(s, max, threads, es);
    hide Inv, InTurn, AllCarry, Enabled, Step;
    if es == [] {
      Untouched(max, threads);
    } else {
      var n := |es| - 1;
      RunLast(Init(max, threads), es);
      var p := Run(Init(max, threads), es[..n]).value;
      InTurnAlways(p, max, threads, es[..n]);
      AllCarryOn(p, es[..n], es[n]);
      assert es == es[..n] + [es[n]];
    }
  }

  lemma Untouched(max: nat, threads: nat)
    ensures InTurn(Init(max, threads), []) && AllCarry(Init(max, threads), [])
  {
  }

  /**
   Over every run: the items inserted are, in order, those that the inserting threads came with;
   the item of the k-th removal is the k-th inserted; the rest is in the list. All unchanged.
   */
  lemma ItemsUnchanged(s: State, max: nat, threads: nat, es: seq<Event>)
    requires Reachable(s, max, threads, es)
    ensures Offered(es) == Wrapped(s.removed + s.list) && |s.removed| == Removals(es)
    ensures forall t | 0 <= t < |s.threads| :: Carries(s, es, t)
  {
    InTurnAlways(s, max, threads, es);
  }

  // ---------------------------------------------------------------- which queues can die

  /** The heap never lets the pool down. */
  predicate Generous(es: seq<Event>) {
    forall e | e in es :: e.Alloc? ==> e.heap
  }

  lemma {:induction false} Tallied(ts: seq<Phase>)
    ensures var c := Count(ts); c.place + c.node + c.inserted + c.item + c.taken + c.posted <= |ts|
  {
    if ts != [] {
      Tallied(ts[1..]);
    }
  }

  /** Each refusal needs a receiver for every place lost so far, and the sender itself. */
  lemma LostStep(s: State, e: Event)
    requires Inv(s) && Enabled(s, e) && s.lost < |s.threads| && (e.Alloc? ==> e.heap)
    ensures Step(s, e).lost < |s.threads|
  {
    hide Inv, Count;
    if e.Alloc? {
      RefusedWhen(s);
      Counted(s.threads, e.t);
      Tallied(s.threads);
    }
  }

  lemma {:induction false} LostAlong(s: State, es: seq<Event>)
    requires Inv(s) && s.lost < |s.threads| && Generous(es) && Run(s, es).Some?
    ensures Run(s, es).value.lost < |s.threads|
    decreases |es|
  {
    if es != [] {
      StepInv(s, es[0]);
      LostStep(s, es[0]);
      Moves(s, es[0]);
      LostAlong(Step(s, es[0]), es[1..]);
    }
  }

  /** While the heap gives, fewer places are lost than there are threads. */
  lemma FewerLostThanThreads(s: State, max: nat, threads: nat, es: seq<Event>)
    requires Reachable(s, max, threads, es) && Generous(es) && threads > 0
    ensures s.lost < threads
  {
    InitInv(max, threads);
    LostAlong(Init(max, threads), es);
  }

  lemma NobodyRuns(max: nat, es: seq<Event>)
    requires Run(Init(max, 0), es).Some?
    ensures es == []
  {
  }

  ghost predicate CanReach(s: State, max: nat, threads: nat, generous: bool) {
    exists es :: Reachable(s, max, threads, es) && (generous ==> Generous(es))
  }

  lemma Onward(s: State, e: Event, max: nat, threads: nat, generous: bool)
    requires CanReach(s, max, threads, generous) && Enabled(s, e)
    requires generous && e.Alloc? ==> e.heap
    ensures CanReach(Step(s, e), max, threads, generous)
  {
    var es :| Reachable(s, max, threads, es) && (generous ==> Generous(es));
    RunSnoc(Init(max, threads), es, e);
    assert Reachable(Step(s, e), max, threads, es + [e]);
  }

  // The run that kills a queue: one sender fills the list, as many receivers as there are places
  // give their place back, and the sender is refused once for each of them.

  ghost predicate AllIdleFrom(s: State, k: nat) {
    forall i | k <= i < |s.threads| :: s.threads[i].Idle?
  }

  /** `k` items in the list. */
  ghost predicate Filled(s: State, k: nat) {
    && s.max == s.places + k && s.items == s.inUse == |s.list| == k && s.lost == 0 && AllIdleFrom(s, 0)
  }

  /** Receivers 1 to `k` gave their place back. */
  ghost predicate Drained(s: State, k: nat) {
    && s.places == k && s.items == |s.list| && s.inUse == s.max == |s.list| + k && s.lost == 0
    && k < |s.threads| && s.threads[0].Idle? && AllIdleFrom(s, k + 1)
    && forall i | 1 <= i <= k :: s.threads[i].Posted?
  }

  /** And the sender was refused `k` times. */
  ghost predicate Starved(s: State, k: nat) {
    && s.places + k == s.max == s.inUse && s.lost == k && s.list == []
    && s.max < |s.threads| && s.threads[0].Idle? && AllIdleFrom(s, s.max + 1)
    && forall i | 1 <= i <= s.max :: s.threads[i].Posted?
  }

  /** And the first `k` receivers freed their memory. */
  ghost predicate Settled(s: State, k: nat) {
    && s.lost == s.max && s.inUse + k == s.max < |s.threads|
    && s.threads[0].Idle? && AllIdleFrom(s, s.max + 1)
    && (forall i | 1 <= i <= k :: s.threads[i].Idle?)
    && (forall i | k < i <= s.max :: s.threads[i].Posted?)
  }

  lemma Take4(s: State, max: nat, threads: nat, a: Event, b: Event, c: Event, d: Event)
    requires CanReach(s, max, threads, true) && Generous([a, b, c, d])
    requires Enabled(s, a) && Enabled(Step(s, a), b) && Enabled(Step(Step(s, a), b), c)
    requires Enabled(Step(Step(Step(s, a), b), c), d)
    ensures CanReach(Step(Step(Step(Step(s, a), b), c), d), max, threads, true)
  {
    hide CanReach, Step, Enabled;
    assert a in [a, b, c, d] && b in [a, b, c, d] && c in [a, b, c, d] && d in [a, b, c, d];
    Onward(s, a, max, threads, true);
    Onward(Step(s, a), b, max, threads, true);
    Onward(Step(Step(s, a), b), c, max, threads, true);
    Onward(Step(Step(Step(s, a), b), c), d, max, threads, true);
  }

  lemma {:induction false} Fill(max: nat, threads: nat, k: nat) returns (s: State)
    requires k <= max && threads > 0
    ensures CanReach(s, max, threads, true) && s.max == max && |s.threads| == threads && Filled(s, k)
  {
    if k == 0 {
      s := Init(max, threads);
      assert Reachable(s, max, threads, []);
    } else {
      s := Fill(max, threads, k - 1);
      Take4(s, max, threads, TakePlace(0, []), Alloc(0, true), Insert(0), PostItem(0));
      s := Step(Step(Step(Step(s, TakePlace(0, [])), Alloc(0, true)), Insert(0)), PostItem(0));
    }
  }

  lemma {:induction false} Drain(max: nat, threads: nat, k: nat) returns (s: State)
    requires k <= max < threads
    ensures CanReach(s, max, threads, true) && s.max == max && |s.threads| == threads && Drained(s, k)
  {
    if k == 0 {
      s := Fill(max, threads, max);
    } else {
      s := Drain(max, threads, k - 1);
      var s1 := Step(s, TakeItem(k));
      var s2 := Step(s1, Remove(k));
      Onward(s, TakeItem(k), max, threads, true);
      Onward(s1, Remove(k), max, threads, true);
      Onward(s2, PostPlace(k), max, threads, true);
      s := Step(s2, PostPlace(k));
    }
  }

  lemma {:induction false} Starve(max: nat, threads: nat, k: nat) returns (s: State)
    requires k <= max < threads
    ensures CanReach(s, max, threads, true) && s.max == max && |s.threads| == threads && Starved(s, k)
  {
    if k == 0 {
      s := Drain(max, threads, max);
    } else {
      s := Starve(max, threads, k - 1);
      var s1 := Step(s, TakePlace(0, []));
      Onward(s, TakePlace(0, []), max, threads, true);
      Onward(s1, Alloc(0, true), max, threads, true);
      s := Step(s1, Alloc(0, true));
    }
  }

  lemma {:induction false} Settle(max: nat, threads: nat, k: nat) returns (s: State)
    requires k <= max < threads
    ensures CanReach(s, max, threads, true) && s.max == max && |s.threads| == threads && Settled(s, k)
  {
    if k == 0 {
      s := Starve(max, threads, max);
    } else {
      s := Settle(max, threads, k - 1);
      Onward(s, Free(k), max, threads, true);
      s := Step(s, Free(k));
    }
  }

  /** With more threads than places a queue can die, with all threads idle in the end. */
  lemma QueueCanDie(max: nat, threads: nat) returns (s: State)
    requires max < threads
    ensures CanReach(s, max, threads, true) && Dead(s) && forall p | p in s.threads :: p.Idle?
  {
    s := Settle(max, threads, max);
    CanReachInv(s, max, threads, true);
    AllLost(s);
    forall i | 0 <= i < threads
      ensures s.threads[i].Idle?
    {
      assert i == 0 || 1 <= i <= max || max + 1 <= i;
    }
  }

  /** A heap that gives nothing costs a place without any receiver. */
  lemma {:induction false} HeapLoses(max: nat, threads: nat, k: nat) returns (s: State)
    requires k <= max && threads > 0
    ensures CanReach(s, max, threads, false) && s.max == max && s.lost == k && s.places + k == max
    ensures |s.threads| == threads && s.threads[0].Idle?
  {
    if k == 0 {
      s := Init(max, threads);
      assert Reachable(s, max, threads, []);
    } else {
      s := HeapLoses(max, threads, k - 1);
      var s1 := Step(s, TakePlace(0, []));
      Onward(s, TakePlace(0, []), max, threads, false);
      Onward(s1, Alloc(0, false), max, threads, false);
      s := Step(s1, Alloc(0, false));
    }
  }

  lemma CanReachInv(s: State, max: nat, threads: nat, generous: bool)
    requires CanReach(s, max, threads, generous)
    ensures Inv(s) && s.max == max
  {
    var es :| Reachable(s, max, threads, es);
    InitInv(max, threads);
    RunInv(Init(max, threads), es);
  }

  /**
   Which queues can die: while the heap gives, exactly those that more threads use than they have
   places; with a heap that can fail, every queue that is used at all.
   */
  lemma WhichQueuesDie(max: nat, threads: nat)
    requires max > 0
    ensures (exists s :: CanReach(s, max, threads, true) && Dead(s)) <==> max < threads
    ensures (exists s :: CanReach(s, max, threads, false) && Dead(s)) <==> 0 < threads
  {
    if max < threads {
      var s := QueueCanDie(max, threads);
    }
    if 0 < threads {
      var s := HeapLoses(max, threads, max);
      CanReachInv(s, max, threads, false);
      AllLost(s);
    }
    forall s, generous | CanReach(s, max, threads, generous) && Dead(s)
      ensures if generous then max < threads else 0 < threads
    {
      var es :| Reachable(s, max, threads, es) && (generous ==> Generous(es));
      CanReachInv(s, max, threads, generous);
      DeadIffAllLost(s);
      if threads == 0 {
        NobodyRuns(max, es);
      } else if generous {
        FewerLostThanThreads(s, max, threads, es);
      }
    }
  }

  // ---------------------------------------------------------------- the entry points

  datatype Status = Success | Failed | OutOfMemory | Underflow

  /** The queue's own fields; the thread phases and the history are only there to be talked about. */
  class RsQueue {
    const maxItemCount: nat
    var queueList: seq<Item>
    var semPlaces: nat
    var semItems: nat
    var numInUse: nat
    ghost var threads: seq<Phase>
    ghost var lost: nat
    ghost var sent: seq<Item>
    ghost var removed: seq<Item>

    ghost function Now(): State
      reads this
    {
      State(maxItemCount, queueList, semPlaces, semItems, numInUse, threads, lost, sent, removed)
    }

    constructor (max: nat, ghost n: nat)
      ensures Now() == Init(max, n)
    {
      maxItemCount := max;
      queueList := [];
      semPlaces := max;
      semItems := 0;
      numInUse := 0;
      threads := seq(n, _ => Idle);
      lost := 0;
      sent := [];
      removed := [];
    }

    /**
     The send, when no other thread gets in between. Without a free place the timed wait fails;
     a refusal by the pool, or a heap that gives nothing, keeps the place that was taken.
     */
    method SendToBack(x: Item, heap: bool, ghost t: nat) returns (status: Status)
      requires t < |threads| && threads[t].Idle?
      modifies this
      ensures status == if old(semPlaces) == 0 then Failed else if old(numInUse) >= maxItemCount
              || !heap then OutOfMemory else Success
      ensures status == Failed ==> Now() == old(Now())
      ensures status == Success ==>
                && queueList == old(queueList) + [x] && semPlaces == old(semPlaces) - 1
                && semItems == old(semItems) + 1 && numInUse == old(numInUse) + 1
      ensures status == OutOfMemory ==>
                && queueList == old(queueList) && semPlaces == old(semPlaces) - 1
                && semItems == old(semItems) && numInUse == old(numInUse)
      ensures status == OutOfMemory ==> Run(old(Now()), [TakePlace(t, x), Alloc(t, heap)]) == Some(Now())
      ensures status == Success
              ==> Run(old(Now()), [TakePlace(t, x), Alloc(t, heap), Insert(t), PostItem(t)]) == Some(Now())
    {
      ghost var s0 := Now();
      if semPlaces == 0 {
        return Failed;
      }
      semPlaces := semPlaces - 1;
      threads := threads[t := HasPlace(x)];
      ghost var s1 := Now();
      assert s1 == Step(s0, TakePlace(t, x));
      if numInUse >= maxItemCount || !heap {
        threads := threads[t := Idle];
        lost := lost + 1;
        RunTwo(s0, TakePlace(t, x), Alloc(t, heap));
        return OutOfMemory;
      }
      numInUse := numInUse + 1;
      threads := threads[t := HasNode(x)];
      ghost var s2 := Now();
      assert s2 == Step(s1, Alloc(t, heap));
      queueList := queueList + [x];
      sent := sent + [x];
      threads := threads[t := Inserted];
      ghost var s3 := Now();
      assert s3 == Step(s2, Insert(t));
      semItems := semItems + 1;
      threads := threads[t := Idle];
      assert Now() == Step(s3, PostItem(t));
      RunFour(s0, TakePlace(t, x), Alloc(t, heap), Insert(t), PostItem(t));
      status := Success;
    }

    /** The receive, when no other thread gets in between. */
    method Receive(ghost t: nat) returns (status: Status, x: Item)
      requires t < |threads| && threads[t].Idle? && (queueList != [] ==> numInUse > 0)
      modifies this
      ensures status == if old(semItems) == 0 then Failed else if old(queueList) == [] then Underflow else Success
      ensures status == Failed ==> Now() == old(Now())
      ensures status == Underflow ==> Run(old(Now()), [TakeItem(t), Remove(t)]) == Some(Now())
      ensures status == Success ==>
                && queueList == old(queueList)[1..] && semPlaces == old(semPlaces) + 1
                && semItems == old(semItems) - 1 && numInUse == old(numInUse) - 1
      ensures status == Success ==>
                && x == old(queueList)[0]
                && Run(old(Now()), [TakeItem(t), Remove(t), PostPlace(t), Free(t)]) == Some(Now())
    {
      ghost var s0 := Now();
      x := [];
      if semItems == 0 {
        return Failed, x;
      }
      semItems := semItems - 1;
      threads := threads[t := HasItem];
      ghost var s1 := Now();
      assert s1 == Step(s0, TakeItem(t));
      if |queueList| == 0 {
        threads := threads[t := Idle];
        RunTwo(s0, TakeItem(t), Remove(t));
        return Underflow, x;
      }
      x := queueList[0];
      removed := removed + [x];
      queueList := queueList[1..];
      threads := threads[t := Taken(x)];
      ghost var s2 := Now();
      assert s2 == Step(s1, Remove(t));
      semPlaces := semPlaces + 1;
      threads := threads[t := Posted(x)];
      ghost var s3 := Now();
      assert s3 == Step(s2, PostPlace(t));
      numInUse := numInUse - 1;
      threads := threads[t := Idle];
      assert Now() == Step(s3, Free(t));
      RunFour(s0, TakeItem(t), Remove(t), PostPlace(t), Free(t));
      status := Success;
    }
  }

  lemma RunOne(s: State, a: Event)
    requires Enabled(s, a)
    ensures Run(s, [a]) == Some(Step(s, a))
  {
    assert [a][1..] == [];
  }

  lemma RunTwo(s: State, a: Event, b: Event)
    requires Enabled(s, a) && Enabled(Step(s, a), b)
    ensures Run(s, [a, b]) == Some(Step(Step(s, a), b))
  {
    hide Step, Enabled;
    RunOn(s, [a, b], 0);
    RunOn(Step(s, a), [a, b], 1);
    assert [a, b][0..] == [a, b] && [a, b][2..] == [];
  }

  lemma RunThree(s: State, a: Event, b: Event, c: Event)
    requires Enabled(s, a) && Enabled(Step(s, a), b) && Enabled(Step(Step(s, a), b), c)
    ensures Run(s, [a, b, c]) == Some(Step(Step(Step(s, a), b), c))
  {
    hide Step, Enabled;
    RunTwo(Step(s, a), b, c);
    assert [a, b, c][1..] == [b, c];
  }

  lemma RunFour(s: State, a: Event, b: Event, c: Event, d: Event)
    requires Enabled(s, a) && Enabled(Step(s, a), b)
    requires var s2 := Step(Step(s, a), b); Enabled(s2, c) && Enabled(Step(s2, c), d)
    ensures Run(s, [a, b, c, d]) == Some(Step(Step(Step(Step(s, a), b), c), d))
  {
    hide Step, Enabled;
    var es := [a, b, c, d];
    RunOn(s, es, 0);
    RunOn(Step(s, a), es, 1);
    assert es[0..] == es && es[2..] == [c, d];
    RunTwo(Step(Step(s, a), b), c, d);
  }
}
