/**
 Network buffers as linked nodes, changed in place. Each operation is proved to do to the nodes
 what `NetBufChain` says about the values.
 */
module NetBuf {
  import opened Prelude
  import opened NetBufChain

  class Netbuf {
    var next: Netbuf?
    var first: Netbuf?
    var eType: nat
    var size: nat
    var buf: seq<byte>
    var bufStart: nat
    var freed: bool
    var freeMethod: FreeMethod

    /** A single node over a whole block. */
    constructor (eType: nat, block: nat, bytes: seq<byte>, freeMethod: FreeMethod)
      requires block != 0
      ensures Linked([this]) && View([this]) == [Node(eType, |bytes|, bytes, block, false, freeMethod)]
    {
      this.eType := eType;
      next := null;
      first := this;
      buf := bytes;
      size := |bytes|;
      bufStart := block;
      freed := false;
      this.freeMethod := freeMethod;
    }

    /** A node that is filled in by the caller. */
    constructor Blank() {
      next := null;
      first := null;
    }

    function Value(): Node
      reads this
    {
      Node(eType, size, buf, bufStart, freed, freeMethod)
    }
  }

  /** The nodes form one chain: each leads to the next and knows the first. */
  ghost predicate Linked(nbs: seq<Netbuf>)
    reads nbs
  {
    && |nbs| > 0
    && (forall i, j | 0 <= i < j < |nbs| :: nbs[i] != nbs[j])
    && (forall i | 0 <= i < |nbs| :: nbs[i].first == nbs[0])
    && (forall i | 0 <= i < |nbs| :: nbs[i].next == NodeAt(nbs, i + 1))
  }

  ghost function NodeAt(nbs: seq<Netbuf>, i: nat): Netbuf? {
    if i < |nbs| then nbs[i] else null
  }

  ghost function View(nbs: seq<Netbuf>): (c: Chain)
    reads nbs
    ensures |c| == |nbs|
  {
    seq(|nbs|, i requires 0 <= i < |nbs| reads nbs => nbs[i].Value())
  }

  /** Node `k` of a chain: where it leads, and its value. */
  lemma At(nbs: seq<Netbuf>, k: nat)
    requires Linked(nbs) && k < |nbs|
    ensures nbs[k].next == NodeAt(nbs, k + 1) && nbs[k].first == nbs[0] && View(nbs)[k] == nbs[k].Value()
  {
  }

  lemma Begin(nbs: seq<Netbuf>, nb: Netbuf)
    requires Linked(nbs) && nb in nbs
    ensures nb.first == NodeAt(nbs, 0) != null
  {
  }

  // ---------------------------------------------------------------- looking at a chain

  lemma {:induction false} FlatSnoc(c: Chain, k: nat)
    requires AllSound(c) && k < |c|
    ensures AllSound(c[..k]) && AllSound(c[..k + 1]) && Sound(c[k])
    ensures Flat(c[..k + 1]) == Flat(c[..k]) + Slice(c[k])
  {
    assert c[..k + 1] == c[..k] + [c[k]];
    assert c[k] in c;
    FlatOne(c[k]);
    FlatConcat(c[..k], [c[k]]);
  }

  method TotalSize(nb: Netbuf, ghost nbs: seq<Netbuf>) returns (size: nat)
    requires Linked(nbs) && nb in nbs && AllSound(View(nbs))
    ensures size == |Flat(View(nbs))|
  {
    size := 0;
    var it := nb.first;
    ghost var k := 0;
    ghost var c := View(nbs);
    assert c[..0] == [];
    while it != null
      invariant k <= |nbs| && it == NodeAt(nbs, k)
      invariant AllSound(c[..k]) && size == |Flat(c[..k])|
      decreases |nbs| - k
    {
      FlatSnoc(c, k);
      if !it.freed {
        size := size + it.size;
      }
      it := it.next;
      k := k + 1;
    }
    assert c[..k] == c;
  }

  lemma FlatFrom(c: Chain, k: nat)
    requires k < |c| && AllSound(c[k..])
    ensures Sound(c[k]) && AllSound(c[k + 1..]) && Flat(c[k..]) == Slice(c[k]) + Flat(c[k + 1..])
  {
    assert c[k] in c[k..] && c[k..][0] == c[k] && c[k..][1..] == c[k + 1..];
  }

  lemma ReadPast(x: Node, skip: nat, left: nat, rest: seq<byte>)
    requires Sound(x) && (x.freed || x.size <= skip)
    ensures Sub(Slice(x) + rest, skip, left) == [] + Sub(rest, skip - x.size, left)
  {
    hide Sub;
    SubSecond(Slice(x), rest, skip, left);
    assert |Slice(x)| == x.size || x.freed;
    assert [] + Sub(rest, skip - x.size, left) == Sub(rest, skip - x.size, left);
    if x.freed {
      assert [] + rest == rest;
    }
  }

  lemma SliceOfFront(s: seq<byte>, n: nat, i: nat, j: nat)
    requires i <= j <= n <= |s|
    ensures s[..n][i..j] == s[i..j]
  {
  }

  lemma ReadHere(x: Node, skip: nat, left: nat, rest: seq<byte>)
    requires Sound(x) && !x.freed && skip < x.size
    ensures var count := if x.size - skip <= left then x.size - skip else left;
      Sub(Slice(x) + rest, skip, left) == x.buf[skip..skip + count] + Sub(rest, 0, left - count)
  {
    var count := if x.size - skip <= left then x.size - skip else left;
    SubConcat(Slice(x), rest, skip, left);
    SliceOfFront(x.buf, x.size, skip, skip + count);
  }

  /** What one node contributes to a read, with `skip` bytes to pass over and room for `left`. */
  method ReadNode(it: Netbuf, skip: nat, left: nat, ghost rest: seq<byte>)
    returns (took: bool, copied: seq<byte>, skip': nat, left': nat)
    requires Sound(it.Value())
    ensures Sub(Slice(it.Value()) + rest, skip, left) == copied + Sub(rest, skip', left')
  {
    took, copied, skip', left' := false, [], skip, left;
    ghost var x := it.Value();
    hide Sub, Slice;
    if it.freed {
      ReadPast(x, skip, left, rest);
      return;
    }
    if it.size <= skip {
      ReadPast(x, skip, left, rest);
      skip' := skip - it.size;
      return;
    }
    ReadHere(x, skip, left, rest);
    var here := it.size - skip;
    var count := if here <= left then here else left;
    copied := it.buf[skip..skip + count];
    left' := left - count;
    skip' := 0;
    took := true;
  }

  lemma NothingToRead(s: seq<byte>, skip: nat, left: nat)
    requires s == [] || left == 0
    ensures Sub(s, skip, left) == []
  {
  }

  /** The bytes from `off` on, as many as there are and as fit. */
  method Read(nb: Netbuf, ghost nbs: seq<Netbuf>, off: nat, room: nat) returns (bytes: seq<byte>)
    requires Linked(nbs) && nb in nbs && AllSound(View(nbs))
    ensures bytes == Sub(Flat(View(nbs)), off, room)
  {
    bytes := [];
    var left: nat, skip: nat := room, off;
    var it := nb.first;
    ghost var k := 0;
    ghost var c := View(nbs);
    assert c[0..] == c;
    hide Sub, AllSound, Slice, Sound;
    while it != null
      invariant k <= |nbs| && it == NodeAt(nbs, k) && AllSound(c[k..])
      invariant Sub(Flat(c), off, room) == bytes + Sub(Flat(c[k..]), skip, left)
      decreases |nbs| - k
    {
      FlatFrom(c, k);
      assert c[k] == it.Value();
      ghost var rest := Flat(c[k + 1..]);
      var took, copied, skip', left' := ReadNode(it, skip, left, rest);
      Assoc(bytes, copied, Sub(rest, skip', left'));
      bytes, skip, left := bytes + copied, skip', left';
      if took && left == 0 {
        NothingToRead(rest, skip, left);
        return;
      }
      it := it.next;
      k := k + 1;
    }
    NothingToRead(Flat(c[k..]), skip, left);
  }

  // ---------------------------------------------------------------- appending

  /** The last node of a chain. */
  method LastOf(nb: Netbuf, ghost nbs: seq<Netbuf>) returns (last: Netbuf)
    requires Linked(nbs) && nb in nbs
    ensures last == nbs[|nbs| - 1]
  {
    last := nb.first;
    ghost var k := 0;
    while last.next != null
      invariant k < |nbs| && last == nbs[k]
      decreases |nbs| - k
    {
      last := last.next;
      k := k + 1;
    }
  }

  /** The nodes lead to each other, whatever they think the first one is. */
  ghost predicate Threaded(nbs: seq<Netbuf>)
    reads nbs
  {
    && (forall i, j | 0 <= i < j < |nbs| :: nbs[i] != nbs[j])
    && (forall i | 0 <= i < |nbs| :: nbs[i].next == NodeAt(nbs, i + 1))
  }

  /** As `Linked`, but the last node leads on to `end`. */
  ghost predicate LeadsTo(ls: seq<Netbuf>, end: Netbuf)
    reads ls
  {
    && |ls| > 0
    && (forall i, j | 0 <= i < j < |ls| :: ls[i] != ls[j])
    && (forall i | 0 <= i < |ls| :: ls[i].first == ls[0])
    && (forall i | 0 <= i < |ls| :: ls[i].next == Following(ls, end, i))
  }

  ghost function Following(ls: seq<Netbuf>, end: Netbuf, i: nat): Netbuf {
    if i + 1 < |ls| then ls[i + 1] else end
  }

  ghost predicate Separate(ls: seq<Netbuf>, rs: seq<Netbuf>) {
    forall i, j | 0 <= i < |ls| && 0 <= j < |rs| :: ls[i] != rs[j]
  }

  /** What the nodes think the first one is, when those that are live from `k` on are told of `head`. */
  ghost function Told(nbs: seq<Netbuf>, k: nat, head: Netbuf?, i: nat, was: Netbuf?): Netbuf?
    requires i < |nbs|
    reads nbs
  {
    if i >= k && !nbs[i].freed then head else was
  }

  /** Live nodes from `nb` on are told the new first node. */
  method SetFirst(nb: Netbuf, head: Netbuf, ghost nbs: seq<Netbuf>, ghost k: nat, ghost ls: seq<Netbuf>)
    requires k < |nbs| && nb == nbs[k] && Threaded(nbs)
    requires LeadsTo(ls, nbs[0]) && Separate(ls, nbs)
    modifies nbs`first
    ensures Threaded(nbs) && LeadsTo(ls, nbs[0])
    ensures forall i | 0 <= i < |nbs| :: nbs[i].first == Told(nbs, k, head, i, old(nbs[i].first))
    ensures View(nbs) == old(View(nbs)) && View(ls) == old(View(ls))
  {
    assert forall x | x in ls :: x !in nbs;
    hide LeadsTo, View, Threaded, Separate;
    SetLive(nb, head, nbs, k);
    assert forall x | x in ls :: unchanged(x);
  }

  lemma ThreadAt(nbs: seq<Netbuf>, k: nat)
    requires Threaded(nbs) && k < |nbs|
    ensures nbs[k].next == NodeAt(nbs, k + 1)
    ensures forall i | 0 <= i < |nbs| && i != k :: nbs[i] != nbs[k]
  {
  }

  method SetOne(it: Netbuf, head: Netbuf, ghost nbs: seq<Netbuf>)
    requires Threaded(nbs)
    modifies it`first
    ensures Threaded(nbs) && View(nbs) == old(View(nbs)) && it.first == head
  {
    it.first := head;
  }

  /** The loop over the live nodes. */
  method SetLive(nb: Netbuf, head: Netbuf, ghost nbs: seq<Netbuf>, ghost k: nat)
    requires k < |nbs| && nb == nbs[k] && Threaded(nbs)
    modifies nbs`first
    ensures Threaded(nbs) && View(nbs) == old(View(nbs))
    ensures forall i | 0 <= i < |nbs| :: nbs[i].first == Told(nbs, k, head, i, old(nbs[i].first))
  {
    hide Threaded, View;
    var it: Netbuf? := nb;
    ghost var j := k;
    while it != null
      invariant k <= j <= |nbs| && it == NodeAt(nbs, j)
      invariant Threaded(nbs) && View(nbs) == old(View(nbs))
      invariant forall i | 0 <= i < j :: nbs[i].first == Told(nbs, k, head, i, old(nbs[i].first))
      invariant forall i | j <= i < |nbs| :: nbs[i].first == old(nbs[i].first)
      decreases |nbs| - j
    {
      ThreadAt(nbs, j);
      var next := it.next;
      if !it.freed {
        SetOne(it, head, nbs);
      }
      it := next;
      j := j + 1;
    }
  }

  method Hook(left: Netbuf, end: Netbuf, ghost ls: seq<Netbuf>, ghost rs: seq<Netbuf>)
    requires Linked(ls) && left in ls && Threaded(rs) && Separate(ls, rs)
    modifies ls`next
    ensures LeadsTo(ls, end) && left.first == ls[0] && Threaded(rs)
    ensures View(ls) == old(View(ls)) && View(rs) == old(View(rs))
  {
    var last := LastOf(left, ls);
    assert last !in rs by {
      assert last in ls;
    }
    hide Threaded, Separate, View;
    HookLast(last, end, ls);
    hide Linked;
    assert forall x | x in rs :: unchanged(x);
  }

  method HookLast(last: Netbuf, end: Netbuf, ghost ls: seq<Netbuf>)
    requires Linked(ls) && last == ls[|ls| - 1]
    modifies last`next
    ensures LeadsTo(ls, end) && View(ls) == old(View(ls)) && last.first == ls[0]
  {
    last.next := end;
  }

  lemma LeadsAt(ls: seq<Netbuf>, end: Netbuf, i: nat)
    requires LeadsTo(ls, end) && i < |ls|
    ensures ls[i].first == ls[0] && (i + 1 < |ls| ==> ls[i].next == ls[i + 1]) && (i + 1 == |ls| ==> ls[i].next == end)
  {
  }

  lemma LinkedConcat(ls: seq<Netbuf>, rs: seq<Netbuf>)
    requires |rs| > 0 && LeadsTo(ls, rs[0]) && Threaded(rs)
    requires forall x | x in ls :: x !in rs
    ensures Linked(ls + rs) <==> forall i | 0 <= i < |rs| :: rs[i].first == ls[0]
    ensures View(ls + rs) == View(ls) + View(rs)
  {
    hide LeadsTo, Threaded, View, NodeAt;
    ConcatNext(ls, rs);
    ConcatDistinct(ls, rs);
    ConcatFirst(ls, rs);
    ViewConcat(ls, rs);
  }

  lemma ViewConcat(ls: seq<Netbuf>, rs: seq<Netbuf>)
    ensures View(ls + rs) == View(ls) + View(rs)
  {
  }

  lemma ConcatNext(ls: seq<Netbuf>, rs: seq<Netbuf>)
    requires |rs| > 0 && LeadsTo(ls, rs[0]) && Threaded(rs)
    ensures forall i | 0 <= i < |ls + rs| :: (ls + rs)[i].next == NodeAt(ls + rs, i + 1)
  {
    var nbs := ls + rs;
    forall i | 0 <= i < |nbs|
      ensures nbs[i].next == NodeAt(nbs, i + 1)
    {
      if i < |ls| {
        LeadsAt(ls, rs[0], i);
        assert i + 1 < |ls| ==> nbs[i + 1] == ls[i + 1];
        assert nbs[|ls|] == rs[0];
      } else {
        var k := i - |ls|;
        assert nbs[i] == rs[k] && rs[k].next == NodeAt(rs, k + 1);
        assert i + 1 < |nbs| ==> nbs[i + 1] == rs[k + 1];
      }
    }
  }

  lemma ConcatDistinct(ls: seq<Netbuf>, rs: seq<Netbuf>)
    requires |rs| > 0 && LeadsTo(ls, rs[0]) && Threaded(rs)
    requires forall x | x in ls :: x !in rs
    ensures forall i, j | 0 <= i < j < |ls + rs| :: (ls + rs)[i] != (ls + rs)[j]
  {
    forall i, j | 0 <= i < j < |ls + rs|
      ensures (ls + rs)[i] != (ls + rs)[j]
    {
      if i < |ls| <= j {
        assert ls[i] in ls && rs[j - |ls|] in rs;
      }
    }
  }

  lemma ConcatFirst(ls: seq<Netbuf>, rs: seq<Netbuf>)
    requires |rs| > 0 && LeadsTo(ls, rs[0])
    ensures (ls + rs)[0] == ls[0]
    ensures (forall i | 0 <= i < |ls + rs| :: (ls + rs)[i].first == ls[0])
            <==> forall i | 0 <= i < |rs| :: rs[i].first == ls[0]
  {
    var nbs := ls + rs;
    assert forall i | 0 <= i < |rs| :: nbs[|ls| + i] == rs[i];
    assert forall i | |ls| <= i < |nbs| :: nbs[i] == rs[i - |ls|];
  }

  /**
   The right chain is hooked onto the last node of the left one. The result is one chain if and only
   if `right` is the head of its own and all of that is live; other nodes keep their old first node.
   */
  method Append(left: Netbuf, right: Netbuf, ghost ls: seq<Netbuf>, ghost rs: seq<Netbuf>)
    requires Linked(ls) && Linked(rs) && left in ls && right in rs
    requires forall x | x in ls :: x !in rs
    requires !left.freed
    modifies ls`next, ls`first, rs`first
    ensures View(ls + rs) == old(View(ls)) + old(View(rs))
    ensures Linked(ls + rs) <==> right == rs[0] && AllLive(View(rs))
  {
    LinkedIsThreaded(rs);
    Apart(ls, rs);
    ghost var k :| 0 <= k < |rs| && rs[k] == right;
    assert right.first == rs[0] && ls[0] in ls && rs[0] in rs;
    assert forall i | 0 <= i < |rs| :: rs[i].first == rs[0];
    hide LeadsTo, Linked, AllLive, Threaded, View, Separate;
    Hook(left, right.first, ls, rs);
    SetFirst(right, left.first, rs, k, ls);
    LinkedConcat(ls, rs);
    LiveAll(rs);
    Distinct(rs, k);
  }

  lemma LiveAll(nbs: seq<Netbuf>)
    ensures AllLive(View(nbs)) <==> forall i | 0 <= i < |nbs| :: !nbs[i].freed
  {
    var c := View(nbs);
    assert forall i | 0 <= i < |nbs| :: c[i].freed == nbs[i].freed;
    if AllLive(c) {
      forall i | 0 <= i < |nbs|
        ensures !nbs[i].freed
      {
        assert c[i] in c;
      }
    }
  }

  lemma Distinct(nbs: seq<Netbuf>, k: nat)
    requires Threaded(nbs) && k < |nbs|
    ensures nbs[k] == nbs[0] <==> k == 0
  {
  }

  lemma LinkedIsThreaded(nbs: seq<Netbuf>)
    requires Linked(nbs)
    ensures |nbs| > 0 && Threaded(nbs) && nbs[0].first == nbs[0]
  {
  }

  lemma Apart(ls: seq<Netbuf>, rs: seq<Netbuf>)
    requires forall x | x in ls :: x !in rs
    ensures Separate(ls, rs)
  {
    forall i, j | 0 <= i < |ls| && 0 <= j < |rs| ensures ls[i] != rs[j] {
      assert ls[i] in ls && rs[j] in rs;
    }
  }

  // ---------------------------------------------------------------- splitting

  /** A node put in behind node `k`. */
  ghost function Inserted(nbs: seq<Netbuf>, new_: Netbuf, k: nat): (r: seq<Netbuf>)
    requires k < |nbs|
    ensures |r| == |nbs| + 1
  {
    nbs[..k + 1] + [new_] + nbs[k + 1..]
  }

  lemma InsertedAt(nbs: seq<Netbuf>, new_: Netbuf, k: nat, i: nat)
    requires k < |nbs| && i <= |nbs|
    ensures Inserted(nbs, new_, k)[i] == if i <= k then nbs[i] else if i == k + 1 then new_ else nbs[i - 1]
  {
  }

  lemma InsertedLinked(nbs: seq<Netbuf>, new_: Netbuf, k: nat)
    requires k < |nbs| && new_ !in nbs
    requires forall i, j | 0 <= i < j < |nbs| :: nbs[i] != nbs[j]
    requires forall i | 0 <= i < |nbs| :: nbs[i].first == nbs[0] && (i != k ==> nbs[i].next == NodeAt(nbs, i + 1))
    requires nbs[k].next == new_ && new_.next == NodeAt(nbs, k + 1) && new_.first == nbs[0]
    ensures Linked(Inserted(nbs, new_, k))
  {
    var r := Inserted(nbs, new_, k);
    InsertedAt(nbs, new_, k, 0);
    forall i | 0 <= i < |r| ensures r[i].first == r[0] && r[i].next == NodeAt(r, i + 1) {
      InsertedAt(nbs, new_, k, i);
      if i + 1 < |r| {
        InsertedAt(nbs, new_, k, i + 1);
      }
    }
    forall i, j | 0 <= i < j < |r| ensures r[i] != r[j] {
      InsertedAt(nbs, new_, k, i);
      InsertedAt(nbs, new_, k, j);
    }
  }

  lemma InsertedView(nbs: seq<Netbuf>, new_: Netbuf, k: nat)
    requires k < |nbs|
    ensures View(Inserted(nbs, new_, k)) == View(nbs)[..k + 1] + [new_.Value()] + View(nbs)[k + 1..]
  {
  }

  /** A new node for what `it` holds from byte `n` on. */
  method Rest(it: Netbuf, eType: nat, n: nat) returns (new_: Netbuf)
    requires !it.freed && n <= it.size <= |it.buf|
    ensures fresh(new_) && new_.next == it.next && new_.first == it.first
    ensures new_.Value() == SecondHalf(it.Value(), eType, n)
  {
    new_ := new Netbuf.Blank();
    new_.eType := eType;
    new_.next := it.next;
    new_.first := it.first;
    new_.buf := it.buf[n..];
    new_.size := it.size - n;
    new_.bufStart := it.bufStart;
    new_.freed := false;
    new_.freeMethod := it.freeMethod;
  }

  /** Cut node `k` at `n` bytes: a new node takes the rest. */
  method CutNode(it: Netbuf, eType: nat, n: nat, ghost nbs: seq<Netbuf>, ghost k: nat) returns (new_: Netbuf)
    requires Linked(nbs) && k < |nbs| && it == nbs[k] && !it.freed && n <= it.size <= |it.buf|
    modifies it`size, it`next
    ensures fresh(new_) && Linked(Inserted(nbs, new_, k))
    ensures View(Inserted(nbs, new_, k))
         == old(View(nbs))[..k] + [FirstHalf(old(it.Value()), n), SecondHalf(old(it.Value()), eType, n)]
            + old(View(nbs))[k + 1..]
  {
    ghost var c := View(nbs);
    new_ := Rest(it, eType, n);
    it.size := n;
    it.next := new_;
    InsertedLinked(nbs, new_, k);
    InsertedView(nbs, new_, k);
    hide Linked;
    assert View(nbs) == c[k := FirstHalf(c[k], n)];
    assert new_.Value() == SecondHalf(c[k], eType, n);
    CutValues(c, k, FirstHalf(c[k], n), SecondHalf(c[k], eType, n));
  }

  lemma CutValues(c: Chain, k: nat, x: Node, y: Node)
    requires k < |c|
    ensures c[k := x][..k + 1] + [y] + c[k := x][k + 1..] == c[..k] + [x, y] + c[k + 1..]
  {
    assert c[k := x][..k + 1] == c[..k] + [x] && c[k := x][k + 1..] == c[k + 1..];
    Join(c[..k], x, y, c[k + 1..]);
  }

  lemma Join(a: Chain, x: Node, y: Node, b: Chain)
    ensures a + [x] + [y] + b == a + [x, y] + b
  {
  }

  /** The search for the node to cut, from node `k` on. */
  lemma SplitFrom(c: Chain, eType: nat, k: nat, n: nat)
    requires k < |c| && AllSound(c[k..])
    ensures AllSound(c[k + 1..]) && Sound(c[k])
    ensures var x := c[k];
      Behind(c[..k], NetBufChain.Split(c[k..], eType, n))
      == if x.freed || x.size < n
          then Behind(c[..k + 1], NetBufChain.Split(c[k + 1..], eType, if x.freed then n else n - x.size))
         else if x.size == n then Some(c)
         else Some(c[..k] + [FirstHalf(x, n), SecondHalf(x, eType, n)] + c[k + 1..])
  {
    var x := c[k];
    assert x in c[k..] && c[k..][0] == x && c[k..][1..] == c[k + 1..];
    assert c[..k + 1] == c[..k] + [x];
    assert c == c[..k] + c[k..];
    if x.freed || x.size < n {
      var r := NetBufChain.Split(c[k + 1..], eType, if x.freed then n else n - x.size);
      if r.Some? {
        assert c[..k] + ([x] + r.value) == c[..k] + [x] + r.value;
      }
    } else if x.size != n {
      assert c[..k] + ([FirstHalf(x, n), SecondHalf(x, eType, n)] + c[k + 1..])
          == c[..k] + [FirstHalf(x, n), SecondHalf(x, eType, n)] + c[k + 1..];
    }
  }

  function Behind(a: Chain, r: Option<Chain>): Option<Chain> {
    match r
    case None => None
    case Some(d) => Some(a + d)
  }

  /** The live node that the cut falls into, and where in that node. */
  method FindCut(nb: Netbuf, n: nat, ghost nbs: seq<Netbuf>, ghost eType: nat)
    returns (it: Netbuf?, left: nat, ghost k: nat)
    requires Linked(nbs) && nb in nbs && AllSound(View(nbs))
    ensures var c := View(nbs); var r := NetBufChain.Split(c, eType, n);
      if it == null then r == None
      else
        && k < |nbs| && it == nbs[k] && !it.freed && left <= it.size <= |it.buf|
        && r == if it.size == left then Some(c)
                else Some(c[..k] + [FirstHalf(c[k], left), SecondHalf(c[k], eType, left)] + c[k + 1..])
  {
    ghost var c := View(nbs);
    Begin(nbs, nb);
    hide AllSound, Sound, FirstHalf, SecondHalf, Linked, View, Behind, NetBufChain.Split;
    left := n;
    it := nb.first;
    k := 0;
    assert c[0..] == c && c[..0] == [];
    BehindNothing(NetBufChain.Split(c, eType, n));
    while it != null
      invariant k <= |nbs| && it == NodeAt(nbs, k) && AllSound(c[k..])
      invariant NetBufChain.Split(c, eType, n) == Behind(c[..k], NetBufChain.Split(c[k..], eType, left))
      decreases |nbs| - k
    {
      SplitFrom(c, eType, k, left);
      At(nbs, k);
      if !it.freed {
        if it.size < left {
          left := left - it.size;
        } else {
          CanCut(c[k], left);
          return;
        }
      }
      it := it.next;
      k := k + 1;
    }
    TooShort(c, eType, left);
  }

  /** Make sure that the chain has a cut at `n` bytes; fail without a change if it is too short. */
  method Split(nb: Netbuf, eType: nat, n: nat, ghost nbs: seq<Netbuf>) returns (ok: bool, ghost nbs': seq<Netbuf>)
    requires Linked(nbs) && nb in nbs && AllSound(View(nbs))
    modifies nbs`size, nbs`next
    ensures forall x | x in nbs' :: x in nbs || fresh(x)
    ensures Linked(nbs')
    ensures NetBufChain.Split(old(View(nbs)), eType, n) == if ok then Some(View(nbs')) else None
    ensures !ok ==> nbs' == nbs && View(nbs) == old(View(nbs))
  {
    hide AllSound, FirstHalf, SecondHalf, NetBufChain.Split, Linked;
    nbs' := nbs;
    var it, left;
    ghost var k;
    it, left, k := FindCut(nb, n, nbs, eType);
    ok := it != null;
    if it != null && it.size != left {
      var new_ := CutNode(it, eType, left, nbs, k);
      nbs' := Inserted(nbs, new_, k);
    }
  }

  lemma TooShort(c: Chain, eType: nat, n: nat)
    ensures Behind(c[..|c|], NetBufChain.Split(c[|c|..], eType, n)) == None
  {
    assert c[|c|..] == [];
  }

  lemma BehindNothing(r: Option<Chain>)
    ensures Behind([], r) == r
  {
    if r.Some? {
      assert [] + r.value == r.value;
    }
  }

  lemma CanCut(x: Node, n: nat)
    requires Sound(x) && !x.freed && n <= x.size
    ensures x.size <= |x.buf|
  {
  }

  // ---------------------------------------------------------------- freeing

  /** How many nodes share the block of `nb`, and whether every node is freed. */
  method Survey(nb: Netbuf, ghost nbs: seq<Netbuf>) returns (count: nat, fullyFreed: bool)
    requires Linked(nbs) && nb in nbs
    ensures count == Sharers(View(nbs), nb.bufStart)
    ensures fullyFreed <==> AllFreed(View(nbs))
  {
    ghost var c := View(nbs);
    count := 0;
    fullyFreed := true;
    var it := nb.first;
    ghost var k := 0;
    assert c[0..] == c;
    while it != null
      invariant k <= |nbs| && it == NodeAt(nbs, k)
      invariant count + Sharers(c[k..], nb.bufStart) == Sharers(c, nb.bufStart)
      invariant fullyFreed <==> forall i | 0 <= i < k :: c[i].freed
      decreases |nbs| - k
    {
      assert c[k..][0] == c[k] && c[k..][1..] == c[k + 1..];
      if nb.bufStart == it.bufStart {
        count := count + 1;
      }
      fullyFreed := fullyFreed && it.freed;
      it := it.next;
      k := k + 1;
    }
    assert c[k..] == [];
    if fullyFreed {
      forall x | x in c ensures x.freed {
        var i :| 0 <= i < |c| && c[i] == x;
      }
    } else {
      ghost var i :| 0 <= i < |c| && !c[i].freed;
      assert c[i] in c;
    }
  }

  function OneReleased(x: Node): seq<nat> {
    if x.freeMethod != NoMethod && x.start != 0 then [x.start] else []
  }

  lemma ReleasedFrom(c: Chain, k: nat, done: seq<nat>)
    requires k < |c|
    ensures done + Released(c[k..]) == done + OneReleased(c[k]) + Released(c[k + 1..])
  {
    assert c[k..][0] == c[k] && c[k..][1..] == c[k + 1..];
  }

  /**
   Every node is visited once more before its memory goes; those that still point to a block and
   have a free method call it. The result is the blocks it was called on, in order.
   */
  method ReleaseAll(nb: Netbuf, ghost nbs: seq<Netbuf>) returns (released: seq<nat>)
    requires Linked(nbs) && nb in nbs
    modifies nbs`bufStart
    ensures released == Released(old(View(nbs)))
  {
    ghost var c := View(nbs);
    Begin(nbs, nb);
    At(nbs, 0);
    released := [];
    var it := nb.first;
    var nnext := nb.first.next;
    ghost var k := 0;
    assert c[0..] == c && [] + Released(c) == Released(c);
    hide Released, OneReleased, Linked, View, SoFar;
    while it != null
      invariant k <= |nbs| == |c| && it == NodeAt(nbs, k) && (it != null ==> nnext == NodeAt(nbs, k + 1))
      invariant Linked(nbs) && SoFar(c, View(nbs), k, released)
      decreases |nbs| - k
    {
      At(nbs, k);
      ghost var before := View(nbs);
      var one := Visit(it, nbs, k);
      Further(c, before, View(nbs), k, released);
      released := released + one;
      it := nnext;
      k := k + 1;
      if it != null {
        At(nbs, k);
        nnext := it.next;
      }
    }
    AllDone(c, View(nbs), released);
  }

  /** The nodes from `k` on are as they were in `c`, and those before have released `done`. */
  ghost predicate SoFar(c: Chain, now: Chain, k: nat, done: seq<nat>) {
    k <= |c| == |now| && now[k..] == c[k..] && done + Released(c[k..]) == Released(c)
  }

  lemma Further(c: Chain, before: Chain, now: Chain, k: nat, done: seq<nat>)
    requires SoFar(c, before, k, done) && k < |c| && |now| == |c| && now[k + 1..] == before[k + 1..]
    ensures before[k] == c[k] && SoFar(c, now, k + 1, done + OneReleased(c[k]))
  {
    ReleasedFrom(c, k, done);
    SameTail(before, c, k);
  }

  lemma AllDone(c: Chain, now: Chain, done: seq<nat>)
    requires SoFar(c, now, |c|, done)
    ensures done == Released(c)
  {
    NothingReleased(c[|c|..]);
  }

  lemma SameTail(b: Chain, c: Chain, k: nat)
    requires |b| == |c| && k < |c| && b[k..] == c[k..]
    ensures b[k] == c[k] && b[k + 1..] == c[k + 1..]
  {
    assert b[k..][0] == c[k..][0] && b[k..][1..] == c[k..][1..];
    assert b[k..][1..] == b[k + 1..] && c[k..][1..] == c[k + 1..];
  }

  /** One node's free method, if it has one and a block. */
  method Visit(it: Netbuf, ghost nbs: seq<Netbuf>, ghost k: nat) returns (released: seq<nat>)
    requires Linked(nbs) && k < |nbs| && it == nbs[k]
    modifies it`bufStart
    ensures Linked(nbs) && released == OneReleased(old(it.Value()))
    ensures View(nbs)[k + 1..] == old(View(nbs))[k + 1..]
  {
    released := [];
    if it.freeMethod != NoMethod && it.bufStart != 0 {
      released := [it.bufStart];
      if it.freeMethod != Dont {
        it.bufStart := 0;
      }
    }
  }

  lemma NothingReleased(c: Chain)
    requires c == []
    ensures Released(c) == []
  {
  }

  method Mark(nb: Netbuf, ghost nbs: seq<Netbuf>, ghost i: nat)
    requires Linked(nbs) && i < |nbs| && nb == nbs[i]
    modifies nb`size, nb`freed, nb`buf
    ensures Linked(nbs) && View(nbs) == old(View(nbs))[i := Marked(old(View(nbs))[i])]
  {
    nb.freed := true;
    nb.size := 0;
    nb.buf := [];
  }

  method ClearPointer(nb: Netbuf, ghost nbs: seq<Netbuf>, ghost i: nat)
    requires Linked(nbs) && i < |nbs| && nb == nbs[i]
    modifies nb`bufStart
    ensures Linked(nbs) && View(nbs) == old(View(nbs))[i := old(View(nbs))[i].(start := 0)]
  {
    nb.bufStart := 0;
  }

  lemma FreedSame(c: Chain, i: nat)
    requires i < |c|
    ensures AllFreed(c[i := c[i].(start := 0)]) <==> AllFreed(c)
  {
    var d := c[i := c[i].(start := 0)];
    assert d[i] in d && c[i] in c;
    if AllFreed(d) {
      forall x | x in c ensures x.freed {
        var j :| 0 <= j < |c| && c[j] == x;
        assert d[j] in d;
      }
    }
  }

  /**
   Free one node. When it was the last live one the chain is gone, and with it all its blocks.
   There is always one node on the block of `nb`, `nb` itself, so the count is never 0.
   */
  method Free(nb: Netbuf, ghost nbs: seq<Netbuf>, ghost i: nat) returns (gone: bool, released: seq<nat>)
    requires Linked(nbs) && i < |nbs| && nb == nbs[i]
    modifies nbs`bufStart, nb`size, nb`freed, nb`buf
    ensures var d := NetBufChain.Free(old(View(nbs)), i);
      && (gone <==> AllFreed(d))
      && (if gone then released == Released(d) else released == [] && Linked(nbs) && View(nbs) == d)
  {
    ghost var c := View(nbs);
    hide Linked, AllFreed, Sharers, Released;
    Mark(nb, nbs, i);
    ghost var d := View(nbs);
    var count;
    count, gone := Survey(nb, nbs);
    SharersOther(d, i);
    FreedSame(d, i);
    assert nb.bufStart == d[i].start && count >= 1;
    if count >= 2 {
      ClearPointer(nb, nbs, i);
    }
    released := [];
    if gone {
      released := ReleaseAll(nb, nbs);
    }
  }

  lemma FreedByNow(c: Chain, k: nat)
    requires k < |c| && !c[|c| - 1].freed
    ensures FreedUpTo(c, k + 1) == NetBufChain.Free(FreedUpTo(c, k), k)
    ensures AllFreed(FreedUpTo(c, k + 1)) <==> k + 1 == |c|
  {
    FreedFlags(c, k + 1);
    var d := FreedUpTo(c, k + 1);
    assert d[|c| - 1] in d;
  }

  /** One step of the walk: free the current node, then look up the one after the next. */
  method FreeStep(it: Netbuf, nnext: Netbuf?, ghost nbs: seq<Netbuf>, ghost k: nat, ghost c: Chain)
    returns (released: seq<nat>, after: Netbuf?)
    requires Linked(nbs) && k < |nbs| == |c| && it == nbs[k] && nnext == NodeAt(nbs, k + 1)
    requires View(nbs) == FreedUpTo(c, k) && !c[|c| - 1].freed
    modifies nbs`bufStart, nbs`size, nbs`freed, nbs`buf
    ensures k + 1 < |nbs| ==> Linked(nbs) && View(nbs) == FreedUpTo(c, k + 1) && after == NodeAt(nbs, k + 2)
    ensures k + 1 == |nbs| ==> released == Released(FreedUpTo(c, |c|))
  {
    FreedByNow(c, k);
    hide Released, AllFreed, NetBufChain.Free, FreedUpTo, Linked, View;
    var gone;
    gone, released := Free(it, nbs, k);
    after := null;
    if nnext != null {
      At(nbs, k + 1);
      after := nnext.next;
    }
  }

  lemma Unfreed(c: Chain)
    ensures FreedUpTo(c, 0) == c
  {
  }

  /**
   Free node after node. The next node is looked up before the current one is freed; with the last
   node live, the chain is there to the end of the walk.
   */
  method FreeAll(nb: Netbuf, ghost nbs: seq<Netbuf>) returns (released: seq<nat>)
    requires Linked(nbs) && nb in nbs && !nbs[|nbs| - 1].freed
    modifies nbs`bufStart, nbs`size, nbs`freed, nbs`buf
    ensures released == Released(FreedUpTo(old(View(nbs)), |nbs|))
  {
    ghost var c := View(nbs);
    At(nbs, |nbs| - 1);
    Begin(nbs, nb);
    At(nbs, 0);
    Unfreed(c);
    hide Released, FreedUpTo, Linked, View;
    released := [];
    var it := nb.first;
    var nnext := nb.first.next;
    ghost var k := 0;
    while it != null
      invariant k <= |nbs| && it == NodeAt(nbs, k)
      invariant k < |nbs| ==> Linked(nbs) && View(nbs) == FreedUpTo(c, k) && nnext == NodeAt(nbs, k + 1)
      invariant k == |nbs| ==> released == Released(FreedUpTo(c, |c|))
      decreases |nbs| - k
    {
      var after;
      released, after := FreeStep(it, nnext, nbs, k, c);
      it, nnext := nnext, after;
      k := k + 1;
    }
  }
}
