/** Chains of network buffers, as values. */
module NetBufChain {
  import opened Prelude

  // Slices over shared memory blocks: what splitting, appending, freeing and reading do to a chain,
  // and what that means for its bytes and its blocks.

  /** The callback that releases a block; a chain may also be given none. */
  datatype FreeMethod = NoMethod | Normal | Pool | Dont

  /** `start` names the block, 0 is the null pointer. `buf` is what the slice pointer leads to. */
  datatype Node = Node(eType: nat, size: nat, buf: seq<byte>, start: nat, freed: bool, freeMethod: FreeMethod)

  type Chain = seq<Node>

  // ---------------------------------------------------------------- bytes

  predicate Sound(n: Node) {
    if n.freed then n.size == 0 else n.size <= |n.buf| && n.start != 0
  }

  predicate AllSound(c: Chain) {
    forall n | n in c :: Sound(n)
  }

  function Slice(n: Node): seq<byte>
    requires Sound(n)
  {
    if n.freed then [] else n.buf[..n.size]
  }

  /** The bytes of a chain: its live slices, one after the other. */
  function Flat(c: Chain): seq<byte>
    requires AllSound(c)
  {
    if c == [] then [] else
      assert c[0] in c;
      Slice(c[0]) + Flat(c[1..])
  }

  lemma FlatFirst(x: Node, c: Chain)
    requires Sound(x) && AllSound(c)
    ensures AllSound([x] + c) && Flat([x] + c) == Slice(x) + Flat(c)
  {
    assert ([x] + c)[1..] == c;
  }

  lemma SoundConcat(a: Chain, b: Chain)
    requires AllSound(a) && AllSound(b)
    ensures AllSound(a + b)
  {
  }

  lemma {:induction false} FlatConcat(a: Chain, b: Chain)
    requires AllSound(a) && AllSound(b)
    ensures AllSound(a + b) && Flat(a + b) == Flat(a) + Flat(b)
  {
    SoundConcat(a, b);
    if a == [] {
      assert a + b == b;
    } else {
      var x, c := a[0], a[1..];
      assert x in a && a == [x] + c && a + b == [x] + (c + b);
      SoundConcat(c, b);
      FlatFirst(x, c);
      FlatFirst(x, c + b);
      FlatConcat(c, b);
      Assoc(Slice(x), Flat(c), Flat(b));
      hide Flat, Slice;
    }
  }

  lemma Assoc(p: seq<byte>, q: seq<byte>, r: seq<byte>)
    ensures p + q + r == p + (q + r)
  {
  }

  lemma FlatOne(n: Node)
    requires Sound(n)
    ensures AllSound([n]) && Flat([n]) == Slice(n)
  {
    assert [n][1..] == [];
  }

  /** Where the bytes of a live node stand in the flat sequence, and that the bytes of freed ones do not. */
  lemma {:induction false} FlatAt(c: Chain, k: nat, j: nat)
    requires AllSound(c) && k < |c|
    ensures AllSound(c[..k]) && AllSound(c[..k + 1])
    ensures |Flat(c[..k + 1])| == |Flat(c[..k])| + (if c[k].freed then 0 else c[k].size)
    ensures |Flat(c[..k + 1])| <= |Flat(c)|
    ensures !c[k].freed && j < c[k].size ==>
              && |Flat(c[..k])| + j < |Flat(c)| && j < |c[k].buf|
              && Flat(c)[|Flat(c[..k])| + j] == c[k].buf[j]
  {
    assert c[k] in c;
    assert c == c[..k] + ([c[k]] + c[k + 1..]) && c[..k + 1] == c[..k] + [c[k]];
    FlatOne(c[k]);
    FlatConcat(c[..k], [c[k]]);
    FlatConcat([c[k]], c[k + 1..]);
    FlatConcat(c[..k], [c[k]] + c[k + 1..]);
  }

  predicate HasLive(c: Chain) {
    exists i :: 0 <= i < |c| && !c[i].freed
  }

  // ---------------------------------------------------------------- splitting

  /** The two halves of a slice cut at `n`. */
  function FirstHalf(x: Node, n: nat): Node {
    x.(size := n)
  }

  function SecondHalf(x: Node, eType: nat, n: nat): Node
    requires !x.freed && n <= x.size <= |x.buf|
  {
    x.(eType := eType, size := x.size - n, buf := x.buf[n..])
  }

  /** A cut at `n` bytes, if the chain is long enough. */
  function Split(c: Chain, eType: nat, n: nat): (r: Option<Chain>)
    requires AllSound(c)
    decreases |c|
  {
    if c == [] then None
    else
      var x := c[0];
      assert x in c;
      if x.freed || x.size < n then
        match Split(c[1..], eType, if x.freed then n else n - x.size)
        case None => None
        case Some(rest) => Some([x] + rest)
      else if x.size == n then Some(c)
      else Some([FirstHalf(x, n), SecondHalf(x, eType, n)] + c[1..])
  }

  lemma {:induction false} SplitWorks(c: Chain, eType: nat, n: nat) returns (k: nat)
    requires AllSound(c)
    ensures Split(c, eType, n).Some? <==> HasLive(c) && n <= |Flat(c)|
    ensures Split(c, eType, n).Some? ==>
              var d := Split(c, eType, n).value;
              && AllSound(d) && Flat(d) == Flat(c)
              && k <= |d| && |Flat(d[..k])| == n
    decreases |c|
  {
    k := 0;
    if c != [] {
      var x := c[0];
      assert x in c && Flat(c) == Slice(x) + Flat(c[1..]);
      if x.freed || x.size < n {
        var m := if x.freed then n else n - x.size;
        var j := SplitWorks(c[1..], eType, m);
        var r := Split(c[1..], eType, m);
        LiveSplit(c);
        if !HasLive(c[1..]) {
          NothingLive(c[1..]);
        }
        if r.Some? {
          var d := [x] + r.value;
          FlatOne(x);
          FlatConcat([x], r.value);
          k := j + 1;
          assert d[..k] == [x] + r.value[..j];
          SoundPrefix(r.value, j);
          FlatConcat([x], r.value[..j]);
        }
      } else if x.size == n {
        assert !c[0].freed;
        k := 1;
        assert c[..1] == [x];
        FlatOne(x);
      } else {
        assert !c[0].freed;
        CutFirst(c, eType, n);
        k := 1;
      }
    }
  }

  /** Node `k` was cut in two: the front keeps its type, the back has the one asked for. */
  predicate CutAt(c: Chain, d: Chain, k: nat, eType: nat) {
    && k < |c| && |d| == |c| + 1 && d[..k] == c[..k] && d[k + 2..] == c[k + 1..]
    && CutInto(c[k], d[k], d[k + 1], eType)
  }

  predicate CutInto(x: Node, a: Node, b: Node, eType: nat) {
    && !x.freed && !a.freed && !b.freed
    && a.eType == x.eType && b.eType == eType
    && a.size < x.size && a.size + b.size == x.size <= |x.buf|
    && a.buf == x.buf && b.buf == x.buf[a.size..]
    && a.start == b.start == x.start && a.freeMethod == b.freeMethod == x.freeMethod
  }

  /** A split leaves the chain as it is, with a boundary at `n`, or cuts one node there. */
  lemma {:induction false} SplitCuts(c: Chain, eType: nat, n: nat) returns (k: nat)
    requires AllSound(c) && Split(c, eType, n).Some?
    ensures var d := Split(c, eType, n).value; d == c || CutAt(c, d, k, eType)
    decreases |c|
  {
    var x := c[0];
    k := 0;
    if x.freed || x.size < n {
      var rest := c[1..];
      var m := if x.freed then n else n - x.size;
      var j := SplitCuts(rest, eType, m);
      var e, d := Split(rest, eType, m).value, Split(c, eType, n).value;
      assert c == [x] + rest;
      if e != rest {
        k := j + 1;
        assert d[..k] == [x] + e[..j] && c[..k] == [x] + rest[..j];
        assert d[k + 2..] == e[j + 2..] && c[k + 1..] == rest[j + 1..];
        assert d[k] == e[j] && d[k + 1] == e[j + 1] && c[k] == rest[j];
      }
    } else if x.size > n {
      assert x in c;
    }
  }

  lemma FlatTwo(a: Node, b: Node)
    requires Sound(a) && Sound(b)
    ensures AllSound([a, b]) && Flat([a, b]) == Slice(a) + Slice(b)
  {
    FlatOne(a);
    FlatOne(b);
    FlatConcat([a], [b]);
    assert [a] + [b] == [a, b];
    hide Flat, Slice, Sound;
  }

  lemma Halves(x: Node, eType: nat, n: nat)
    requires Sound(x) && !x.freed && n < x.size
    ensures var a, b := FirstHalf(x, n), SecondHalf(x, eType, n);
      Sound(a) && Sound(b) && Slice(a) + Slice(b) == Slice(x) && |Slice(a)| == n
  {
  }

  lemma CutFirst(c: Chain, eType: nat, n: nat)
    requires AllSound(c) && c != [] && Sound(c[0]) && !c[0].freed && n < c[0].size
    ensures var d := [FirstHalf(c[0], n), SecondHalf(c[0], eType, n)] + c[1..];
      AllSound(d) && Flat(d) == Flat(c) && |Flat(d[..1])| == n
  {
    var x := c[0];
    var a, b := FirstHalf(x, n), SecondHalf(x, eType, n);
    Halves(x, eType, n);
    FlatOne(a);
    FlatTwo(a, b);
    FlatConcat([a, b], c[1..]);
    assert Flat(c) == Slice(x) + Flat(c[1..]);
    assert ([a, b] + c[1..])[..1] == [a];
    hide Flat, Slice, FirstHalf, SecondHalf, Sound;
  }

  lemma {:induction false} NothingLive(c: Chain)
    requires AllSound(c) && !HasLive(c)
    ensures Flat(c) == []
  {
    if c != [] {
      assert c[0] in c;
      LiveSplit(c);
      NothingLive(c[1..]);
    }
  }

  lemma SoundPrefix(c: Chain, k: nat)
    requires AllSound(c) && k <= |c|
    ensures AllSound(c[..k])
  {
  }

  lemma LiveSplit(c: Chain)
    requires c != []
    ensures HasLive(c) <==> !c[0].freed || HasLive(c[1..])
  {
    if HasLive(c) && c[0].freed {
      var i :| 0 <= i < |c| && !c[i].freed;
      assert !c[1..][i - 1].freed;
    }
    if HasLive(c[1..]) {
      var i :| 0 <= i < |c[1..]| && !c[1..][i].freed;
      assert !c[i + 1].freed;
    }
  }

  // ---------------------------------------------------------------- reading

  function Min(a: nat, b: nat): nat {
    if a < b then a else b
  }

  /** At most `n` bytes from position `off`. */
  function Sub(s: seq<byte>, off: nat, n: nat): (r: seq<byte>)
    ensures |r| == Min(n, if off < |s| then |s| - off else 0)
  {
    s[Min(off, |s|)..Min(off + n, |s|)]
  }

  /** The bytes are those of the positions asked for. */
  lemma SubAt(s: seq<byte>, off: nat, n: nat, k: nat)
    ensures k < |Sub(s, off, n)| <==> k < n && off + k < |s|
    ensures k < |Sub(s, off, n)| ==> Sub(s, off, n)[k] == s[off + k]
  {
  }

  lemma SubSecond(a: seq<byte>, b: seq<byte>, off: nat, n: nat)
    requires |a| <= off
    ensures Sub(a + b, off, n) == Sub(b, off - |a|, n)
  {
    var lo, hi := Min(off - |a|, |b|), Min(off - |a| + n, |b|);
    assert (a + b)[|a| + lo..|a| + hi] == b[lo..hi];
  }

  lemma SubFirst(a: seq<byte>, b: seq<byte>, off: nat, n: nat)
    requires off + n <= |a|
    ensures Sub(a + b, off, n) == Sub(a, off, n)
  {
    assert (a + b)[off..off + n] == a[off..off + n];
  }

  lemma SubBoth(a: seq<byte>, b: seq<byte>, off: nat, n: nat)
    requires off < |a| < off + n
    ensures Sub(a + b, off, n) == a[off..] + Sub(b, 0, n - (|a| - off)) && Sub(a, off, n) == a[off..]
  {
    var hi := Min(off + n - |a|, |b|);
    assert (a + b)[off..|a| + hi] == a[off..] + b[..hi];
  }

  /** Reading across a boundary: what the first part has, then what room is left from the second. */
  lemma SubConcat(a: seq<byte>, b: seq<byte>, off: nat, n: nat)
    ensures Sub(a + b, off, n)
         == if |a| <= off then Sub(b, off - |a|, n) else Sub(a, off, n) + Sub(b, 0, n - |Sub(a, off, n)|)
  {
    hide Sub;
    if |a| <= off {
      SubSecond(a, b, off, n);
    } else if off + n <= |a| {
      SubFirst(a, b, off, n);
    } else {
      SubBoth(a, b, off, n);
    }
  }

  // ---------------------------------------------------------------- freeing

  /** How many nodes point to the block `start`. */
  function Sharers(c: Chain, start: nat): (n: nat)
    ensures n <= |c|
  {
    if c == [] then 0 else (if c[0].start == start then 1 else 0) + Sharers(c[1..], start)
  }

  predicate AllFreed(c: Chain) {
    forall n | n in c :: n.freed
  }

  /** The blocks handed to their free method when the whole chain goes. */
  function Released(c: Chain): seq<nat> {
    if c == [] then []
    else (if c[0].freeMethod != NoMethod && c[0].start != 0 then [c[0].start] else []) + Released(c[1..])
  }

  function Marked(x: Node): Node {
    x.(freed := true, size := 0, buf := [])
  }

  /** Node `i` freed; its pointer goes unless it was the last to the block. */
  function Free(c: Chain, i: nat): (d: Chain)
    requires i < |c|
    ensures |d| == |c|
  {
    var x := Marked(c[i]);
    var d := c[i := x];
    if Sharers(d, x.start) >= 2 then d[i := x.(start := 0)] else d
  }

  // ---------------------------------------------------------------- the blocks of a chain

  /** The blocks that some node points to. */
  function Blocks(c: Chain): set<nat> {
    set n | n in c && n.start != 0 :: n.start
  }

  /** Blocks with a free method. */
  function Releasable(c: Chain): set<nat> {
    set n | n in c && n.start != 0 && n.freeMethod != NoMethod :: n.start
  }

  /**
   Node by node sound; nodes on one block agree on its free method; and a freed node that still
   points to a block is the only one that does.
   */
  predicate Inv(c: Chain) {
    && AllSound(c)
    && (forall i, j | 0 <= i < |c| && 0 <= j < |c|
        && c[i].start == c[j].start != 0 :: c[i].freeMethod == c[j].freeMethod)
    && (forall i, j | 0 <= i < |c| && 0 <= j < |c| && c[i].freed && c[i].start == c[j].start != 0 :: i == j)
  }

  lemma {:induction false} SharersOther(c: Chain, i: nat)
    requires i < |c|
    ensures Sharers(c, c[i].start) >= 1
    ensures Sharers(c, c[i].start) >= 2 <==> exists j :: 0 <= j < |c| && j != i && c[j].start == c[i].start
    decreases |c|
  {
    var start := c[i].start;
    if i == 0 {
      SharersAny(c[1..], start);
      if exists j :: 0 <= j < |c[1..]| && c[1..][j].start == start {
        var j :| 0 <= j < |c[1..]| && c[1..][j].start == start;
        assert c[j + 1].start == start;
      }
      if exists j :: 0 <= j < |c| && j != i && c[j].start == start {
        var j :| 0 <= j < |c| && j != i && c[j].start == start;
        assert c[1..][j - 1].start == start;
      }
    } else {
      SharersOther(c[1..], i - 1);
      if exists j :: 0 <= j < |c[1..]| && j != i - 1 && c[1..][j].start == start {
        var j :| 0 <= j < |c[1..]| && j != i - 1 && c[1..][j].start == start;
        assert c[j + 1].start == start;
      }
      if exists j :: 0 <= j < |c| && j != i && c[j].start == start {
        var j :| 0 <= j < |c| && j != i && c[j].start == start;
        if j > 0 {
          assert c[1..][j - 1].start == start;
        }
      }
    }
  }

  lemma {:induction false} SharersAny(c: Chain, start: nat)
    ensures Sharers(c, start) >= 1 <==> exists j :: 0 <= j < |c| && c[j].start == start
  {
    if c != [] {
      SharersAny(c[1..], start);
      if exists j :: 0 <= j < |c[1..]| && c[1..][j].start == start {
        var j :| 0 <= j < |c[1..]| && c[1..][j].start == start;
        assert c[j + 1].start == start;
      }
      if exists j :: 0 <= j < |c| && c[j].start == start {
        var j :| 0 <= j < |c| && c[j].start == start;
        if j > 0 {
          assert c[1..][j - 1].start == start;
        }
      }
    }
  }

  predicate PointsAt(n: Node, b: nat, methodOnly: bool) {
    n.start == b && (methodOnly ==> n.freeMethod != NoMethod)
  }

  lemma InBlocks(c: Chain, b: nat)
    ensures b in Blocks(c) <==> b != 0 && exists j :: 0 <= j < |c| && PointsAt(c[j], b, false)
    ensures b in Releasable(c) <==> b != 0 && exists j :: 0 <= j < |c| && PointsAt(c[j], b, true)
  {
    if b in Blocks(c) {
      var n :| n in c && n.start != 0 && n.start == b;
      var j :| 0 <= j < |c| && c[j] == n;
      assert PointsAt(c[j], b, false);
    }
    if b in Releasable(c) {
      var n :| n in c && n.start != 0 && n.start == b && n.freeMethod != NoMethod;
      var j :| 0 <= j < |c| && c[j] == n;
      assert PointsAt(c[j], b, true);
    }
  }

  /** Freeing changes that node alone; its pointer goes exactly when another node has the same block. */
  lemma FreeChanges(c: Chain, i: nat)
    requires i < |c|
    ensures var d := Free(c, i);
            && d[..i] == c[..i] && d[i + 1..] == c[i + 1..]
            && d[i].freed && d[i].size == 0 && d[i].buf == []
            && d[i].eType == c[i].eType && d[i].freeMethod == c[i].freeMethod
            && d[i].start == (if exists j :: 0 <= j < |c| && j != i && c[j].start == c[i].start then 0 else c[i].start)
  {
    var d := c[i := Marked(c[i])];
    assert forall j | 0 <= j < |c| && j != i :: d[j] == c[j];
    SharersOther(d, i);
  }

  /** And of the bytes, those of that node go. */
  lemma FreeBytes(c: Chain, i: nat)
    requires AllSound(c) && i < |c|
    ensures AllSound(Free(c, i)) && AllSound(c[..i]) && AllSound(c[i + 1..])
    ensures Flat(Free(c, i)) == Flat(c[..i]) + Flat(c[i + 1..])
  {
    FreeChanges(c, i);
    var d := Free(c, i);
    hide Free;
    assert d == c[..i] + ([d[i]] + c[i + 1..]);
    FlatOne(d[i]);
    FlatConcat([d[i]], c[i + 1..]);
    FlatConcat(c[..i], [d[i]] + c[i + 1..]);
    hide Flat;
    assert [] + Flat(c[i + 1..]) == Flat(c[i + 1..]);
  }

  /** Freed nodes point to a block only if they are the last to do so. */
  lemma FreeKeepsInv(c: Chain, i: nat)
    requires Inv(c) && i < |c|
    ensures Inv(Free(c, i))
  {
    var d := c[i := Marked(c[i])];
    SharersOther(d, i);
    hide Sharers;
    var e := Free(c, i);
    forall n | n in e ensures Sound(n) {
      var j :| 0 <= j < |e| && e[j] == n;
      assert c[j] in c;
    }
  }

  /** A pointer is only given up while another one to the same block is left. */
  lemma FreeKeepsPointer(c: Chain, i: nat, b: nat, methodOnly: bool)
    requires Inv(c) && i < |c| && b != 0
    ensures (exists j :: 0 <= j < |c| && PointsAt(c[j], b, methodOnly))
       <==> (exists j :: 0 <= j < |c| && PointsAt(Free(c, i)[j], b, methodOnly))
  {
    var d := c[i := Marked(c[i])];
    SharersOther(d, i);
    hide Sharers;
    var e := Free(c, i);
    if exists j :: 0 <= j < |c| && PointsAt(c[j], b, methodOnly) {
      var j :| 0 <= j < |c| && PointsAt(c[j], b, methodOnly);
      if j == i && e[i].start == 0 {
        var k :| 0 <= k < |d| && k != i && d[k].start == d[i].start;
        assert PointsAt(e[k], b, methodOnly);
      } else {
        assert PointsAt(e[j], b, methodOnly);
      }
    }
    if exists j :: 0 <= j < |c| && PointsAt(e[j], b, methodOnly) {
      var j :| 0 <= j < |c| && PointsAt(e[j], b, methodOnly);
      assert PointsAt(c[j], b, methodOnly);
    }
  }

  lemma FreeKeepsBlocks(c: Chain, i: nat)
    requires Inv(c) && i < |c|
    ensures Blocks(Free(c, i)) == Blocks(c) && Releasable(Free(c, i)) == Releasable(c)
  {
    var e := Free(c, i);
    forall b ensures (b in Blocks(e) <==> b in Blocks(c)) && (b in Releasable(e) <==> b in Releasable(c)) {
      InBlocks(c, b);
      InBlocks(e, b);
      if b != 0 {
        FreeKeepsPointer(c, i, b, false);
        FreeKeepsPointer(c, i, b, true);
      }
    }
  }

  /** A freed node of a block is alone on it, so a chain of freed nodes releases no block twice. */
  lemma {:induction false} ReleasedOnce(c: Chain)
    requires Inv(c) && AllFreed(c)
    ensures forall j, k | 0 <= j < k < |Released(c)| :: Released(c)[j] != Released(c)[k]
    ensures forall b :: b in Released(c) <==> b in Releasable(c)
  {
    if c != [] {
      var rest := c[1..];
      InvTail(c);
      ReleasedOnce(rest);
      forall b ensures b in Releasable(c) <==> b in Releasable(rest) || (b != 0 && PointsAt(c[0], b, true)) {
        ReleasableFirst(c, b);
      }
      if c[0].start != 0 {
        AloneOnBlock(c);
      }
    }
  }

  lemma InvTail(c: Chain)
    requires Inv(c) && c != []
    ensures Inv(c[1..])
  {
    var rest := c[1..];
    forall n | n in rest ensures Sound(n) {
      assert n in c;
    }
    forall i, j | 0 <= i < |rest| && 0 <= j < |rest| && rest[i].start == rest[j].start != 0
      ensures rest[i].freeMethod == rest[j].freeMethod && (rest[i].freed ==> i == j)
    {
      assert rest[i] == c[i + 1] && rest[j] == c[j + 1];
    }
  }

  lemma ReleasableFirst(c: Chain, b: nat)
    requires c != []
    ensures b in Releasable(c) <==> b in Releasable(c[1..]) || (b != 0 && PointsAt(c[0], b, true))
  {
    InBlocks(c, b);
    InBlocks(c[1..], b);
    if b in Releasable(c[1..]) {
      var j :| 0 <= j < |c[1..]| && PointsAt(c[1..][j], b, true);
      assert PointsAt(c[j + 1], b, true);
    }
    if b in Releasable(c) {
      var j :| 0 <= j < |c| && PointsAt(c[j], b, true);
      if j > 0 {
        assert PointsAt(c[1..][j - 1], b, true);
      }
    }
  }

  lemma AloneOnBlock(c: Chain)
    requires Inv(c) && c != [] && c[0].freed && c[0].start != 0
    ensures c[0].start !in Releasable(c[1..])
  {
    var rest := c[1..];
    InBlocks(rest, c[0].start);
    forall j | 0 <= j < |rest| ensures !PointsAt(rest[j], c[0].start, true) {
      assert rest[j] == c[j + 1];
    }
  }

  // ---------------------------------------------------------------- the other operations

  /** `d` is `c` with live node `k` cut in two. */
  predicate OneMore(c: Chain, d: Chain, k: nat) {
    && k < |c| && !c[k].freed && |d| == |c| + 1
    && (forall i | 0 <= i < k :: d[i] == c[i]) && (forall i | k < i < |c| :: d[i + 1] == c[i])
    && d[k].start == d[k + 1].start == c[k].start && !d[k].freed && !d[k + 1].freed
    && d[k].freeMethod == d[k + 1].freeMethod == c[k].freeMethod
  }

  lemma OneMoreBehind(x: Node, c: Chain, d: Chain, k: nat)
    requires OneMore(c, d, k)
    ensures OneMore([x] + c, [x] + d, k + 1)
  {
    var c', d' := [x] + c, [x] + d;
    forall i | 0 <= i < k + 1 ensures d'[i] == c'[i] {
      if i > 0 {
        assert d'[i] == d[i - 1] && c'[i] == c[i - 1];
      }
    }
    forall i | k + 1 < i < |c'| ensures d'[i + 1] == c'[i] {
      assert d'[i + 1] == d[i] && c'[i] == c[i - 1];
    }
  }

  lemma {:induction false} SplitNodes(c: Chain, eType: nat, n: nat) returns (k: nat)
    requires AllSound(c) && Split(c, eType, n).Some?
    ensures Split(c, eType, n).value == c || OneMore(c, Split(c, eType, n).value, k)
    decreases |c|
  {
    var x := c[0];
    assert x in c;
    k := 0;
    if x.freed || x.size < n {
      var m := if x.freed then n else n - x.size;
      var j := SplitNodes(c[1..], eType, m);
      k := j + 1;
      var e := Split(c[1..], eType, m).value;
      assert Split(c, eType, n).value == [x] + e;
      assert c == [x] + c[1..];
      if e != c[1..] {
        OneMoreBehind(x, c[1..], e, j);
      }
    }
  }

  /** Splitting adds a live node on an existing block and touches no freed one. */
  lemma SplitKeeps(c: Chain, eType: nat, n: nat)
    requires Inv(c) && Split(c, eType, n).Some?
    ensures Inv(Split(c, eType, n).value)
    ensures Blocks(Split(c, eType, n).value) == Blocks(c) && Releasable(Split(c, eType, n).value) == Releasable(c)
    ensures HasLive(Split(c, eType, n).value)
  {
    var d := Split(c, eType, n).value;
    var _ := SplitWorks(c, eType, n);
    var k := SplitNodes(c, eType, n);
    hide Split, AllSound, Flat;
    if d != c {
      assert !d[k].freed;
      SplitIndices(c, d, k);
      forall b ensures (b in Blocks(d) <==> b in Blocks(c)) && (b in Releasable(d) <==> b in Releasable(c)) {
        SamePointers(c, d, k, b);
      }
    }
  }

  /** Node `i` of the longer chain was node `Origin(i)` of the shorter. */
  function Origin(k: nat, i: nat): nat {
    if i <= k then i else i - 1
  }

  lemma SplitIndices(c: Chain, d: Chain, k: nat)
    requires Inv(c) && AllSound(d) && OneMore(c, d, k)
    ensures Inv(d)
  {
    hide AllSound;
    forall i, j | 0 <= i < |d| && 0 <= j < |d| && d[i].start == d[j].start != 0
      ensures d[i].freeMethod == d[j].freeMethod && (d[i].freed ==> i == j)
    {
      var i', j' := Origin(k, i), Origin(k, j);
      assert d[i].start == c[i'].start && d[j].start == c[j'].start;
      assert d[i].freed == c[i'].freed && d[i].freeMethod == c[i'].freeMethod && d[j].freeMethod == c[j'].freeMethod;
    }
  }

  lemma SamePointers(c: Chain, d: Chain, k: nat, b: nat)
    requires OneMore(c, d, k)
    ensures b in Blocks(d) <==> b in Blocks(c)
    ensures b in Releasable(d) <==> b in Releasable(c)
  {
    InBlocks(c, b);
    InBlocks(d, b);
    hide Blocks, Releasable, OneMore;
    PointersSurvive(c, d, k, b, false);
    PointersSurvive(c, d, k, b, true);
  }

  lemma PointersSurvive(c: Chain, d: Chain, k: nat, b: nat, methodOnly: bool)
    requires OneMore(c, d, k)
    ensures (exists j :: 0 <= j < |c| && PointsAt(c[j], b, methodOnly))
       <==> (exists j :: 0 <= j < |d| && PointsAt(d[j], b, methodOnly))
  {
    if exists j :: 0 <= j < |c| && PointsAt(c[j], b, methodOnly) {
      var j :| 0 <= j < |c| && PointsAt(c[j], b, methodOnly);
      assert PointsAt(d[if j <= k then j else j + 1], b, methodOnly);
    }
    if exists j :: 0 <= j < |d| && PointsAt(d[j], b, methodOnly) {
      var j :| 0 <= j < |d| && PointsAt(d[j], b, methodOnly);
      assert PointsAt(c[Origin(k, j)], b, methodOnly);
    }
  }

  predicate AllLive(c: Chain) {
    forall n | n in c :: !n.freed
  }

  lemma AppendInv(c: Chain, d: Chain)
    requires Inv(c) && Inv(d) && Blocks(c) !! Blocks(d)
    ensures Inv(c + d)
  {
    var e := c + d;
    forall i, j | 0 <= i < |c| && 0 <= j < |d| && c[i].start != 0 ensures c[i].start != d[j].start {
      assert c[i].start in Blocks(c);
      if d[j].start != 0 {
        assert d[j].start in Blocks(d);
      }
    }
    hide Blocks, Sound;
    forall i, j | 0 <= i < |e| && 0 <= j < |e| && e[i].start == e[j].start != 0
      ensures e[i].freeMethod == e[j].freeMethod && (e[i].freed ==> i == j)
    {
      InAppend(c, d, i);
      InAppend(c, d, j);
    }
  }

  lemma InAppend(c: Chain, d: Chain, i: nat)
    requires i < |c + d|
    ensures (c + d)[i] == if i < |c| then c[i] else d[i - |c|]
  {
  }

  /** Appending a chain over other blocks. */
  lemma AppendKeeps(c: Chain, d: Chain)
    requires Inv(c) && Inv(d) && Blocks(c) !! Blocks(d)
    ensures Inv(c + d) && Flat(c + d) == Flat(c) + Flat(d)
    ensures Blocks(c + d) == Blocks(c) + Blocks(d) && Releasable(c + d) == Releasable(c) + Releasable(d)
  {
    AppendInv(c, d);
    FlatConcat(c, d);
    hide Flat, AllSound;
    forall b ensures (b in Blocks(c + d) <==> b in Blocks(c) + Blocks(d))
                  && (b in Releasable(c + d) <==> b in Releasable(c) + Releasable(d)) {
      BlocksConcat(c, d, b);
    }
  }

  lemma BlocksConcat(c: Chain, d: Chain, b: nat)
    ensures b in Blocks(c + d) <==> b in Blocks(c) + Blocks(d)
    ensures b in Releasable(c + d) <==> b in Releasable(c) + Releasable(d)
  {
  }

  // ---------------------------------------------------------------- a chain's whole life

  /** What is done to a chain: nodes may be freed again, and appended chains bring their own blocks. */
  datatype Event = DoSplit(eType: nat, n: nat) | DoAppend(d: Chain) | DoFree(i: nat)

  /** Splits that fail change nothing. Appending needs a live left chain and an all-live right one. */
  ghost predicate Allowed(c: Chain, e: Event) {
    match e
    case DoSplit(_, _) => true
    case DoAppend(d) => Inv(d) && AllLive(d) && Blocks(c) !! Blocks(d)
    case DoFree(i) => i < |c|
  }

  ghost function After(c: Chain, e: Event): Chain
    requires Inv(c) && Allowed(c, e)
  {
    match e
    case DoSplit(eType, n) => (match Split(c, eType, n) case None => c case Some(d) => d)
    case DoAppend(d) => c + d
    case DoFree(i) => Free(c, i)
  }

  ghost function NewBlocks(e: Event): set<nat> {
    if e.DoAppend? then Releasable(e.d) else {}
  }

  lemma StepKeeps(c: Chain, e: Event)
    requires Inv(c) && Allowed(c, e)
    ensures Inv(After(c, e)) && Releasable(After(c, e)) == Releasable(c) + NewBlocks(e)
  {
    match e
    case DoSplit(eType, n) =>
      if Split(c, eType, n).Some? {
        SplitKeeps(c, eType, n);
      }
    case DoAppend(d) => AppendKeeps(c, d);
    case DoFree(i) =>
      FreeKeepsInv(c, i);
      FreeKeepsBlocks(c, i);
  }

  /** The blocks handed to their free methods by one step: all of them once everything is freed. */
  ghost function ReleasedBy(c: Chain, e: Event): seq<nat>
    requires Inv(c) && Allowed(c, e)
  {
    if e.DoFree? && AllFreed(After(c, e)) then Released(After(c, e)) else []
  }

  /** A run from a chain with live nodes, up to the step after which the chain no longer exists. */
  ghost predicate Lives(c: Chain, es: seq<Event>)
    requires Inv(c)
    decreases |es|
  {
    es == [] ||
    (Allowed(c, es[0])
     && (StepKeeps(c, es[0]);
         if AllFreed(After(c, es[0])) then |es| == 1 else Lives(After(c, es[0]), es[1..])))
  }

  /** All blocks released over a run, in order. */
  ghost function AllReleased(c: Chain, es: seq<Event>): seq<nat>
    requires Inv(c) && Lives(c, es)
    decreases |es|
  {
    if es == [] then []
    else
      StepKeeps(c, es[0]);
      if AllFreed(After(c, es[0])) then ReleasedBy(c, es[0])
      else ReleasedBy(c, es[0]) + AllReleased(After(c, es[0]), es[1..])
  }

  ghost function AllBlocks(c: Chain, es: seq<Event>): set<nat> {
    if es == [] then Releasable(c) else NewBlocks(es[0]) + AllBlocks(c, es[1..])
  }

  ghost function EndOf(c: Chain, es: seq<Event>): Chain
    requires Inv(c) && Lives(c, es)
    decreases |es|
  {
    if es == [] then c
    else
      StepKeeps(c, es[0]);
      if AllFreed(After(c, es[0])) then After(c, es[0]) else EndOf(After(c, es[0]), es[1..])
  }

  lemma {:induction false} BlocksOfRest(c: Chain, d: Chain, es: seq<Event>, new_: set<nat>)
    requires Releasable(d) == Releasable(c) + new_
    ensures AllBlocks(d, es) == AllBlocks(c, es) + new_
    decreases |es|
  {
    if es != [] {
      BlocksOfRest(c, d, es[1..], new_);
    }
  }

  /**
   Over any run of splits, appends and frees, repeated frees included: while some node is live
   nothing is released. The step that frees the last live node releases every block that the
   chain or any appended chain brought and that has a free method, each exactly once.
   */
  lemma {:induction false} EachBlockOnce(c: Chain, es: seq<Event>)
    requires Inv(c) && !AllFreed(c) && Lives(c, es)
    ensures !AllFreed(EndOf(c, es)) ==> AllReleased(c, es) == []
    ensures AllFreed(EndOf(c, es)) ==>
              var r := AllReleased(c, es);
              && (forall j, k | 0 <= j < k < |r| :: r[j] != r[k])
              && (forall b :: b in r <==> b in AllBlocks(c, es))
    decreases |es|
  {
    hide Releasable, NewBlocks, After, Inv;
    if es != [] {
      var d := After(c, es[0]);
      StepKeeps(c, es[0]);
      BlocksOfRest(c, d, es[1..], NewBlocks(es[0]));
      if AllFreed(d) {
        EndsNow(c, es);
      } else {
        EachBlockOnce(d, es[1..]);
      }
    }
  }

  lemma EndsNow(c: Chain, es: seq<Event>)
    requires Inv(c) && !AllFreed(c) && es != [] && Lives(c, es) && AllFreed(After(c, es[0]))
    ensures EndOf(c, es) == After(c, es[0])
    ensures var r := AllReleased(c, es);
      && (forall j, k | 0 <= j < k < |r| :: r[j] != r[k])
      && (forall b :: b in r <==> b in AllBlocks(c, es))
  {
    var d := After(c, es[0]);
    StepKeeps(c, es[0]);
    if !es[0].DoFree? {
      OnlyFreeEnds(c, es[0]);
    }
    ReleasedOnce(d);
    assert AllReleased(c, es) == Released(d);
    assert es[1..] == [] && AllBlocks(c, es) == NewBlocks(es[0]) + Releasable(c);
    hide Released, Releasable, After, NewBlocks;
  }

  /** Only a free can leave nothing live. */
  lemma OnlyFreeEnds(c: Chain, e: Event)
    requires Inv(c) && !AllFreed(c) && Allowed(c, e) && !e.DoFree?
    ensures !AllFreed(After(c, e))
  {
    var n :| n in c && !n.freed;
    if e.DoAppend? {
      assert n in c + e.d;
    } else if Split(c, e.eType, e.n).Some? {
      SplitKeeps(c, e.eType, e.n);
      var i :| 0 <= i < |After(c, e)| && !After(c, e)[i].freed;
      assert After(c, e)[i] in After(c, e);
    }
  }

  // ---------------------------------------------------------------- freeing everything in one go

  /** The chain after nodes 0 to `k - 1` have been freed in order. */
  function FreedUpTo(c: Chain, k: nat): (d: Chain)
    requires k <= |c|
    ensures |d| == |c|
  {
    if k == 0 then c else Free(FreedUpTo(c, k - 1), k - 1)
  }

  lemma {:induction false} FreedFlags(c: Chain, k: nat)
    requires k <= |c|
    ensures forall i | 0 <= i < |c| :: FreedUpTo(c, k)[i].freed <==> i < k || c[i].freed
  {
    if k > 0 {
      FreedFlags(c, k - 1);
    }
  }

  /** The nodes still exist when the walk comes to node `k`. */
  predicate StillThere(c: Chain, k: nat)
    requires k <= |c|
  {
    !AllFreed(FreedUpTo(c, k))
  }

  lemma StillThereIff(c: Chain, k: nat)
    requires k < |c|
    ensures !c[|c| - 1].freed ==> StillThere(c, k)
    ensures c[|c| - 1].freed && k == |c| - 1 ==> !StillThere(c, k)
  {
    FreedFlags(c, k);
    var d := FreedUpTo(c, k);
    assert d[|c| - 1] in d;
    hide FreedUpTo;
  }

  /**
   Walking the chain and freeing node by node is safe exactly when the last node is live: else
   the nodes are gone before the walk is over.
   */
  lemma FreeAllSafe(c: Chain)
    requires c != []
    ensures !c[|c| - 1].freed <==> forall k | 0 <= k < |c| :: StillThere(c, k)
  {
    hide StillThere;
    forall k | 0 <= k < |c| ensures !c[|c| - 1].freed ==> StillThere(c, k) {
      StillThereIff(c, k);
    }
    StillThereIff(c, |c| - 1);
  }

  lemma {:induction false} FreedUpToKeeps(c: Chain, k: nat)
    requires Inv(c) && k <= |c|
    ensures Inv(FreedUpTo(c, k)) && Releasable(FreedUpTo(c, k)) == Releasable(c)
  {
    if k > 0 {
      FreedUpToKeeps(c, k - 1);
      FreeKeepsInv(FreedUpTo(c, k - 1), k - 1);
      FreeKeepsBlocks(FreedUpTo(c, k - 1), k - 1);
    }
  }

  /** Freeing everything in one go releases every block of the chain exactly once. */
  lemma FreeAllReleases(c: Chain)
    requires Inv(c) && c != []
    ensures var r := Released(FreedUpTo(c, |c|));
      && (forall j, k | 0 <= j < k < |r| :: r[j] != r[k])
      && (forall b :: b in r <==> b in Releasable(c))
  {
    var d := FreedUpTo(c, |c|);
    FreedUpToKeeps(c, |c|);
    FreedFlags(c, |c|);
    forall n | n in d ensures n.freed {
      var i :| 0 <= i < |d| && d[i] == n;
    }
    ReleasedOnce(d);
  }
}
