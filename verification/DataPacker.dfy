/**
 Strings packed one behind the other into the tail of a record: where each one starts, that no
 two of them overlap, that the last one ends where the area ends, and that each can be read
 back from its start.
 */
module DataPacker {
  import opened Prelude
  import opened Codec
  import opened Neighbor

  /** Each string with its terminator. */
  function Packed(ts: seq<Text>): seq<byte> {
    if ts == [] then [] else ts[0] + [0] + Packed(ts[1..])
  }

  lemma {:induction false} PackedConcat(a: seq<Text>, b: seq<Text>)
    ensures Packed(a + b) == Packed(a) + Packed(b)
  {
    if a == [] {
      assert a + b == b;
    } else {
      PackedConcat(a[1..], b);
      assert (a + b)[1..] == a[1..] + b;
      assert (a[0] + [0] + Packed(a[1..])) + Packed(b) == a[0] + [0] + (Packed(a[1..]) + Packed(b));
    }
  }

  lemma PackedOne(t: Text)
    ensures Packed([t]) == t + [0]
  {
    assert [t][1..] == [];
    assert t + [0] + [] == t + [0];
  }

  /** Where string `k` starts. */
  function Start(ts: seq<Text>, k: nat): nat
    requires k <= |ts|
  {
    |Packed(ts[..k])|
  }

  /** Strings follow one another without overlap, and the last ends where the area ends. */
  lemma NoOverlap(ts: seq<Text>, k: nat)
    requires k < |ts|
    ensures Start(ts, k) + |ts[k]| + 1 == Start(ts, k + 1) <= |Packed(ts)|
    ensures Start(ts, |ts|) == |Packed(ts)|
    ensures Packed(ts)[Start(ts, k)..Start(ts, k + 1)] == ts[k] + [0]
  {
    assert ts[..k + 1] == ts[..k] + [ts[k]];
    PackedConcat(ts[..k], [ts[k]]);
    PackedOne(ts[k]);
    assert ts == ts[..k + 1] + ts[k + 1..];
    PackedConcat(ts[..k + 1], ts[k + 1..]);
    assert ts[..|ts|] == ts;
  }

  lemma {:induction false} CStringStops(t: Text, rest: seq<byte>)
    ensures CString(t + [0] + rest) == t
  {
    if t != [] {
      assert t[0] in t;
      assert (t + [0] + rest)[1..] == t[1..] + [0] + rest;
      CStringStops(t[1..], rest);
    }
  }

  /** A string read from its start is the string that was packed there. */
  lemma ReadsBack(area: seq<byte>, offset: nat, before: seq<Text>, t: Text, after: seq<Text>)
    requires offset <= |area| && area[offset..] == Packed(before + [t] + after)
    ensures offset + |Packed(before)| <= |area|
    ensures CString(area[offset + |Packed(before)|..]) == t
  {
    PackedConcat(before + [t], after);
    PackedConcat(before, [t]);
    PackedOne(t);
    var p, q := Packed(before), Packed(after);
    assert area[offset..] == p + (t + [0] + q);
    assert area[offset..][|p|..] == t + [0] + q;
    assert area[offset + |p|..] == area[offset..][|p|..];
    CStringStops(t, q);
  }

  class Packer {
    const base: array<byte>
    const maxSz: nat
    var next: nat

    ghost predicate Valid()
      reads this
    {
      next <= maxSz <= base.Length
    }

    constructor (base: array<byte>, offset: nat, maxSz: nat)
      requires offset <= maxSz <= base.Length
      ensures Valid() && this.base == base && this.maxSz == maxSz && next == offset
    {
      this.base := base;
      this.maxSz := maxSz;
      next := offset;
    }

    /** Writing past the maximum aborts the program; callers have counted. */
    method Write(data: seq<byte>)
      requires Valid() && next + |data| <= maxSz
      modifies this, base
      ensures Valid() && next == old(next) + |data|
      ensures base[..] == old(base[..])[..old(next)] + data + old(base[..])[next..]
    {
      var i := 0;
      ghost var was := base[..];
      while i < |data|
        invariant i <= |data| && next == old(next)
        invariant forall k | 0 <= k < i :: base[next + k] == data[k]
        invariant forall k | 0 <= k < next || next + i <= k < base.Length :: base[k] == was[k]
      {
        base[next + i] := data[i];
        i := i + 1;
      }
      assert base[next..next + |data|] == data;
      next := next + |data|;
    }

    method WriteStr(t: Text)
      requires Valid() && next + |t| + 1 <= maxSz
      modifies this, base
      ensures Valid() && next == old(next) + |t| + 1
      ensures base[..] == old(base[..])[..old(next)] + (t + [0]) + old(base[..])[next..]
    {
      Write(t);
      base[next] := 0;
      next := next + 1;
    }
  }
}
