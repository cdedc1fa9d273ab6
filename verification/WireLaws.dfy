/** What the readers of the wire format accept and refuse, on any bytes. */
module WireLaws {
  import opened Prelude
  import opened Wire

  // ---------------------------------------------------------------- varints

  /** One varint: every byte but the last carries bit 7. */
  predicate IsVarint(p: seq<byte>) {
    p != [] && p[|p| - 1] < 128 && forall k | 0 <= k < |p| - 1 :: p[k] >= 128
  }

  /** A varint at the front of the window is there exactly when some front part is one. */
  lemma LenExact(s: seq<byte>, n: nat)
    ensures VarintLen(s) == Some(n) <==> n <= |s| && IsVarint(s[..n])
  {
    if VarintLen(s) == Some(n) {
      VarintLenBits(s);
    }
    if n <= |s| && IsVarint(s[..n]) {
      assert s[n - 1] == s[..n][n - 1];
      assert forall k | 0 <= k < n - 1 :: s[k] == s[..n][k];
      VarintLenIs(s, n);
    }
  }

  lemma FrontLen(h: seq<byte>, rest: seq<byte>)
    requires IsVarint(h)
    ensures VarintLen(h + rest) == Some(|h|)
  {
    Slices(h, rest);
    LenExact(h + rest, |h|);
  }

  /** The 64-bit reader takes any varint of at most ten bytes, modulo 2^64, and nothing else. */
  lemma Dec64Exact(s: seq<byte>, v: uint64, rest: seq<byte>)
    ensures Dec64(s) == Got(v, rest) <==>
            exists h: seq<byte> :: IsVarint(h) && |h| <= 10 && v == Val(h) % TWO64 && s == h + rest
  {
    if Dec64(s) == Got(v, rest) {
      var n := VarintLen(s).value;
      LenExact(s, n);
      assert IsVarint(s[..n]) && s == s[..n] + rest;
    }
    forall h: seq<byte> | IsVarint(h) && |h| <= 10 && v == Val(h) % TWO64 && s == h + rest
      ensures Dec64(s) == Got(v, rest)
    {
      FrontLen(h, rest);
      Slices(h, rest);
    }
  }

  /** Up to five bytes the 32-bit reader takes exactly the numbers below 2^32. */
  lemma Dec32Short(h: seq<byte>, rest: seq<byte>)
    requires IsVarint(h) && |h| <= 5
    ensures Dec32(h + rest) == if Val(h) < TWO32 then Got(Val(h), rest) else Fail
  {
    hide Val, Dec32;
    var s := h + rest;
    FrontLen(h, rest);
    Slices(h, rest);
    FewBytes(s, |h|);
    assert Low32(s, |h|) == Val(h) % TWO32;
    if |h| == 5 {
      FiveGroups(h);
      assert s[4] == h[4];
    } else {
      Fits28(h);
    }
    hide VarintLen, IsVarint, Low32;
  }

  lemma FewBytes(s: seq<byte>, n: nat)
    requires n <= 5 && VarintLen(s) == Some(n)
    ensures Dec32(s) == if n <= 4 || s[4] < 16 then Got(Low32(s, n), s[n..]) else Fail
  {
  }

  lemma FiveGroups(h: seq<byte>)
    requires |h| == 5 && h[4] < 128
    ensures Val(h) < TWO32 <==> h[4] < 16
  {
    hide Val;
    ValBound(h[..4]);
    Powers();
    ValSnoc(h[..4], h[4]);
    assert h == h[..4] + [h[4]];
    FifthGroup(Val(h[..4]), h[4]);
  }

  lemma Fits28(h: seq<byte>)
    requires |h| <= 4
    ensures Val(h) < TWO32
  {
    ValBound(h);
    Powers();
    assert Pow128(0) == 1;
  }

  lemma FifthGroup(low: nat, b: byte)
    requires low < 0x1000_0000 && b < 128
    ensures low + 0x1000_0000 * (b % 128) < TWO32 <==> b < 16
  {
  }

  /** A longer one is taken when it is a number below 2^32, padded with zero groups to at most ten bytes. */
  lemma Dec32Padded(h: seq<byte>, z: seq<byte>, rest: seq<byte>)
    requires |h| == 5 && IsVarint(h + z) && |h + z| <= 10 && Val(h) < TWO32
            && forall k | 0 <= k < |z| :: z[k] % 128 == 0
    ensures Dec32(h + z + rest) == Got(Val(h), rest)
  {
    if z == [] {
      assert h + z == h;
      Dec32Short(h, rest);
    } else {
      var p := h + z;
      FrontLen(p, rest);
      Slices(p, rest);
      assert (p + rest)[..5] == h;
      assert forall k | 5 <= k < |p| :: (p + rest)[k] == z[k - 5];
    }
  }

  /** But it also takes numbers that it cannot hold: of six bytes or more, three bits are never looked at. */
  lemma Reader32Loses()
    ensures var s: seq<byte> := [128, 128, 128, 128, 240, 0];
            Dec32(s) == Got(0, []) && Dec64(s) == Got(0x7_0000_0000, [])
  {
    var h: seq<byte> := [128, 128, 128, 128, 240, 0];
    assert h + [] == h;
    FrontLen(h, []);
    assert h[..6] == h;
    assert h[..5] == [128, 128, 128, 128, 240];
    var f := h[4..];
    assert f == [240, 0] && f[1..] == [0] && [0][1..] == [];
    assert Val(f[1..]) == 0 && Val(f) == 112;
    FourZeroGroups(h);
    FourZeroGroups(h[..5]);
    assert h[..5][4..] == [240] && [240][1..] == [] && Val([240]) == 112;
  }

  lemma FourZeroGroups(p: seq<byte>)
    requires |p| >= 4 && forall k | 0 <= k < 4 :: p[k] == 128
    ensures Val(p) == 0x1000_0000 * Val(p[4..])
  {
    assert p[1..][1..] == p[2..] && p[2..][1..] == p[3..] && p[3..][1..] == p[4..];
    assert Val(p[3..]) == 128 * Val(p[4..]);
    assert Val(p[2..]) == 128 * Val(p[3..]);
    assert Val(p[1..]) == 128 * Val(p[2..]);
  }

  // ---------------------------------------------------------------- tags and lengths

  lemma DecTagExact(s: seq<byte>, tag: nat, wt: nat, rest: seq<byte>)
    ensures DecTag(s) == Got((tag, wt), rest) <==> wt < 8 && 8 * tag + wt < TWO32 && Dec32(s) == Got(8 * tag + wt, rest)
  {
  }

  /** A length and exactly that many bytes; a shorter window is refused. */
  lemma DecLenExact(s: seq<byte>, p: seq<byte>, rest: seq<byte>)
    ensures DecLen(s) == Got(p, rest) <==> |p| < TWO32 && Dec32(s) == Got(|p|, p + rest)
  {
    if |p| < TWO32 && Dec32(s) == Got(|p|, p + rest) {
      Slices(p, rest);
    }
    if DecLen(s) == Got(p, rest) {
      var r := Dec32(s).rest;
      assert r == r[..|p|] + r[|p|..];
    }
  }

  // ---------------------------------------------------------------- whole fields

  /** The body of a field, after its tag: what each wire type stands for. */
  predicate IsBody(wt: nat, body: seq<byte>) {
    if wt == 0 then IsVarint(body)
    else if wt == 1 then |body| == 8
    else if wt == 2 then Dec32(body).Got? && Dec32(body).value == |Dec32(body).rest|
    else if wt == 5 then |body| == 4
    else false
  }

  /** Skipping passes over exactly one body, and refuses wire types 3, 4, 6 and 7. */
  lemma SkipExact(wt: nat, s: seq<byte>, rest: seq<byte>)
    ensures Skip(wt, s) == Got((), rest) <==> exists body :: IsBody(wt, body) && s == body + rest
  {
    if Skip(wt, s) == Got((), rest) {
      Skipped(wt, s, rest);
    }
    forall body | IsBody(wt, body) && s == body + rest
      ensures Skip(wt, s) == Got((), rest)
    {
      SkipBody(wt, body, rest);
    }
  }

  lemma SkipBody(wt: nat, body: seq<byte>, rest: seq<byte>)
    requires IsBody(wt, body)
    ensures Skip(wt, body + rest) == Got((), rest)
  {
    Slices(body, rest);
    if wt == 0 {
      FrontLen(body, rest);
    } else if wt == 2 {
      Dec32Append(body, rest);
      Slices(Dec32(body).rest, rest);
    }
  }

  lemma Skipped(wt: nat, s: seq<byte>, rest: seq<byte>)
    requires Skip(wt, s) == Got((), rest)
    ensures |rest| < |s| && s == s[..|s| - |rest|] + rest && IsBody(wt, s[..|s| - |rest|])
  {
    if wt == 0 {
      LenExact(s, |s| - |rest|);
    } else if wt == 2 {
      SkippedString(s, DecLen(s).value, rest);
    }
  }

  lemma SkippedString(s: seq<byte>, p: seq<byte>, rest: seq<byte>)
    requires DecLen(s) == Got(p, rest)
    ensures |rest| < |s| && s == s[..|s| - |rest|] + rest && IsBody(2, s[..|s| - |rest|])
  {
    hide Dec32;
    DecLenExact(s, p, rest);
    LengthOfFront(s);
    var h := s[..|s| - |p + rest|];
    Slices(h + p, rest);
    assert s == h + (p + rest) == (h + p) + rest;
    Dec32Append(h, p);
    assert [] + p == p;
  }

  /** The 32-bit reader looks at nothing behind what it consumes. */
  lemma LengthOfFront(s: seq<byte>)
    requires Dec32(s).Got?
    ensures var k := |s| - |Dec32(s).rest|;
            && k >= 0 && s == s[..k] + Dec32(s).rest
            && Dec32(s[..k]) == Got(Dec32(s).value, [])
  {
    var n := VarintLen(s).value;
    LenExact(s, n);
    assert s[..n][..n] == s[..n];
    LenExact(s[..n], n);
    var m := if n < 5 then n else 5;
    assert s[..n][..m] == s[..m] && s[..n][n..] == [];
    assert forall k | 0 <= k < n :: s[..n][k] == s[k];
  }

  /** A callback is handed exactly the bytes of the scalar, if they are at most ten. */
  lemma RawExact(wt: nat, s: seq<byte>, v: seq<byte>, rest: seq<byte>)
    ensures Raw(wt, s) == Got(v, rest) <==> wt != 2 && IsBody(wt, v) && |v| <= 10 && s == v + rest
  {
    if wt == 0 {
      if Raw(wt, s) == Got(v, rest) {
        LenExact(s, |v|);
      }
      if IsVarint(v) && s == v + rest {
        FrontLen(v, rest);
        Slices(v, rest);
      }
    } else if s == v + rest {
      Slices(v, rest);
    }
  }

  // ---------------------------------------------------------------- fixed and signed numbers

  /** Later bytes weigh more. */
  lemma {:induction false} LowestFirst(p: seq<byte>, q: seq<byte>)
    ensures FromLittleEndian(p + q) == FromLittleEndian(p) + Pow256(|p|) * FromLittleEndian(q)
  {
    if p == [] {
      assert p + q == q;
    } else {
      LowestFirst(p[1..], q);
      assert (p + q)[1..] == p[1..] + q;
      Spread(p[0], FromLittleEndian(p[1..]), Pow256(|p| - 1), FromLittleEndian(q));
    }
  }

  lemma Spread(c: nat, v: nat, x: nat, y: nat)
    ensures c + 256 * (v + x * y) == c + 256 * v + (256 * x) * y
  {
  }

  lemma OneByte(b: byte)
    ensures FromLittleEndian([b]) == b && (b < 128 ==> Val([b]) == b)
  {
    assert [b][1..] == [];
  }

  /** Zigzag: negative numbers on the odd ones, small numbers on small ones. */
  lemma ZigZagIs(n: int64)
    ensures ZigZag(n) % 2 == 1 <==> n < 0
    ensures n >= 0 ==> ZigZag(n) <= 2 * n
    ensures n < 0 ==> ZigZag(n) < 2 * -(n as int)
  {
  }
}
