/** The wire format below messages, each part as a printer and a parser of bytes. */
module Wire {
  import opened Prelude

  const TWO31 := 0x8000_0000
  const TWO32 := 0x1_0000_0000
  const TWO63 := 0x8000_0000_0000_0000
  const TWO64 := 0x1_0000_0000_0000_0000

  const WT_VARINT := 0
  const WT_64BIT := 1
  const WT_STRING := 2
  const WT_32BIT := 5

  // ---------------------------------------------------------------- varints

  /** The base-128 form: seven bits a byte, lowest first, bit 7 on all but the last byte. */
  function Varint(v: nat): (s: seq<byte>)
    ensures |s| > 0
  {
    if v < 128 then [v] else [128 + v % 128] + Varint(v / 128)
  }

  function Pow128(k: nat): (p: nat)
    ensures p > 0
  {
    if k == 0 then 1 else 128 * Pow128(k - 1)
  }

  /** The number spelled by the low seven bits of each byte. */
  function Val(p: seq<byte>): nat {
    if p == [] then 0 else p[0] % 128 + 128 * Val(p[1..])
  }

  /** Length of the varint at the front of `s`, up to and including the byte without bit 7. */
  function VarintLen(s: seq<byte>): (n: Option<nat>)
    ensures n.Some? ==> 0 < n.value <= |s|
  {
    if s == [] then None
    else if s[0] < 128 then Some(1)
    else
      var n :- VarintLen(s[1..]);
      Some(n + 1)
  }

  /** 64-bit reading: at most ten bytes, bits beyond the 64th dropped. */
  function Dec64(s: seq<byte>): (r: Parsed<uint64>)
    ensures r.Got? ==> |r.rest| < |s|
  {
    match VarintLen(s)
    case None => Fail
    case Some(n) => if n > 10 then Fail else Got(Val(s[..n]) % TWO64, s[n..])
  }

  /** Bytes beyond the fifth must be zero groups, or extend the sign of a negative 32-bit value. */
  predicate SignExtension(s: seq<byte>, n: nat, low: uint32)
    requires n <= |s|
  {
    forall k | 5 <= k < n ::
      s[k] % 128 == 0 || (low >= TWO31 && s[k] == if k < 9 then 255 else 1)
  }

  /** 32-bit reading. */
  function Dec32(s: seq<byte>): (r: Parsed<uint32>)
    ensures r.Got? ==> |r.rest| < |s|
  {
    match VarintLen(s)
    case None => Fail
    case Some(n) =>
      if n <= 4 then Got(Low32(s, n), s[n..])
      else if n == 5 then if s[4] < 16 then Got(Low32(s, n), s[n..]) else Fail
      else if n <= 10 && SignExtension(s, n, Low32(s, n)) then Got(Low32(s, n), s[n..])
      else Fail
  }

  function Low32(s: seq<byte>, n: nat): uint32
    requires n <= |s|
  {
    Val(s[..if n < 5 then n else 5]) % TWO32
  }

  lemma {:induction false} ValBound(p: seq<byte>)
    ensures Val(p) < Pow128(|p|)
  {
    if p != [] {
      ValBound(p[1..]);
    }
  }

  lemma {:induction false} ValSnoc(p: seq<byte>, b: byte)
    ensures Val(p + [b]) == Val(p) + Pow128(|p|) * (b % 128)
  {
    if p == [] {
      assert [b][1..] == [];
    } else {
      ValSnoc(p[1..], b);
      assert (p + [b])[1..] == p[1..] + [b];
    }
  }

  lemma {:induction false} ValConcat(p: seq<byte>, q: seq<byte>)
    ensures Val(p + q) == Val(p) + Pow128(|p|) * Val(q)
  {
    if p == [] {
      assert p + q == q;
    } else {
      ValConcat(p[1..], q);
      assert (p + q)[1..] == p[1..] + q;
      assert (p + q)[0] == p[0];
      Distribute(p[0] % 128, Val(p[1..]), Pow128(|p| - 1), Val(q));
    }
  }

  lemma Distribute(c: nat, v: nat, x: nat, y: nat)
    ensures c + 128 * (v + x * y) == c + 128 * v + (128 * x) * y
  {
  }

  lemma {:induction false} VarintLenAppend(s: seq<byte>, q: seq<byte>)
    requires VarintLen(s).Some?
    ensures VarintLen(s + q) == VarintLen(s)
  {
    if s[0] >= 128 {
      VarintLenAppend(s[1..], q);
      assert (s + q)[1..] == s[1..] + q;
    }
  }

  /** Every byte before the last of a varint carries bit 7, the last does not. */
  lemma {:induction false} VarintLenBits(s: seq<byte>)
    requires VarintLen(s).Some?
    ensures var n := VarintLen(s).value; s[n - 1] < 128 && forall k | 0 <= k < n - 1 :: s[k] >= 128
  {
    if s[0] >= 128 {
      VarintLenBits(s[1..]);
      var n := VarintLen(s).value;
      forall k | 0 <= k < n - 1 ensures s[k] >= 128 {
        if k > 0 {
          assert s[k] == s[1..][k - 1];
        }
      }
    }
  }

  lemma {:induction false} VarintLenIs(s: seq<byte>, n: nat)
    requires 0 < n <= |s| && s[n - 1] < 128
    requires forall k | 0 <= k < n - 1 :: s[k] >= 128
    ensures VarintLen(s) == Some(n)
  {
    if n > 1 {
      VarintLenIs(s[1..], n - 1);
    }
  }

  /** Without a final byte in reach there is no varint. */
  lemma {:induction false} VarintLenNone(s: seq<byte>)
    requires forall k | 0 <= k < |s| :: s[k] >= 128
    ensures VarintLen(s) == None
  {
    if s != [] {
      VarintLenNone(s[1..]);
    }
  }

  /** A varint reads back as itself, whatever follows. */
  lemma VarintParses(v: nat, rest: seq<byte>)
    ensures VarintLen(Varint(v) + rest) == Some(|Varint(v)|)
    ensures Val(Varint(v)) == v
  {
    VarintEnds(v, rest);
    VarintValue(v);
  }

  lemma {:induction false} VarintEnds(v: nat, rest: seq<byte>)
    ensures VarintLen(Varint(v) + rest) == Some(|Varint(v)|)
  {
    if v >= 128 {
      VarintEnds(v / 128, rest);
      assert (Varint(v) + rest)[1..] == Varint(v / 128) + rest;
    }
  }

  lemma {:induction false} VarintValue(v: nat)
    ensures Val(Varint(v)) == v
  {
    if v < 128 {
      assert [v][1..] == [];
    } else {
      VarintValue(v / 128);
      assert Varint(v)[1..] == Varint(v / 128);
      LowGroup(v);
    }
  }

  lemma LowGroup(v: nat)
    ensures (128 + v % 128) % 128 == v % 128
    ensures v % 128 + 128 * (v / 128) == v
  {
  }

  lemma {:induction false} VarintLength(v: nat, k: nat)
    requires k > 0
    ensures |Varint(v)| <= k <==> v < Pow128(k)
  {
    if v >= 128 {
      if k == 1 {
        assert Pow128(1) == 128;
      } else {
        VarintLength(v / 128, k - 1);
      }
    }
  }

  lemma Powers()
    ensures Pow128(1) == 128 && Pow128(2) == 0x4000 && Pow128(3) == 0x20_0000
    ensures Pow128(4) == 0x1000_0000 && Pow128(5) == 0x8_0000_0000
    ensures Pow128(9) == TWO63 && Pow128(10) == 128 * TWO63
  {
    assert Pow128(0) == 1;
    assert Pow128(2) == 128 * Pow128(1);
    assert Pow128(3) == 128 * Pow128(2);
    assert Pow128(4) == 128 * Pow128(3);
    assert Pow128(5) == 128 * Pow128(4);
    assert Pow128(6) == 128 * Pow128(5);
    assert Pow128(7) == 128 * Pow128(6);
    assert Pow128(8) == 128 * Pow128(7);
    assert Pow128(9) == 128 * Pow128(8);
    assert Pow128(10) == 128 * Pow128(9);
  }

  /** No other spelling of the same number is shorter. */
  lemma VarintMinimal(p: seq<byte>)
    requires p != []
    ensures |Varint(Val(p))| <= |p|
  {
    ValBound(p);
    VarintLength(Val(p), |p|);
  }

  lemma FiveBytes(v: uint32)
    ensures |Varint(v)| <= 5
  {
    Powers();
    VarintLength(v, 5);
  }

  lemma TenBytes(v: uint64)
    ensures |Varint(v)| <= 10
  {
    Powers();
    VarintLength(v, 10);
  }

  /** The 64-bit reader inverts the printer on all of uint64, within ten bytes. */
  lemma Varint64RoundTrip(v: uint64, rest: seq<byte>)
    ensures |Varint(v)| <= 10
    ensures Dec64(Varint(v) + rest) == Got(v, rest)
  {
    TenBytes(v);
    VarintParses(v, rest);
    Slices(Varint(v), rest);
  }

  lemma Slices(p: seq<byte>, q: seq<byte>)
    ensures (p + q)[..|p|] == p && (p + q)[|p|..] == q
  {
  }

  lemma Low32OfVarint(v: uint32, rest: seq<byte>)
    requires |Varint(v)| <= 5
    ensures Low32(Varint(v) + rest, |Varint(v)|) == v
  {
    Slices(Varint(v), rest);
    VarintValue(v);
    hide Varint, Val;
    assert v % TWO32 == v;
  }

  /** The 32-bit reader inverts the printer on all of uint32, within five bytes. */
  lemma Varint32RoundTrip(v: uint32, rest: seq<byte>)
    ensures |Varint(v)| <= 5
    ensures Dec32(Varint(v) + rest) == Got(v, rest)
  {
    FiveBytes(v);
    VarintEnds(v, rest);
    Slices(Varint(v), rest);
    Low32OfVarint(v, rest);
    hide Low32, Varint, VarintLen, SignExtension;
    if |Varint(v)| == 5 {
      FifthByte(v);
      assert (Varint(v) + rest)[4] == Varint(v)[4];
    }
  }

  lemma FifthByte(v: uint32)
    requires |Varint(v)| == 5
    ensures Varint(v)[4] < 16
  {
    var p := Varint(v);
    assert p == p[..4] + [p[4]];
    VarintValue(v);
    ValSnoc(p[..4], p[4]);
    VarintEnds(v, []);
    assert p + [] == p;
    VarintLenBits(p);
    assert Pow128(4) == 0x1000_0000 by {
      Powers();
    }
  }

  /** The first five bytes of a long varint, then the varint of what is left above bit 35. */
  lemma VarintTail(v: nat)
    requires v >= Pow128(5)
    ensures |Varint(v)| > 5 && Varint(v)[5..] == Varint(v / Pow128(5))
  {
    Powers();
    var v1 := v / 128;
    var v2 := v1 / 128;
    var v3 := v2 / 128;
    var v4 := v3 / 128;
    assert Varint(v)[1..] == Varint(v1);
    assert Varint(v1)[1..] == Varint(v2);
    assert Varint(v2)[1..] == Varint(v3);
    assert Varint(v3)[1..] == Varint(v4);
    assert Varint(v4)[1..] == Varint(v4 / 128);
    assert v4 / 128 == v / Pow128(5);
  }

  /** The top five bytes of a sign-extended negative 32-bit value. */
  lemma SignBytes(n: int)
    requires -TWO31 <= n < 0
    ensures |Varint(n + TWO64)| == 10
    ensures Varint(n + TWO64)[5..] == [255, 255, 255, 255, 1]
    ensures Val(Varint(n + TWO64)[..5]) % TWO32 == n + TWO32
  {
    Powers();
    var v: nat := n + TWO64;
    VarintTail(v);
    assert v / Pow128(5) == 0x1FFF_FFFF;
    var top := Varint(0x1FFF_FFFF);
    assert top == [255, 255, 255, 255, 1];
    var p := Varint(v);
    assert p == p[..5] + top;
    ValConcat(p[..5], top);
    VarintValue(0x1FFF_FFFF);
    VarintValue(v);
  }

  /** Negative int32 values, sign-extended to 64 bits on the wire, read back in 32 bits. */
  lemma SignExtendedRoundTrip(n: int, rest: seq<byte>)
    requires -TWO31 <= n < 0
    ensures Dec32(Varint(n + TWO64) + rest) == Got(n + TWO32, rest)
  {
    SignBytes(n);
    var p := Varint(n + TWO64);
    VarintEnds(n + TWO64, rest);
    Slices(p, rest);
    assert (p + rest)[..5] == p[..5];
    assert forall k | 5 <= k < 10 :: (p + rest)[k] == p[5..][k - 5];
  }

  /** Whatever the 32-bit reader accepts, the 64-bit reader accepts, over the same bytes and modulo 2^32. */
  lemma Readers32And64Agree(s: seq<byte>)
    requires Dec32(s).Got?
    ensures Dec64(s).Got? && Dec64(s).rest == Dec32(s).rest
    ensures Dec64(s).value % TWO32 == Dec32(s).value
  {
    var n := VarintLen(s).value;
    LowBits(Val(s[..n]));
    if n > 5 {
      Powers();
      ValConcat(s[..5], s[5..n]);
      assert s[..n] == s[..5] + s[5..n];
      MultipleVanishes(Val(s[..5]), 8 * Val(s[5..n]));
    }
  }

  lemma LowBits(x: nat)
    ensures x % TWO64 % TWO32 == x % TWO32
  {
    MultipleVanishes(x % TWO64, TWO32 * (x / TWO64));
  }

  lemma MultipleVanishes(x: nat, k: nat)
    ensures (x + TWO32 * k) % TWO32 == x % TWO32
  {
  }

  lemma Dec64Append(s: seq<byte>, q: seq<byte>)
    requires Dec64(s).Got?
    ensures Dec64(s + q) == Dec64(s).More(q)
  {
    VarintLenAppend(s, q);
    var n := VarintLen(s).value;
    assert (s + q)[..n] == s[..n] && (s + q)[n..] == s[n..] + q;
  }

  lemma Dec32Append(s: seq<byte>, q: seq<byte>)
    requires Dec32(s).Got?
    ensures Dec32(s + q) == Dec32(s).More(q)
  {
    VarintLenAppend(s, q);
    var n := VarintLen(s).value;
    var m := if n < 5 then n else 5;
    assert (s + q)[..m] == s[..m] && (s + q)[n..] == s[n..] + q;
  }

  // ---------------------------------------------------------------- tags and payloads

  function EncTag(tag: nat, wt: nat): (s: seq<byte>)
    ensures |s| > 0
  {
    Varint(8 * tag + wt)
  }

  /** Field number and wire type. */
  function DecTag(s: seq<byte>): (r: Parsed<(nat, nat)>)
    ensures r.Got? ==> |r.rest| < |s|
  {
    var (key, r) :- Dec32(s);
    Got((key / 8, key % 8), r)
  }

  function LenPrefixed(p: seq<byte>): (s: seq<byte>)
    ensures |s| > |p|
  {
    Varint(|p|) + p
  }

  /** A length and that many bytes. */
  function DecLen(s: seq<byte>): (r: Parsed<seq<byte>>)
    ensures r.Got? ==> |r.rest| + |r.value| < |s|
  {
    var (n, r) :- Dec32(s);
    if n <= |r| then Got(r[..n], r[n..]) else Fail
  }

  function Take(n: nat, s: seq<byte>): (r: Parsed<seq<byte>>)
    ensures r.Got? ==> |r.rest| == |s| - n && r.value + r.rest == s && |r.value| == n
  {
    if n <= |s| then Got(s[..n], s[n..]) else Fail
  }

  /** The bytes after a field that is skipped. */
  function Skip(wt: nat, s: seq<byte>): (r: Parsed<()>)
    ensures r.Got? ==> |r.rest| < |s|
  {
    if wt == WT_VARINT then
      match VarintLen(s)
      case None => Fail
      case Some(n) => Got((), s[n..])
    else if wt == WT_64BIT then
      var (_, r) :- Take(8, s);
      Got((), r)
    else if wt == WT_STRING then
      var (_, r) :- DecLen(s);
      Got((), r)
    else if wt == WT_32BIT then
      var (_, r) :- Take(4, s);
      Got((), r)
    else Fail
  }

  /** A scalar's raw bytes, as handed to a callback. A varint may be at most ten bytes here. */
  function Raw(wt: nat, s: seq<byte>): (r: Parsed<seq<byte>>)
    ensures r.Got? ==> |r.rest| + |r.value| == |s| && |r.value| > 0
  {
    if wt == WT_VARINT then
      match VarintLen(s)
      case None => Fail
      case Some(n) => if n > 10 then Fail else Got(s[..n], s[n..])
    else if wt == WT_64BIT then Take(8, s)
    else if wt == WT_32BIT then Take(4, s)
    else Fail
  }

  lemma TagRoundTrip(tag: nat, wt: nat, rest: seq<byte>)
    requires wt < 8 && 8 * tag + wt < TWO32
    ensures DecTag(EncTag(tag, wt) + rest) == Got((tag, wt), rest)
  {
    Varint32RoundTrip(8 * tag + wt, rest);
  }

  lemma LenRoundTrip(p: seq<byte>, rest: seq<byte>)
    requires |p| < TWO32
    ensures DecLen(LenPrefixed(p) + rest) == Got(p, rest)
  {
    Varint32RoundTrip(|p|, p + rest);
    assert LenPrefixed(p) + rest == Varint(|p|) + (p + rest);
    assert (p + rest)[..|p|] == p && (p + rest)[|p|..] == rest;
  }

  lemma DecTagAppend(s: seq<byte>, q: seq<byte>)
    requires DecTag(s).Got?
    ensures DecTag(s + q) == DecTag(s).More(q)
  {
    Dec32Append(s, q);
  }

  lemma DecLenAppend(s: seq<byte>, q: seq<byte>)
    requires DecLen(s).Got?
    ensures DecLen(s + q) == DecLen(s).More(q)
  {
    Dec32Append(s, q);
    var n, r := Dec32(s).value, Dec32(s).rest;
    assert (r + q)[..n] == r[..n] && (r + q)[n..] == r[n..] + q;
  }

  lemma TakeAppend(n: nat, s: seq<byte>, q: seq<byte>)
    requires Take(n, s).Got?
    ensures Take(n, s + q) == Take(n, s).More(q)
  {
    assert (s + q)[..n] == s[..n] && (s + q)[n..] == s[n..] + q;
  }

  lemma SkipAppend(wt: nat, s: seq<byte>, q: seq<byte>)
    requires Skip(wt, s).Got?
    ensures Skip(wt, s + q) == Skip(wt, s).More(q)
  {
    if wt == WT_VARINT {
      VarintLenAppend(s, q);
      var n := VarintLen(s).value;
      assert (s + q)[n..] == s[n..] + q;
    } else if wt == WT_STRING {
      DecLenAppend(s, q);
    } else {
      TakeAppend(if wt == WT_64BIT then 8 else 4, s, q);
    }
  }

  lemma RawAppend(wt: nat, s: seq<byte>, q: seq<byte>)
    requires Raw(wt, s).Got?
    ensures Raw(wt, s + q) == Raw(wt, s).More(q)
  {
    if wt == WT_VARINT {
      VarintLenAppend(s, q);
      var n := VarintLen(s).value;
      assert (s + q)[..n] == s[..n] && (s + q)[n..] == s[n..] + q;
    } else {
      TakeAppend(if wt == WT_64BIT then 8 else 4, s, q);
    }
  }

  // ---------------------------------------------------------------- scalars

  /** Two's complement: the unsigned image of `n` in `bits` values. */
  function Unsigned(n: int, size: nat): (u: nat)
    requires size > 0
    ensures u < size
  {
    n % size
  }

  /** Two's complement: the signed reading of `n` taken modulo `size`. */
  function Signed(n: int, size: nat): (i: int)
    requires size > 0
    ensures 0 <= 2 * i + size < 2 * size
  {
    var u := n % size;
    if 2 * u < size then u else u - size
  }

  function ZigZag(n: int64): uint64 {
    if n < 0 then -2 * n - 1 else 2 * n
  }

  function UnZigZag(v: uint64): int64 {
    if v % 2 == 1 then -(v / 2) - 1 else v / 2
  }

  lemma ZigZagRoundTrip(n: int64)
    ensures UnZigZag(ZigZag(n)) == n
  {
  }

  lemma UnZigZagRoundTrip(v: uint64)
    ensures ZigZag(UnZigZag(v)) == v
  {
  }

  /** Signed varints read back on all of int64. */
  lemma SVarintRoundTrip(n: int64, rest: seq<byte>)
    ensures Dec64(Varint(ZigZag(n)) + rest).Got?
    ensures UnZigZag(Dec64(Varint(ZigZag(n)) + rest).value) == n
    ensures Dec64(Varint(ZigZag(n)) + rest).rest == rest
  {
    Varint64RoundTrip(ZigZag(n), rest);
  }

  /** The `k` low bytes of `n`, lowest first. */
  function LittleEndian(k: nat, n: nat): (s: seq<byte>)
    ensures |s| == k
  {
    if k == 0 then [] else [n % 256] + LittleEndian(k - 1, n / 256)
  }

  function FromLittleEndian(s: seq<byte>): (n: nat) {
    if s == [] then 0 else s[0] + 256 * FromLittleEndian(s[1..])
  }

  function Pow256(k: nat): (p: nat)
    ensures p > 0
  {
    if k == 0 then 1 else 256 * Pow256(k - 1)
  }

  lemma {:induction false} LittleEndianRoundTrip(k: nat, n: nat)
    requires n < Pow256(k)
    ensures FromLittleEndian(LittleEndian(k, n)) == n
  {
    if k > 0 {
      LittleEndianRoundTrip(k - 1, n / 256);
      assert LittleEndian(k, n)[1..] == LittleEndian(k - 1, n / 256);
    }
  }

  lemma {:induction false} FromLittleEndianBound(s: seq<byte>)
    ensures FromLittleEndian(s) < Pow256(|s|)
  {
    if s != [] {
      FromLittleEndianBound(s[1..]);
    }
  }

  lemma Powers256()
    ensures Pow256(1) == 0x100 && Pow256(2) == 0x1_0000 && Pow256(4) == TWO32 && Pow256(8) == TWO64
  {
    assert Pow256(0) == 1;
    assert Pow256(2) == 256 * Pow256(1);
    assert Pow256(3) == 256 * Pow256(2);
    assert Pow256(4) == 256 * Pow256(3);
    assert Pow256(5) == 256 * Pow256(4);
    assert Pow256(6) == 256 * Pow256(5);
    assert Pow256(7) == 256 * Pow256(6);
    assert Pow256(8) == 256 * Pow256(7);
  }
}
