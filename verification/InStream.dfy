/**
 The input stream and the readers below the level of fields. Each reader is proved to compute a
 function of the window it is given: it depends on no byte outside, and consumes from the front.
 Substreams are windows within windows.
 */
module InStream {
  import opened Prelude
  import opened Wire

  /**
   What a reader made of a window: `r` describes success, the value and the bytes left over, or
   failure. After a failure nothing is promised about what is left.
   */
  ghost predicate Outcome<T>(ok: bool, v: T, left: seq<byte>, r: Parsed<T>) {
    if ok then r == Got(v, left) else r == Fail
  }

  /** A window of `bytesLeft` bytes at position `state`. */
  class IStream {
    const data: seq<byte>
    var state: nat
    var bytesLeft: nat

    ghost predicate Valid()
      reads this
    {
      state + bytesLeft <= |data|
    }

    ghost function Window(): seq<byte>
      requires Valid()
      reads this
    {
      data[state..state + bytesLeft]
    }

    /** Where the window ends; this stays put while the window is read. */
    ghost function End(): nat
      reads this
    {
      state + bytesLeft
    }

    constructor FromBuffer(buf: seq<byte>, msglen: nat)
      requires msglen == |buf|
      ensures Valid() && data == buf && state == 0 && Window() == buf
    {
      data := buf;
      state := 0;
      bytesLeft := msglen;
      new;
      assert data[0..|buf|] == buf;
    }

    /** The stream that `other` is, as a copy. */
    constructor Copy(other: IStream)
      requires other.Valid()
      ensures Valid() && data == other.data && state == other.state && bytesLeft == other.bytesLeft
    {
      data := other.data;
      state := other.state;
      bytesLeft := other.bytesLeft;
    }

    method ReadByte() returns (ok: bool, b: byte)
      requires Valid()
      modifies this
      ensures Valid() && End() == old(End())
      ensures ok <==> old(bytesLeft) > 0
      ensures ok ==> b == old(Window())[0] && Window() == old(Window())[1..]
      ensures !ok ==> state == old(state) && bytesLeft == old(bytesLeft)
    {
      b := 0;
      if bytesLeft == 0 {
        return false, b;
      }
      b := data[state];
      state := state + 1;
      bytesLeft := bytesLeft - 1;
      ok := true;
    }

    method Read(count: nat) returns (ok: bool, bytes: seq<byte>)
      requires Valid()
      modifies this
      ensures Valid() && End() == old(End())
      ensures Outcome(ok, bytes, Window(), Take(count, old(Window())))
    {
      bytes := [];
      ghost var w := Window();
      if count == 0 {
        assert w[..0] == [] && w[0..] == w;
        return true, bytes;
      }
      if bytesLeft < count {
        return false, bytes;
      }
      var source := state;
      state := state + count;
      var i := 0;
      while i < count
        invariant i <= count && bytes == w[..i]
      {
        bytes := bytes + [data[source + i]];
        i := i + 1;
      }
      bytesLeft := bytesLeft - count;
      ok := true;
    }
  }

  // ---------------------------------------------------------------- varints

  /** `n` bytes that all carry bit 7 have been read from `w`. */
  ghost predicate Continues(w: seq<byte>, n: nat) {
    n <= |w| && forall k | 0 <= k < n :: w[k] >= 128
  }

  lemma LongerVarint(w: seq<byte>, n: nat)
    requires Continues(w, n) && VarintLen(w).Some?
    ensures VarintLen(w).value > n
  {
    VarintLenBits(w);
  }

  lemma NextGroup(w: seq<byte>, n: nat)
    requires n < |w|
    ensures Val(w[..n + 1]) == Val(w[..n]) + w[n] % 128 * Pow128(n)
  {
    assert w[..n + 1] == w[..n] + [w[n]];
    ValSnoc(w[..n], w[n]);
  }

  /** `1 << bitpos` for the groups of a 32-bit value. */
  function GroupWeight(n: nat): nat
    requires n < 5
  {
    match n
    case 0 => 1
    case 1 => 128
    case 2 => 0x4000
    case 3 => 0x20_0000
    case 4 => 0x1000_0000
  }

  lemma LowGroupOf32(w: seq<byte>, n: nat, result: uint32)
    requires n < 5 && n < |w| && result == Low32(w, n)
    ensures (result + w[n] % 128 * GroupWeight(n)) % TWO32 == Low32(w, n + 1)
  {
    NextGroup(w, n);
    WeightIsPower(n);
    hide Val, Pow128, GroupWeight;
    AddModulo(Val(w[..n]), w[n] % 128 * GroupWeight(n));
  }

  lemma WeightIsPower(n: nat)
    requires n < 5
    ensures Pow128(n) == GroupWeight(n)
  {
    Powers();
    assert Pow128(0) == 1;
  }

  lemma AddModulo(x: nat, y: nat)
    ensures (x % TWO32 + y) % TWO32 == (x + y) % TWO32
  {
    var q := x / TWO32;
    assert x + y == (x % TWO32 + y) + TWO32 * q;
    MultipleVanishes(x % TWO32 + y, q);
  }

  /** A bad byte beyond the fifth group makes the whole varint unreadable in 32 bits. */
  lemma BadExtension(w: seq<byte>, n: nat, low: uint32)
    requires 5 <= n < |w| && Continues(w, n) && low == Low32(w, n)
    requires n >= 10 || !(w[n] % 128 == 0 || (low >= TWO31 && w[n] == if n < 9 then 255 else 1))
    ensures Dec32(w) == Fail
  {
    if VarintLen(w).Some? {
      LongerVarint(w, n);
    }
  }

  /**
   One more byte into the value read so far: below bit 32 its group is shifted in, above it must
   be zero or extend the sign.
   */
  method AddGroup(b: byte, bitpos: nat, result: uint32, ghost w: seq<byte>, ghost n: nat) returns (ok: bool, r: uint32)
    requires 1 <= n < |w| && n <= 10 && bitpos == 7 * n && b == w[n]
    requires Continues(w, n) && result == Low32(w, n) && Extends(w, n, result)
    ensures if ok then n < 10 && r == Low32(w, n + 1) && Extends(w, n + 1, r) else Dec32(w) == Fail
  {
    hide Low32, Dec32;
    r := result;
    if bitpos >= 32 {
      var signExtension := if bitpos < 63 then 255 else 1;
      var validExtension := b % 128 == 0 || (result >= TWO31 && b == signExtension);
      if bitpos >= 64 || !validExtension {
        BadExtension(w, n, result);
        return false, r;
      }
      SameLow(w, n, result);
    } else {
      LowGroupOf32(w, n, result);
      r := (result + b % 128 * GroupWeight(bitpos / 7)) % TWO32;
    }
    ok := true;
  }

  /**
   The 32-bit reader. `bitpos` counts seven bits a byte; from bit 35 on only zero groups or the
   sign extension of a negative value are let through.
   */
  method DecodeVarint32Eof(s: IStream) returns (ok: bool, dest: uint32, eof: bool)
    requires s.Valid()
    modifies s
    ensures s.Valid() && (ok ==> s.End() == old(s.End()))
    ensures Outcome(ok, dest, s.Window(), Dec32(old(s.Window())))
    ensures eof <==> old(s.bytesLeft) == 0
  {
    hide Val, Dec32, Dec64, VarintLen, Low32, GroupWeight, Pow128;
    ghost var w := s.Window();
    dest, eof := 0, false;
    var b: byte;
    ok, b := s.ReadByte();
    if !ok {
      NoVarint(w);
      if s.bytesLeft == 0 {
        eof := true;
      }
      return;
    }
    if b < 128 {
      dest := b;
      ShortVarint(w);
      return;
    }
    var bitpos := 7;
    dest := b % 128;
    ghost var n := 1;
    FirstGroup(w);
    hide Extends;
    while true
      invariant n >= 1 && bitpos == 7 * n && Continues(w, n) && s.Valid()
      invariant s.Window() == w[n..] && s.End() == old(s.End())
      invariant dest == Low32(w, n) && n <= 10 && Extends(w, n, dest)
      decreases |w| - n
    {
      ok, b := s.ReadByte();
      if !ok {
        NoVarint(w);
        return;
      }
      ok, dest := AddGroup(b, bitpos, dest, w, n);
      if !ok {
        return;
      }
      bitpos := bitpos + 7;
      n := n + 1;
      if b < 128 {
        break;
      }
    }
    VarintLenIs(w, n);
    if bitpos == 35 && b >= 16 {
      TooWide(w);
      return false, dest, false;
    }
    Accepted(w, n, dest);
    ok := true;
  }

  lemma NoVarint(w: seq<byte>)
    requires Continues(w, |w|)
    ensures Dec32(w) == Fail && Dec64(w) == Fail
  {
    VarintLenNone(w);
  }

  lemma ShortVarint(w: seq<byte>)
    requires w != [] && w[0] < 128
    ensures Dec32(w) == Got(w[0], w[1..])
  {
    assert w[..1][1..] == [];
    assert Val(w[..1]) == w[0];
  }

  lemma FirstGroup(w: seq<byte>)
    requires w != []
    ensures Low32(w, 1) == w[0] % 128 && Extends(w, 1, w[0] % 128)
  {
    assert w[..1][1..] == [];
    assert Val(w[..1]) == w[0] % 128;
  }

  /** The bytes from the sixth on are ones that the 32-bit reader lets through. */
  ghost predicate Extends(w: seq<byte>, n: nat, low: uint32) {
    n <= |w| && forall k | 5 <= k < n :: w[k] % 128 == 0 || (low >= TWO31 && w[k] == if k < 9 then 255 else 1)
  }

  lemma SameLow(w: seq<byte>, n: nat, low: uint32)
    requires 5 <= n < |w| && Extends(w, n, low)
    requires w[n] % 128 == 0 || (low >= TWO31 && w[n] == if n < 9 then 255 else 1)
    ensures Low32(w, n + 1) == Low32(w, n) && Extends(w, n + 1, low)
  {
  }

  lemma TooWide(w: seq<byte>)
    requires VarintLen(w) == Some(5) && w[4] >= 16
    ensures Dec32(w) == Fail
  {
  }

  lemma Accepted(w: seq<byte>, n: nat, low: uint32)
    requires VarintLen(w) == Some(n) && n <= 10 && low == Low32(w, n)
    requires n == 5 ==> w[4] < 16
    requires Extends(w, n, low)
    ensures Dec32(w) == Got(low, w[n..])
  {
  }

  method DecodeVarint32(s: IStream) returns (ok: bool, dest: uint32)
    requires s.Valid()
    modifies s
    ensures s.Valid() && (ok ==> s.End() == old(s.End()))
    ensures Outcome(ok, dest, s.Window(), Dec32(old(s.Window())))
  {
    var eof;
    ok, dest, eof := DecodeVarint32Eof(s);
  }

  lemma GroupOf64(w: seq<byte>, n: nat, result: uint64)
    requires n < 10 && n < |w| && result == Val(w[..n]) % TWO64
    ensures (result + w[n] % 128 * Pow128(n)) % TWO64 == Val(w[..n + 1]) % TWO64
  {
    NextGroup(w, n);
    hide Val, Pow128;
    var x, y := Val(w[..n]), w[n] % 128 * Pow128(n);
    var q := x / TWO64;
    assert x + y == (x % TWO64 + y) + TWO64 * q;
    Vanishes64(x % TWO64 + y, q);
  }

  lemma Vanishes64(x: nat, k: nat)
    ensures (x + TWO64 * k) % TWO64 == x % TWO64
  {
  }

  lemma NoGroups()
    ensures Val([]) == 0
  {
  }

  lemma TooLong(w: seq<byte>)
    requires Continues(w, 10)
    ensures Dec64(w) == Fail
  {
    if VarintLen(w).Some? {
      LongerVarint(w, 10);
    }
  }

  /** The 64-bit reader; `1 << bitpos` is a power of 128, and bits above the 64th fall off. */
  method DecodeVarint(s: IStream) returns (ok: bool, dest: uint64)
    requires s.Valid()
    modifies s
    ensures s.Valid() && (ok ==> s.End() == old(s.End()))
    ensures Outcome(ok, dest, s.Window(), Dec64(old(s.Window())))
  {
    NoGroups();
    hide Val, Dec32, Dec64, VarintLen, Pow128;
    ghost var w := s.Window();
    var bitpos := 0;
    dest := 0;
    ghost var n := 0;
    assert w[0..] == w && w[..0] == [];
    while true
      invariant bitpos == 7 * n && Continues(w, n) && s.Valid() && n <= 10
      invariant s.Window() == w[n..] && s.End() == old(s.End())
      invariant dest == Val(w[..n]) % TWO64
      decreases |w| - n
    {
      if bitpos >= 64 {
        TooLong(w);
        return false, dest;
      }
      var b;
      ok, b := s.ReadByte();
      if !ok {
        NoVarint(w);
        return;
      }
      GroupOf64(w, n, dest);
      dest := (dest + b % 128 * Pow128(bitpos / 7)) % TWO64;
      bitpos := bitpos + 7;
      n := n + 1;
      if b < 128 {
        break;
      }
    }
    VarintLenIs(w, n);
    Read64(w, n);
    ok := true;
  }

  lemma Read64(w: seq<byte>, n: nat)
    requires VarintLen(w) == Some(n) && n <= 10
    ensures Dec64(w) == Got(Val(w[..n]) % TWO64, w[n..])
  {
  }

  method DecodeSVarint(s: IStream) returns (ok: bool, dest: int64)
    requires s.Valid()
    modifies s
    ensures s.Valid() && (ok ==> s.End() == old(s.End()))
    ensures var r := Dec64(old(s.Window()));
            if ok then r.Got? && dest == UnZigZag(r.value) && s.Window() == r.rest else r == Fail
  {
    var value;
    ok, value := DecodeVarint(s);
    var half: int := value / 2;
    dest := if value % 2 == 1 then -half - 1 else half;
  }

  method DecodeTag(s: IStream) returns (ok: bool, wt: nat, tag: nat, eof: bool)
    requires s.Valid()
    modifies s
    ensures s.Valid() && (ok ==> s.End() == old(s.End()))
    ensures Outcome(ok, (tag, wt), s.Window(), DecTag(old(s.Window())))
    ensures eof <==> old(s.bytesLeft) == 0
    ensures tag < 0x2000_0000 && wt < 8
  {
    hide Dec32;
    wt, tag := 0, 0;
    var temp;
    ok, temp, eof := DecodeVarint32Eof(s);
    if ok {
      tag, wt := temp / 8, temp % 8;
    }
  }

  // ---------------------------------------------------------------- skipping

  method SkipVarint(s: IStream) returns (ok: bool)
    requires s.Valid()
    modifies s
    ensures s.Valid() && (ok ==> s.End() == old(s.End()))
    ensures Outcome(ok, (), s.Window(), Skip(WT_VARINT, old(s.Window())))
  {
    hide VarintLen;
    ghost var w := s.Window();
    ghost var n := 0;
    assert w[0..] == w;
    while true
      invariant Continues(w, n) && s.Valid() && s.Window() == w[n..] && s.End() == old(s.End())
      decreases |w| - n
    {
      var bytes;
      ok, bytes := s.Read(1);
      if !ok {
        VarintLenNone(w);
        return;
      }
      n := n + 1;
      if bytes[0] < 128 {
        break;
      }
    }
    VarintLenIs(w, n);
  }

  method SkipString(s: IStream) returns (ok: bool)
    requires s.Valid()
    modifies s
    ensures s.Valid() && (ok ==> s.End() == old(s.End()))
    ensures Outcome(ok, (), s.Window(), Skip(WT_STRING, old(s.Window())))
  {
    hide Dec32;
    var length;
    ok, length := DecodeVarint32(s);
    if !ok {
      return;
    }
    var bytes;
    ok, bytes := s.Read(length);
  }

  method SkipField(s: IStream, wt: nat) returns (ok: bool)
    requires s.Valid()
    modifies s
    ensures s.Valid() && (ok ==> s.End() == old(s.End()))
    ensures Outcome(ok, (), s.Window(), Skip(wt, old(s.Window())))
  {
    hide VarintLen, DecLen;
    var bytes;
    if wt == WT_VARINT {
      ok := SkipVarint(s);
    } else if wt == WT_64BIT {
      ok, bytes := s.Read(8);
    } else if wt == WT_STRING {
      ok := SkipString(s);
    } else if wt == WT_32BIT {
      ok, bytes := s.Read(4);
    } else {
      ok := false;
    }
  }

  /** The bytes of one scalar; a varint of more than ten bytes does not fit the buffer. */
  method ReadRawValue(s: IStream, wt: nat) returns (ok: bool, buffer: seq<byte>)
    requires s.Valid()
    modifies s
    ensures s.Valid() && (ok ==> s.End() == old(s.End()))
    ensures Outcome(ok, buffer, s.Window(), Raw(wt, old(s.Window())))
  {
    hide VarintLen;
    buffer := [];
    if wt == WT_VARINT {
      ok, buffer := ReadRawVarint(s);
    } else if wt == WT_64BIT {
      ok, buffer := s.Read(8);
    } else if wt == WT_32BIT {
      ok, buffer := s.Read(4);
    } else {
      ok := false;
    }
  }

  method ReadRawVarint(s: IStream) returns (ok: bool, buffer: seq<byte>)
    requires s.Valid()
    modifies s
    ensures s.Valid() && (ok ==> s.End() == old(s.End()))
    ensures Outcome(ok, buffer, s.Window(), Raw(WT_VARINT, old(s.Window())))
  {
    hide VarintLen;
    ghost var w := s.Window();
    buffer := [];
    var size := 0;
    assert w[0..] == w;
    while true
      invariant size <= 10 && Continues(w, size) && s.Valid()
      invariant s.Window() == w[size..] && s.End() == old(s.End()) && buffer == w[..size]
      decreases |w| - size
    {
      if size + 1 > 10 {
        RawTooLong(w);
        return false, buffer;
      }
      var bytes;
      ok, bytes := s.Read(1);
      if !ok {
        VarintLenNone(w);
        return;
      }
      size := size + 1;
      buffer := buffer + bytes;
      assert buffer == w[..size] && s.Window() == w[size..];
      if bytes[0] < 128 {
        break;
      }
    }
    VarintLenIs(w, size);
  }

  lemma RawTooLong(w: seq<byte>)
    requires Continues(w, 10)
    ensures Raw(WT_VARINT, w) == Fail
  {
    if VarintLen(w).Some? {
      LongerVarint(w, 10);
    }
  }

  // ---------------------------------------------------------------- substreams

  /**
   A substream over the next `size` bytes. The parent's count drops at once, its position only
   when the substream is closed.
   */
  method MakeStringSubstream(s: IStream) returns (ok: bool, substream: IStream)
    requires s.Valid()
    modifies s
    ensures s.Valid() && fresh(substream) && substream.Valid() && substream.data == s.data
    ensures var r := DecLen(old(s.Window()));
      if ok then
        && r.Got? && r.value == substream.Window()
        && substream.End() + s.bytesLeft == old(s.End())
        && s.data[substream.End()..old(s.End())] == r.rest
      else r == Fail
  {
    hide Dec32;
    var size;
    ok, size := DecodeVarint32(s);
    substream := new IStream.Copy(s);
    if !ok {
      return;
    }
    if substream.bytesLeft < size {
      return false, substream;
    }
    ghost var rest := s.Window();
    substream.bytesLeft := size;
    s.bytesLeft := s.bytesLeft - size;
    assert rest[..size] == substream.Window();
    assert rest[size..] == s.data[substream.End()..old(s.End())];
  }

  /** Whatever the substream has left is skipped, and the parent goes on behind it. */
  method CloseStringSubstream(s: IStream, substream: IStream) returns (ok: bool)
    requires s != substream && substream.Valid() && substream.data == s.data
    requires substream.End() + s.bytesLeft <= |s.data|
    modifies s, substream
    ensures ok && s.Valid() && s.state == old(substream.End()) && s.bytesLeft == old(s.bytesLeft)
  {
    if substream.bytesLeft > 0 {
      var bytes;
      ok, bytes := substream.Read(substream.bytesLeft);
      assert ok;
    }
    s.state := substream.state;
    ok := true;
  }
}
