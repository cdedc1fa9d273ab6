/**
 The stream-driven encoder. Every method is proved to send exactly the bytes that `Codec` defines,
 and to succeed exactly when those bytes are defined and fit. A stream without a buffer only counts.
 */
module Encoder {
  import opened Prelude
  import opened Wire
  import opened Schema
  import opened Codec
  import opened Tables
  import opened FieldTable
  import opened FieldIter

  /** Where a stream may write; a sizing stream writes nowhere. */
  datatype Extent = Extent(sizing: bool, start: nat, max: nat)

  /** The buffer's contents, and how many bytes of the window are in use. */
  datatype Snapshot = Snapshot(cells: seq<byte>, written: nat)

  ghost predicate Sent(w: Extent, p: Snapshot, q: Snapshot, ok: bool, v: Option<seq<byte>>) {
    && (ok <==> v.Some? && (w.sizing || p.written + |v.value| <= w.max))
    && (ok ==> q.written == p.written + |v.value|)
    && (!w.sizing ==>
          && |q.cells| == |p.cells| >= w.start + w.max
          && p.written <= w.max && q.written <= w.max
          && q.cells[..w.start] == p.cells[..w.start]
          && q.cells[w.start + w.max..] == p.cells[w.start + w.max..]
          && (ok ==> q.cells[w.start..w.start + q.written] == p.cells[w.start..w.start + p.written] + v.value))
  }

  /** `done` and then what is still to come, if that can be encoded at all. */
  function Then(done: seq<byte>, rest: Option<seq<byte>>): Option<seq<byte>> {
    match rest
    case None => None
    case Some(t) => Some(done + t)
  }

  /** Appending in two steps is appending the concatenation. */
  lemma Assoc(x: seq<byte>, a: seq<byte>, b: seq<byte>)
    ensures x + a + b == x + (a + b)
  {
  }

  /** Sending one thing after another sends the concatenation, and fails as that fails. */
  lemma SentThen(w: Extent, p: Snapshot, q: Snapshot, r: Snapshot, a: seq<byte>, ok: bool, b: Option<seq<byte>>)
    requires Sent(w, p, q, true, Some(a)) && Sent(w, q, r, ok, b)
    ensures Sent(w, p, r, ok, Then(a, b))
  {
    if ok && !w.sizing {
      Assoc(p.cells[w.start..w.start + p.written], a, b.value);
    }
  }

  /** When a part cannot be sent, neither can the whole. */
  lemma SentNot(w: Extent, p: Snapshot, q: Snapshot, a: Option<seq<byte>>, rest: Option<seq<byte>>)
    requires Sent(w, p, q, false, a)
    ensures Sent(w, p, q, false, if a.None? then None else Then(a.value, rest))
  {
  }

  lemma SentUnmoved(w: Extent, p: Snapshot, v: Option<seq<byte>>)
    requires !w.sizing ==> w.start + w.max <= |p.cells| && p.written <= w.max
    requires v == None || v == Some([])
    ensures Sent(w, p, p, v.Some?, v)
  {
  }

  lemma SentSizing(w: Extent, p: Snapshot, q: Snapshot, v: seq<byte>)
    requires w.sizing && q.written == p.written + |v|
    ensures Sent(w, p, q, true, Some(v))
  {
  }

  /** An output stream: a window of a buffer, or no buffer at all, to count bytes only. */
  class OStream {
    const buf: array?<byte>
    const maxSize: nat
    var state: nat
    var bytesWritten: nat
    ghost const start: nat

    ghost predicate Valid()
      reads this
    {
      buf != null ==>
        state == start + bytesWritten && bytesWritten <= maxSize && start + maxSize <= buf.Length
    }

    /** What has been written to the window. */
    ghost function Out(): seq<byte>
      requires Valid()
      reads this, buf
    {
      if buf == null then [] else buf[..][start..state]
    }

    ghost function Where(): Extent
      reads this
    {
      Extent(buf == null, start, maxSize)
    }

    ghost function Snap(): Snapshot
      reads this, buf
    {
      Snapshot(if buf == null then [] else buf[..], bytesWritten)
    }

    /**
     The outcome of sending `v`: success exactly when `v` is defined and fits; then it is appended
     and counted. Nothing outside the window changes.
     */
    twostate predicate Sends(ok: bool, new v: Option<seq<byte>>)
      requires old(Valid())
      reads this, buf
    {
      Valid() && Sent(Where(), old(Snap()), Snap(), ok, v)
    }

    constructor Sizing()
      ensures Valid() && buf == null && bytesWritten == 0
      ensures fresh(this)
    {
      buf := null;
      maxSize := 0;
      state := 0;
      bytesWritten := 0;
      start := 0;
    }

    constructor FromBuffer(b: array<byte>, at: nat, size: nat)
      requires at + size <= b.Length
      ensures Valid() && buf == b && maxSize == size && start == state == at && bytesWritten == 0
      ensures fresh(this) && Out() == []
    {
      buf := b;
      maxSize := size;
      state := at;
      bytesWritten := 0;
      start := at;
    }

    /** Copy to the buffer. */
    method BufWrite(data: seq<byte>)
      requires Valid() && buf != null && bytesWritten + |data| <= maxSize
      modifies this`state, buf
      ensures state == old(state) + |data|
      ensures buf[..] == old(buf[..])[..old(state)] + data + old(buf[..])[old(state) + |data|..]
    {
      var dest := state;
      state := dest + |data|;
      var i := 0;
      while i < |data|
        modifies buf
        invariant 0 <= i <= |data|
        invariant forall k | 0 <= k < buf.Length ::
          buf[k] == if dest <= k < dest + i then data[k - dest] else old(buf[k])
      {
        buf[dest + i] := data[i];
        i := i + 1;
      }
    }

    /** A sizing stream only counts, and may be given no data. */
    method Write(data: seq<byte>, count: nat) returns (ok: bool)
      requires Valid() && (buf != null ==> |data| == count)
      modifies this`state, this`bytesWritten, buf
      ensures |data| == count ==> Sends(ok, Some(data))
      ensures buf == null ==> ok && Valid() && bytesWritten == old(bytesWritten) + count
    {
      if count > 0 && buf != null {
        if bytesWritten + count > maxSize {
          return false;
        }
        BufWrite(data);
      }
      bytesWritten := bytesWritten + count;
      return true;
    }
  }

  /** Weight of the high half while the low half still has bytes to give. */
  function HighWeight(i: nat): (w: nat)
    requires i <= 4
    ensures w > 0
  {
    match i
    case 0 => TWO32
    case 1 => 0x200_0000
    case 2 => 0x4_0000
    case 3 => 0x800
    case 4 => 16
  }

  lemma LowStep(i: nat, byte_: nat, low: nat, high: nat)
    requires i < 4 && byte_ < 128 && (low != 0 || high != 0)
    requires byte_ + 128 * low < HighWeight(i)
    ensures var r := byte_ + 128 * low + HighWeight(i) * high;
      && r >= 128 && r % 128 == byte_
      && r / 128 == low % 128 + 128 * (low / 128) + HighWeight(i + 1) * high
      && low % 128 + 128 * (low / 128) < HighWeight(i + 1)
  {
    assert HighWeight(i) == 128 * HighWeight(i + 1);
    var q := low + HighWeight(i + 1) * high;
    assert byte_ + 128 * low + HighWeight(i) * high == byte_ + 128 * q by {
      assert HighWeight(i) * high == 128 * (HighWeight(i + 1) * high);
    }
    Digit(byte_, q);
  }

  lemma Digit(b: nat, q: nat)
    requires b < 128
    ensures (b + 128 * q) % 128 == b && (b + 128 * q) / 128 == q
  {
  }

  /** One more group of the number: what was sent before, this byte, and the rest. */
  lemma Emit(v: nat, sent: seq<byte>, r: nat)
    requires Varint(v) == sent + Varint(r) && r >= 128
    ensures Varint(v) == sent + [128 + r % 128] + Varint(r / 128)
  {
  }

  /**
   Seven bits at a time, without 64-bit shifts: first the low half, then the high half. Ten bytes
   of buffer are enough.
   */
  method VarintGroups(low0: uint32, high0: uint32) returns (buffer: array<byte>, i: nat)
    ensures fresh(buffer) && i <= buffer.Length == 10
    ensures buffer[..i] == Varint(low0 + TWO32 * high0)
  {
    hide Varint;
    ghost var v: nat := low0 + TWO32 * high0;
    TenBytes(v);
    buffer := new byte[10];
    i := 0;
    var low: nat, high: nat := low0, high0;
    var b: byte := low % 128;
    low := low / 128;
    i, b := LowGroups(buffer, b, low, high, v);
    if high != 0 {
      b, high := b + 16 * (high % 8), high / 8;
      i, b := HighGroups(buffer, i, b, high, v);
    }
    LastByte(b);
    buffer[i] := b;
    i := i + 1;
  }

  /** The first loop: at most four bytes, as long as anything is left. */
  method LowGroups(buffer: array<byte>, b0: byte, low0: nat, high: nat, ghost v: nat) returns (i: nat, b: byte)
    requires buffer.Length == 10 && b0 < 128 && b0 + 128 * low0 < TWO32
    requires v == b0 + 128 * low0 + TWO32 * high
    modifies buffer
    ensures i <= 4 && b < 128 && (high != 0 ==> i == 4 && b < 16)
    ensures Varint(v) == buffer[..i] + Varint(if high == 0 then b else b + 16 * high)
  {
    hide Varint;
    i, b := 0, b0;
    var low := low0;
    while i < 4 && (low != 0 || high != 0)
      invariant i <= 4 && b < 128 && b + 128 * low < HighWeight(i)
      invariant Varint(v) == buffer[..i] + Varint(b + 128 * low + HighWeight(i) * high)
    {
      LowStep(i, b, low, high);
      Emit(v, buffer[..i], b + 128 * low + HighWeight(i) * high);
      b := b + 128;
      buffer[i] := b;
      i := i + 1;
      b := low % 128;
      low := low / 128;
    }
  }

  /** The second loop: what is left of the high half, until a byte without bit 7 remains. */
  method HighGroups(buffer: array<byte>, i0: nat, b0: byte, high0: nat, ghost v: nat) returns (i: nat, b: byte)
    requires buffer.Length == 10 && |Varint(v)| <= 10 && i0 < 10 && b0 < 128
    requires Varint(v) == buffer[..i0] + Varint(b0 + 128 * high0)
    modifies buffer
    ensures i < 10 && b < 128
    ensures Varint(v) == buffer[..i] + Varint(b)
  {
    hide Varint;
    i, b := i0, b0;
    var high := high0;
    while high != 0
      invariant b < 128 && i < 10
      invariant Varint(v) == buffer[..i] + Varint(b + 128 * high)
    {
      Digit(b, high);
      Emit(v, buffer[..i], b + 128 * high);
      b := b + 128;
      buffer[i] := b;
      i := i + 1;
      b := high % 128;
      high := high / 128;
    }
  }

  method EncodeVarint32(s: OStream, low: uint32, high: uint32) returns (ok: bool)
    requires s.Valid()
    modifies s, s.buf
    ensures s.Sends(ok, Some(Varint(low + TWO32 * high)))
  {
    var buffer, i := VarintGroups(low, high);
    ok := s.Write(buffer[..i], i);
  }

  lemma LastByte(b: nat)
    requires b < 128
    ensures Varint(b) == [b]
  {
  }

  method EncodeVarint(s: OStream, value: nat) returns (ok: bool)
    requires s.Valid() && value < TWO64
    modifies s, s.buf
    ensures s.Sends(ok, Some(Varint(value)))
  {
    if value <= 0x7F {
      ok := s.Write([value], 1);
    } else {
      ok := EncodeVarint32(s, value % TWO32, value / TWO32);
    }
  }

  // ---------------------------------------------------------------- helpers

  method EncodeSVarint(s: OStream, value: int64) returns (ok: bool)
    requires s.Valid()
    modifies s, s.buf
    ensures s.Sends(ok, Some(Varint(ZigZag(value))))
  {
    var zigzagged: nat;
    if value < 0 {
      zigzagged := TWO64 - 1 - Unsigned(2 * value, TWO64);
      Complement(value);
    } else {
      zigzagged := 2 * value;
    }
    ok := EncodeVarint(s, zigzagged);
  }

  lemma Complement(n: int64)
    requires n < 0
    ensures TWO64 - 1 - Unsigned(2 * n, TWO64) == ZigZag(n)
  {
    assert Unsigned(2 * n, TWO64) == 2 * n + TWO64;
  }

  method EncodeFixed32(s: OStream, val: uint32) returns (ok: bool)
    requires s.Valid()
    modifies s, s.buf
    ensures s.Sends(ok, Some(LittleEndian(4, val)))
  {
    var bytes: seq<byte> := [val % 256, val / 0x100 % 256, val / 0x1_0000 % 256, val / 0x100_0000 % 256];
    FourBytes(val);
    ok := s.Write(bytes, 4);
  }

  lemma FourBytes(v: nat)
    ensures LittleEndian(4, v) == [v % 256, v / 0x100 % 256, v / 0x1_0000 % 256, v / 0x100_0000 % 256]
  {
    assert v / 0x100 / 256 == v / 0x1_0000;
    assert v / 0x1_0000 / 256 == v / 0x100_0000;
    assert LittleEndian(1, v / 0x100_0000) == [v / 0x100_0000 % 256];
    assert LittleEndian(2, v / 0x1_0000) == [v / 0x1_0000 % 256] + LittleEndian(1, v / 0x100_0000);
    assert LittleEndian(3, v / 0x100) == [v / 0x100 % 256] + LittleEndian(2, v / 0x1_0000);
  }

  method EncodeFixed64(s: OStream, val: uint64) returns (ok: bool)
    requires s.Valid()
    modifies s, s.buf
    ensures s.Sends(ok, Some(LittleEndian(8, val)))
  {
    var low, high := val % TWO32, val / TWO32;
    var bytes: seq<byte> := [
      low % 256, low / 0x100 % 256, low / 0x1_0000 % 256, low / 0x100_0000 % 256,
      high % 256, high / 0x100 % 256, high / 0x1_0000 % 256, high / 0x100_0000 % 256];
    FourBytes(low);
    FourBytes(high);
    EightBytes(val);
    assert bytes == LittleEndian(4, low) + LittleEndian(4, high);
    ok := s.Write(bytes, 8);
  }

  lemma EightBytes(v: nat)
    ensures LittleEndian(8, v) == LittleEndian(4, v % TWO32) + LittleEndian(4, v / TWO32)
  {
    var low := v % TWO32;
    assert v / 0x100_0000 / 256 == v / TWO32;
    assert LittleEndian(5, v / 0x100_0000) == [v / 0x100_0000 % 256] + LittleEndian(4, v / TWO32);
    assert v / 0x1_0000 / 256 == v / 0x100_0000;
    assert LittleEndian(6, v / 0x1_0000) == [v / 0x1_0000 % 256] + LittleEndian(5, v / 0x100_0000);
    assert v / 0x100 / 256 == v / 0x1_0000;
    assert LittleEndian(7, v / 0x100) == [v / 0x100 % 256] + LittleEndian(6, v / 0x1_0000);
    FourBytes(low);
    LowBytes(v);
  }

  lemma LowBytes(v: nat)
    ensures var low := v % TWO32;
      && low % 256 == v % 256 && low / 0x100 % 256 == v / 0x100 % 256
      && low / 0x1_0000 % 256 == v / 0x1_0000 % 256 && low / 0x100_0000 % 256 == v / 0x100_0000 % 256
  {
    var low, high := v % TWO32, v / TWO32;
    assert v / 0x100 == low / 0x100 + 0x100_0000 * high;
    assert v / 0x1_0000 == low / 0x1_0000 + 0x1_0000 * high;
    assert v / 0x100_0000 == low / 0x100_0000 + 0x100 * high;
    SameLowByte(low, 0x100_0000 * high);
    SameLowByte(low / 0x100, 0x1_0000 * high);
    SameLowByte(low / 0x1_0000, 0x100 * high);
    SameLowByte(low / 0x100_0000, high);
  }

  lemma SameLowByte(x: nat, y: nat)
    ensures (x + 256 * y) % 256 == x % 256
  {
  }

  method EncodeTag(s: OStream, wt: nat, tag: nat) returns (ok: bool)
    requires s.Valid() && 8 * tag + wt < TWO64
    modifies s, s.buf
    ensures s.Sends(ok, Some(EncTag(tag, wt)))
  {
    ok := EncodeVarint(s, 8 * tag + wt);
  }

  method EncodeTagForField(s: OStream, f: Field) returns (ok: bool)
    requires s.Valid() && f.tag < 0x1_0000
    modifies s, s.buf
    ensures s.Sends(ok, Some(EncTag(f.tag, WireType(f.kind))))
  {
    var wt: nat;
    match f.kind {
      case Num(Fixed32) => wt := WT_32BIT;
      case Num(Fixed64) => wt := WT_64BIT;
      case Num(_) => wt := WT_VARINT;
      case _ => wt := WT_STRING;
    }
    ok := EncodeTag(s, wt, f.tag);
  }

  method EncodeString(s: OStream, data: seq<byte>, size: nat) returns (ok: bool)
    requires s.Valid() && |data| == size < TWO64
    modifies s, s.buf
    ensures s.Sends(ok, Some(LenPrefixed(data)))
  {
    hide Varint, Sent;
    ghost var w, p := s.Where(), s.Snap();
    ok := EncodeVarint(s, size);
    ghost var q := s.Snap();
    if !ok {
      SentNot(w, p, q, Some(Varint(size)), Some(data));
      return;
    }
    ok := s.Write(data, size);
    SentThen(w, p, q, s.Snap(), Varint(size), ok, Some(data));
  }

  // ---------------------------------------------------------------- field encoders

  method EncBool(s: OStream, n: int) returns (ok: bool)
    requires s.Valid()
    modifies s, s.buf
    ensures s.Sends(ok, Some(EncScalar(Bool, n)))
  {
    ok := EncodeVarint(s, if n != 0 then 1 else 0);
  }

  /** Members are read at their width and extended to 64 bits. */
  method EncVarint(s: OStream, sc: Scalar, n: int) returns (ok: bool)
    requires s.Valid() && !sc.Fixed32? && !sc.Fixed64?
    modifies s, s.buf
    ensures s.Sends(ok, Some(EncPacked(sc, n)))
  {
    if sc.UInt? {
      ok := EncodeVarint(s, Unsigned(n, TWO64));
    } else {
      var value: int64 := Signed(n, TWO64);
      if sc.SInt? {
        ok := EncodeSVarint(s, value);
      } else {
        SignedThenUnsigned(n);
        ok := EncodeVarint(s, Unsigned(value, TWO64));
      }
    }
  }

  lemma SignedThenUnsigned(n: int)
    ensures Unsigned(Signed(n, TWO64), TWO64) == Unsigned(n, TWO64)
  {
    var u := n % TWO64;
    assert (u - TWO64) % TWO64 == u;
  }

  method EncFixed(s: OStream, sc: Scalar, n: int) returns (ok: bool)
    requires s.Valid() && (sc.Fixed32? || sc.Fixed64?)
    modifies s, s.buf
    ensures s.Sends(ok, Some(EncPacked(sc, n)))
  {
    if sc.Fixed32? {
      ok := EncodeFixed32(s, Unsigned(n, TWO32));
    } else {
      ok := EncodeFixed64(s, Unsigned(n, TWO64));
    }
  }

  /** The char at `p` of an array holding `bs` and a terminator. */
  function CharAt(bs: seq<byte>, p: nat): byte {
    if p < |bs| then bs[p] else 0
  }

  lemma {:induction false} CStringScan(bs: seq<byte>, n: nat)
    requires n <= |bs| && forall j | 0 <= j < n :: bs[j] != 0
    ensures |CString(bs)| >= n && CString(bs)[..n] == bs[..n]
    ensures CharAt(bs, n) == 0 ==> CString(bs) == bs[..n]
    ensures CharAt(bs, n) != 0 ==> |CString(bs)| > n
  {
    if n > 0 {
      CStringScan(bs[1..], n - 1);
      assert CharAt(bs[1..], n - 1) == CharAt(bs, n);
      assert bs[..n] == [bs[0]] + bs[1..][..n - 1];
      assert CString(bs)[..n] == [bs[0]] + CString(bs[1..])[..n - 1];
    }
  }

  /** `size` is the length of the char array; a text must leave room for its terminator. */
  method EncString(s: OStream, size: nat, bs: seq<byte>) returns (ok: bool)
    requires s.Valid() && |bs| < TWO64
    modifies s, s.buf
    ensures s.Sends(ok, if |CString(bs)| < size then Some(LenPrefixed(CString(bs))) else None)
  {
    if size == 0 {
      return false;
    }
    var maxSize := size - 1;
    var n := 0;
    while n < maxSize && CharAt(bs, n) != 0
      invariant n <= |bs| && n <= maxSize
      invariant forall j | 0 <= j < n :: bs[j] != 0
    {
      n := n + 1;
    }
    CStringScan(bs, n);
    if CharAt(bs, n) != 0 {
      return false;
    }
    ok := EncodeString(s, bs[..n], n);
  }

  /** As above without a limit, for the strings that a callback writes. */
  method EncCString(s: OStream, bs: seq<byte>) returns (ok: bool)
    requires s.Valid() && |bs| < TWO64
    modifies s, s.buf
    ensures s.Sends(ok, Some(LenPrefixed(CString(bs))))
  {
    var n := 0;
    while CharAt(bs, n) != 0
      invariant n <= |bs|
      invariant forall j | 0 <= j < n :: bs[j] != 0
      decreases |bs| - n
    {
      n := n + 1;
    }
    CStringScan(bs, n);
    ok := EncodeString(s, bs[..n], n);
  }

  method EncBytes(s: OStream, cap: nat, bs: seq<byte>) returns (ok: bool)
    requires s.Valid() && |bs| < TWO64
    modifies s, s.buf
    ensures s.Sends(ok, if |bs| > cap then None else Some(LenPrefixed(bs)))
  {
    if |bs| > cap {
      return false;
    }
    ok := EncodeString(s, bs, |bs|);
  }

  // ---------------------------------------------------------------- messages

  /** Every length that has to be written fits a 64-bit size, as for anything that is in memory. */
  predicate InMemory(d: Desc, m: Message)
    requires Typed(d, m)
    decreases d
  {
    forall i | 0 <= i < |m| :: InMemorySlot(d.fields[i], m[i])
  }

  predicate InMemorySlot(f: Field, sl: Slot)
    requires TypedSlot(f, sl)
    decreases f
  {
    match sl
    case Req(v) => InMemoryValue(f.kind, v)
    case Opt(_, v) => InMemoryValue(f.kind, v)
    case Rep(vs) =>
      && (forall v | v in vs :: InMemoryValue(f.kind, v))
      && (f.kind.Num? ==> |EncPackedItems(f.kind.sc, vs)| < TWO64)
  }

  predicate InMemoryValue(k: Kind, v: Value)
    requires TypedValue(k, v)
    decreases k
  {
    match k
    case Num(_) => true
    case Bytes(_) | Str(_) | FixedBytes(_) | CbStrings => |v.bs| < TWO64
    case Sub(d) => InMemory(d, v.m) && (EncMessage(d, v.m).Some? ==> |EncMessage(d, v.m).value| < TWO64)
    case CbMessages(d) => InMemory(d, v.m) && (EncMessage(d, v.m).Some? ==> |EncMessage(d, v.m).value| < TWO64)
    case CbNone => true
  }

  /**
   A sizing pass, the length, then the writing pass on a substream of exactly that size. The two
   passes agree, so the final comparison never fails.
   */
  method EncodeSubmessage(layout: Layout, s: OStream, d: Desc, m: Message) returns (ok: bool)
    requires s.Valid() && LaidOut(layout, d) && Typed(d, m) && InMemory(d, m)
    requires EncMessage(d, m).Some? ==> |EncMessage(d, m).value| < TWO64
    modifies s, s.buf
    ensures s.Sends(ok, match EncMessage(d, m) case None => None case Some(p) => Some(LenPrefixed(p)))
    decreases d, 4
  {
    hide Varint, EncMessage, LaidOut, InMemory, Typed;
    ghost var spec := EncMessage(d, m);
    ghost var w, p := s.Where(), s.Snap();
    var sizing := new OStream.Sizing();
    ok := Encode(layout, sizing, d, m);
    SentUnmoved(w, p, None);
    if !ok {
      return false;
    }
    var size := sizing.bytesWritten;
    hide Sent;
    ok := EncodeVarint(s, size);
    ghost var q := s.Snap();
    if !ok {
      SentNot(w, p, q, Some(Varint(size)), spec);
      return;
    }
    if s.buf == null {
      ok := s.Write([], size);
      SentSizing(w, q, s.Snap(), spec.value);
    } else {
      ok := EncodeOnSubstream(layout, s, d, m, size);
    }
    SentThen(w, p, q, s.Snap(), Varint(size), ok, spec);
  }

  /** The writing pass, on a substream that ends after `size` bytes. */
  method EncodeOnSubstream(layout: Layout, s: OStream, d: Desc, m: Message, size: nat) returns (ok: bool)
    requires s.Valid() && s.buf != null && LaidOut(layout, d) && Typed(d, m) && InMemory(d, m)
    requires EncMessage(d, m).Some? && |EncMessage(d, m).value| == size
    modifies s, s.buf
    ensures s.Sends(ok, EncMessage(d, m))
    decreases d, 3
  {
    hide EncMessage, LaidOut, InMemory, Typed, Sent;
    ghost var w, p, v := s.Where(), s.Snap(), EncMessage(d, m).value;
    if s.bytesWritten + size > s.maxSize {
      SentTooLong(w, p, v);
      return false;
    }
    var substream := new OStream.FromBuffer(s.buf, s.state, size);
    ok := Encode(layout, substream, d, m);
    SentInside(w, p, substream.Snap(), ok, v);
    s.bytesWritten := s.bytesWritten + substream.bytesWritten;
    s.state := substream.state;
    ok := ok && substream.bytesWritten == size;
  }

  lemma SentTooLong(w: Extent, p: Snapshot, v: seq<byte>)
    requires !w.sizing && p.written + |v| > w.max
    requires w.start + w.max <= |p.cells| && p.written <= w.max
    ensures Sent(w, p, p, false, Some(v))
  {
  }

  /** What fills a window inside a window of its parent has been sent to the parent. */
  lemma SentInside(w: Extent, p: Snapshot, q: Snapshot, ok: bool, v: seq<byte>)
    requires !w.sizing && w.start + w.max <= |p.cells| && p.written + |v| <= w.max
    requires Sent(Extent(false, w.start + p.written, |v|), Snapshot(p.cells, 0), q, ok, Some(v))
    ensures ok && q.written == |v|
    ensures Sent(w, p, Snapshot(q.cells, p.written + q.written), true, Some(v))
  {
    Nested(p.cells, q.cells, w.start, w.start + p.written, |v|, w.max);
  }

  /** A window at `state` inside a window of `max` bytes at `start`. */
  lemma Nested(before: seq<byte>, after: seq<byte>, start: nat, state: nat, size: nat, max: nat)
    requires start <= state && state + size <= start + max <= |before| == |after|
    requires before[..state] == after[..state] && before[state + size..] == after[state + size..]
    ensures before[..start] == after[..start] && before[start + max..] == after[start + max..]
    ensures after[start..state + size] == before[start..state] + after[state..state + size]
  {
    assert before[..start] == before[..state][..start];
    assert after[..start] == after[..state][..start];
    assert before[start + max..] == before[state + size..][start + max - state - size..];
    assert after[start + max..] == after[state + size..][start + max - state - size..];
    assert before[start..state] == before[..state][start..];
    assert after[start..state] == after[..state][start..];
  }

  lemma ThenMore(done: seq<byte>, x: Option<seq<byte>>, rest: Option<seq<byte>>)
    ensures x.Some? ==> Then(done, Then(x.value, rest)) == Then(done + x.value, rest)
  {
    if x.Some? && rest.Some? {
      Assoc(done, x.value, rest.value);
    }
  }

  /** `desc` is the submessage type that the iterator has loaded for this field. */
  method EncodeBasicField(layout: Layout, s: OStream, f: Field, desc: Option<Desc>, v: Value) returns (ok: bool)
    requires s.Valid() && f.tag < 0x1_0000 && LaidOutKind(layout, f.kind)
    requires HasDesc(f.kind) ==> desc == Some(f.kind.d)
    requires TypedValue(f.kind, v) && InMemoryValue(f.kind, v)
    modifies s, s.buf
    ensures s.Sends(ok, EncItem(f, v))
    decreases f, 1
  {
    hide Sent, EncTag, EncValue, TypedValue, InMemoryValue;
    ghost var tag := EncTag(f.tag, WireType(f.kind));
    ghost var w, p := s.Where(), s.Snap();
    ok := EncodeTagForField(s, f);
    ghost var q := s.Snap();
    if !ok {
      SentNot(w, p, q, Some(tag), EncValue(f.kind, v));
      return;
    }
    ok := EncodeContent(layout, s, f.kind, desc, v);
    SentThen(w, p, q, s.Snap(), tag, ok, EncValue(f.kind, v));
  }

  method EncodeContent(layout: Layout, s: OStream, k: Kind, desc: Option<Desc>, v: Value) returns (ok: bool)
    requires s.Valid() && LaidOutKind(layout, k)
    requires HasDesc(k) ==> desc == Some(k.d)
    requires TypedValue(k, v) && InMemoryValue(k, v)
    modifies s, s.buf
    ensures s.Sends(ok, EncValue(k, v))
    decreases k, 1
  {
    match k
    case Num(sc) =>
      if sc.Bool? {
        ok := EncBool(s, v.n);
      } else if sc.Fixed32? || sc.Fixed64? {
        ok := EncFixed(s, sc, v.n);
      } else {
        ok := EncVarint(s, sc, v.n);
      }
    case Bytes(cap) => ok := EncBytes(s, cap, v.bs);
    case Str(size) => ok := EncString(s, size, v.bs);
    case FixedBytes(n) => ok := EncodeString(s, v.bs, n);
    case CbStrings => ok := EncCString(s, v.bs);
    case Sub(_) => ok := EncodeSubmessage(layout, s, desc.value, v.m);
    case CbMessages(_) => ok := EncodeSubmessage(layout, s, desc.value, v.m);
  }

  /** One item after the other, each with its tag: unpacked arrays, and the list callbacks. */
  method EncodeItems(layout: Layout, s: OStream, f: Field, desc: Option<Desc>, vs: seq<Value>) returns (ok: bool)
    requires s.Valid() && f.tag < 0x1_0000 && LaidOutKind(layout, f.kind)
    requires HasDesc(f.kind) ==> desc == Some(f.kind.d)
    requires forall v | v in vs :: TypedValue(f.kind, v) && InMemoryValue(f.kind, v)
    modifies s, s.buf
    ensures s.Sends(ok, EncItems(f, vs))
    decreases f, 2
  {
    hide Sent, EncItem;
    ghost var w, p := s.Where(), s.Snap();
    ghost var done: seq<byte> := [];
    var i := 0;
    ThenNothing(EncItems(f, vs));
    SentUnmoved(w, p, Some([]));
    assert vs[0..] == vs;
    while i < |vs|
      invariant i <= |vs| && s.Valid() && Sent(w, p, s.Snap(), true, Some(done))
      invariant EncItems(f, vs) == Then(done, EncItems(f, vs[i..]))
    {
      assert vs[i] in vs && vs[i..][1..] == vs[i + 1..];
      ghost var q, x := s.Snap(), EncItem(f, vs[i]);
      ThenMore(done, x, EncItems(f, vs[i + 1..]));
      ok := EncodeBasicField(layout, s, f, desc, vs[i]);
      SentThen(w, p, q, s.Snap(), done, ok, x);
      if !ok {
        SentNot(w, p, s.Snap(), Then(done, x), EncItems(f, vs[i + 1..]));
        return;
      }
      done := done + x.value;
      i := i + 1;
    }
    ThenDone(done);
    ok := true;
  }

  lemma ThenNothing(rest: Option<seq<byte>>)
    ensures Then([], rest) == rest
  {
    if rest.Some? {
      assert [] + rest.value == rest.value;
    }
  }

  /** The length of a packed array, found by encoding it onto a sizing stream. */
  method PackedSize(sc: Scalar, vs: seq<Value>) returns (size: nat)
    requires forall v | v in vs :: TypedValue(Num(sc), v)
    ensures size == |EncPackedItems(sc, vs)|
  {
    hide EncPacked;
    assert vs[0..] == vs;
    if sc.Fixed32? || sc.Fixed64? {
      FixedSize(sc, vs);
      size := (if sc.Fixed32? then 4 else 8) * |vs|;
    } else {
      var sizing := new OStream.Sizing();
      var i := 0;
      while i < |vs|
        invariant i <= |vs| && sizing.Valid() && sizing.buf == null && fresh(sizing)
        invariant sizing.bytesWritten + |EncPackedItems(sc, vs[i..])| == |EncPackedItems(sc, vs)|
      {
        assert vs[i] in vs && vs[i..][1..] == vs[i + 1..];
        assert TypedValue(Num(sc), vs[i]);
        var _ := EncVarint(sizing, sc, vs[i].n);
        i := i + 1;
      }
      size := sizing.bytesWritten;
    }
  }

  lemma {:induction false} FixedSize(sc: Scalar, vs: seq<Value>)
    requires sc.Fixed32? || sc.Fixed64?
    requires forall v | v in vs :: TypedValue(Num(sc), v)
    ensures |EncPackedItems(sc, vs)| == (if sc.Fixed32? then 4 else 8) * |vs|
  {
    if vs != [] {
      FixedSize(sc, vs[1..]);
      assert TypedValue(Num(sc), vs[0]);
    }
  }

  method EncPackedItem(s: OStream, sc: Scalar, n: int) returns (ok: bool)
    requires s.Valid()
    modifies s, s.buf
    ensures s.Sends(ok, Some(EncPacked(sc, n)))
  {
    if sc.Fixed32? || sc.Fixed64? {
      ok := EncFixed(s, sc, n);
    } else {
      ok := EncVarint(s, sc, n);
    }
  }

  method WritePacked(s: OStream, sc: Scalar, vs: seq<Value>) returns (ok: bool)
    requires s.Valid()
    requires forall v | v in vs :: TypedValue(Num(sc), v)
    modifies s, s.buf
    ensures s.Sends(ok, Some(EncPackedItems(sc, vs)))
  {
    hide EncPacked, Sent;
    ghost var w, p := s.Where(), s.Snap();
    ghost var done: seq<byte> := [];
    var i := 0;
    SentUnmoved(w, p, Some([]));
    assert vs[0..] == vs;
    while i < |vs|
      invariant i <= |vs| && s.Valid() && Sent(w, p, s.Snap(), true, Some(done))
      invariant EncPackedItems(sc, vs) == done + EncPackedItems(sc, vs[i..])
    {
      assert vs[i] in vs && vs[i..][1..] == vs[i + 1..];
      assert TypedValue(Num(sc), vs[i]);
      ghost var q, x := s.Snap(), EncPacked(sc, vs[i].n);
      Assoc(done, x, EncPackedItems(sc, vs[i + 1..]));
      ok := EncPackedItem(s, sc, vs[i].n);
      SentThen(w, p, q, s.Snap(), done, ok, Some(x));
      if !ok {
        SentNot(w, p, s.Snap(), Some(done + x), Some(EncPackedItems(sc, vs[i + 1..])));
        return;
      }
      done := done + x;
      i := i + 1;
    }
    assert done + [] == done;
    ok := true;
  }

  method EncodePackedArray(s: OStream, f: Field, vs: seq<Value>) returns (ok: bool)
    requires s.Valid() && f.tag < 0x1_0000 && f.IsPackable()
    requires forall v | v in vs :: TypedValue(f.kind, v)
    requires |EncPackedItems(f.kind.sc, vs)| < TWO64
    modifies s, s.buf
    ensures s.Sends(ok, Some(EncTag(f.tag, WT_STRING) + LenPrefixed(EncPackedItems(f.kind.sc, vs))))
  {
    hide EncTag, EncPackedItems, Varint, Sent;
    ghost var w, p := s.Where(), s.Snap();
    ghost var tag, items := EncTag(f.tag, WT_STRING), EncPackedItems(f.kind.sc, vs);
    ok := EncodeTag(s, WT_STRING, f.tag);
    ghost var q := s.Snap();
    if !ok {
      SentNot(w, p, q, Some(tag), Some(LenPrefixed(items)));
      return;
    }
    var size := PackedSize(f.kind.sc, vs);
    ok := EncodeVarint(s, size);
    ghost var r := s.Snap();
    if !ok {
      SentNot(w, q, r, Some(Varint(size)), Some(items));
    } else if s.buf == null {
      ok := s.Write([], size);
      SentSizing(w, r, s.Snap(), items);
      SentThen(w, q, r, s.Snap(), Varint(size), ok, Some(items));
    } else {
      ok := WritePacked(s, f.kind.sc, vs);
      SentThen(w, q, r, s.Snap(), Varint(size), ok, Some(items));
    }
    SentThen(w, p, q, s.Snap(), tag, ok, Some(LenPrefixed(items)));
  }

  method EncodeArray(layout: Layout, s: OStream, f: Field, desc: Option<Desc>, vs: seq<Value>) returns (ok: bool)
    requires s.Valid() && f.tag < 0x1_0000 && LaidOutKind(layout, f.kind)
    requires HasDesc(f.kind) ==> desc == Some(f.kind.d)
    requires f.rule.Repeated? && !f.IsCallback()
    requires TypedSlot(f, Rep(vs)) && InMemorySlot(f, Rep(vs))
    modifies s, s.buf
    ensures s.Sends(ok, EncSlot(f, Rep(vs)))
    decreases f, 3
  {
    hide EncTag, EncItems, EncPackedItems;
    var count := |vs|;
    if count == 0 {
      return true;
    }
    if count > f.rule.max {
      return false;
    }
    if f.IsPackable() {
      ok := EncodePackedArray(s, f, vs);
    } else {
      ok := EncodeItems(layout, s, f, desc, vs);
    }
  }

  method EncodeField(layout: Layout, s: OStream, f: Field, desc: Option<Desc>, sl: Slot) returns (ok: bool)
    requires s.Valid() && f.tag < 0x1_0000 && LaidOutKind(layout, f.kind)
    requires HasDesc(f.kind) ==> desc == Some(f.kind.d)
    requires TypedSlot(f, sl) && InMemorySlot(f, sl)
    modifies s, s.buf
    ensures s.Sends(ok, EncSlot(f, sl))
    decreases f, 4
  {
    if sl.Opt? && !sl.has {
      return true;
    }
    if f.IsCallback() {
      ok := EncodeItems(layout, s, f, desc, sl.vs);
    } else if f.rule.Repeated? {
      ok := EncodeArray(layout, s, f, desc, sl.vs);
    } else {
      ok := EncodeBasicField(layout, s, f, desc, sl.v);
    }
  }

  /** The field that the iterator stands on. */
  method EncodeCurrent(layout: Layout, s: OStream, d: Desc, m: Message, iter: FieldIter<Desc>, ghost i: nat)
    returns (ok: bool)
    requires s.Valid() && LaidOut(layout, d) && Typed(d, m) && InMemory(d, m)
    requires Stands(iter, layout, d, i, true)
    modifies s, s.buf
    ensures s.Sends(ok, EncSlot(d.fields[i], m[i]))
    decreases d, 1, 0
  {
    FieldInUse(iter, layout, d, i);
    assert TypedSlot(d.fields[i], m[i]) && InMemorySlot(d.fields[i], m[i]);
    hide Rows, Typed, LaidOut, InMemory, PackAll, WordIndex, RequiredBefore, SubmessagesBefore, LargestTag;
    hide Searchable, AllFit;
    ok := EncodeField(layout, s, d.fields[iter.index], iter.submsgDesc, m[iter.index]);
  }

  /** The loop body: this field, then on to the next if that went well. */
  method EncodeStep(layout: Layout, s: OStream, d: Desc, m: Message, iter: FieldIter<Desc>, ghost i: nat)
    returns (ok: bool, more: bool)
    requires s.Valid() && LaidOut(layout, d) && Typed(d, m) && InMemory(d, m)
    requires Stands(iter, layout, d, i, true)
    modifies s, s.buf, iter
    ensures i < |m| == |d.fields|
    ensures s.Sends(ok, EncSlot(d.fields[i], m[i]))
    ensures ok ==> Stands(iter, layout, d, i + 1, more) && if more then i + 1 < |m| else i + 1 == |m|
    decreases d, 1, 1
  {
    hide Sent, EncMessage, EncSlot, InMemory, LaidOut, TypedSlot;
    ok := EncodeCurrent(layout, s, d, m, iter, i);
    more := false;
    if ok {
      more := WalkOn(iter, layout, d, i);
    }
  }

  lemma FirstField(d: Desc, m: Message)
    requires Typed(d, m)
    ensures |m| == |d.fields|
    ensures EncMessage(d, m) == Then([], EncFrom(d, m, 0))
    ensures EncFrom(d, m, |m|) == Some([])
  {
    ThenNothing(EncMessage(d, m));
  }

  /** Once round the table with the iterator, writing field after field. */
  method Encode(layout: Layout, s: OStream, d: Desc, m: Message) returns (ok: bool)
    requires s.Valid() && LaidOut(layout, d) && Typed(d, m) && InMemory(d, m)
    modifies s, s.buf
    ensures s.Sends(ok, EncMessage(d, m))
    decreases d, 2
  {
    ghost var w, p := s.Where(), s.Snap();
    ghost var done: seq<byte> := [];
    ghost var i := 0;
    FirstField(d, m);
    SentUnmoved(w, p, Some([]));
    var iter, more := StartWalk(layout, d);
    assert s.Snap() == p;
    hide Stands, Rows, DescriptorOf, EncMessage, EncFrom, EncSlot, InMemory, Typed, LaidOut, TypedSlot, Sent, Then;
    while more
      invariant fresh(iter) && Stands(iter, layout, d, i, more) && if more then i < |m| else i == |m|
      invariant s.Valid() && Sent(w, p, s.Snap(), true, Some(done))
      invariant EncMessage(d, m) == Then(done, EncFrom(d, m, i))
      decreases |m| - i
    {
      ghost var q := s.Snap();
      ok, more := EncodeStep(layout, s, d, m, iter, i);
      done := SentField(w, p, q, s.Snap(), d, m, i, done, ok);
      if !ok {
        return;
      }
      i := i + 1;
    }
    ThenDone(done);
    ok := true;
  }

  /** Field `i` after the ones before it. */
  lemma SentField(w: Extent, p: Snapshot, q: Snapshot, r: Snapshot, d: Desc, m: Message, i: nat, done: seq<byte>,
      ok: bool)
    returns (done': seq<byte>)
    requires Typed(d, m) && i < |m| == |d.fields|
    requires Sent(w, p, q, true, Some(done)) && EncMessage(d, m) == Then(done, EncFrom(d, m, i))
    requires Sent(w, q, r, ok, EncSlot(d.fields[i], m[i]))
    ensures if ok then Sent(w, p, r, true, Some(done')) && EncMessage(d, m) == Then(done', EncFrom(d, m, i + 1))
            else Sent(w, p, r, false, EncMessage(d, m))
  {
    hide EncSlot;
    var x := EncSlot(d.fields[i], m[i]);
    ThenMore(done, x, EncFrom(d, m, i + 1));
    SentThen(w, p, q, r, done, ok, x);
    if ok {
      done' := done + x.value;
    } else {
      done' := done;
      SentNot(w, p, r, Then(done, x), EncFrom(d, m, i + 1));
    }
  }

  lemma ThenDone(done: seq<byte>)
    ensures Then(done, Some([])) == Some(done)
  {
    assert done + [] == done;
  }

  /** The size found by encoding onto a sizing stream: what a buffer needs to hold at least. */
  method GetEncodedSize(layout: Layout, d: Desc, m: Message) returns (ok: bool, size: nat)
    requires LaidOut(layout, d) && Typed(d, m) && InMemory(d, m)
    ensures EncMessage(d, m).Some? <==> ok
    ensures ok ==> size == |EncMessage(d, m).value|
  {
    hide EncMessage, LaidOut, Typed, InMemory;
    var stream := new OStream.Sizing();
    ok := Encode(layout, stream, d, m);
    size := stream.bytesWritten;
  }

  /** Encoding into a buffer of `bufsize` bytes succeeds exactly when that is at least the size. */
  method EncodeToBuffer(layout: Layout, buf: array<byte>, bufsize: nat, d: Desc, m: Message)
    returns (ok: bool, written: nat)
    requires LaidOut(layout, d) && Typed(d, m) && InMemory(d, m) && bufsize <= buf.Length
    modifies buf
    ensures ok <==> EncMessage(d, m).Some? && |EncMessage(d, m).value| <= bufsize
    ensures ok ==> written == |EncMessage(d, m).value| && buf[..written] == EncMessage(d, m).value
    ensures buf[bufsize..] == old(buf[bufsize..])
  {
    hide EncMessage, LaidOut, Typed, InMemory;
    var stream := new OStream.FromBuffer(buf, 0, bufsize);
    ok := Encode(layout, stream, d, m);
    written := stream.bytesWritten;
  }
}
