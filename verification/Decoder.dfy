/**
 The stream-driven decoder. Every method is proved to compute, from the window of its stream and
 the old contents, what `Codec` defines, and on success to consume all it should.
 */
module Decoder {
  import opened Prelude
  import opened Wire
  import opened Schema
  import opened Codec
  import opened CodecLaws
  import opened Tables
  import opened FieldTable
  import opened FieldIter
  import opened InStream
  import opened BitField

  // ---------------------------------------------------------------- scalars

  /** Four bytes shifted into place. */
  function Assemble(b0: nat, b1: nat, b2: nat, b3: nat): nat {
    b0 + 0x100 * b1 + 0x1_0000 * b2 + 0x100_0000 * b3
  }

  method DecodeFixed32(s: IStream) returns (ok: bool, dest: nat)
    requires s.Valid()
    modifies s
    ensures s.Valid() && (ok ==> s.End() == old(s.End()))
    ensures Outcome(ok, dest, s.Window(), DecScalar(Fixed32, old(s.Window())))
  {
    var bytes;
    ok, bytes := s.Read(4);
    dest := 0;
    if ok {
      FourBytes(bytes);
      FromLittleEndianBound(bytes);
      dest := Assemble(bytes[0], bytes[1], bytes[2], bytes[3]);
    }
  }

  lemma FourBytes(p: seq<byte>)
    requires |p| == 4
    ensures FromLittleEndian(p) == Assemble(p[0], p[1], p[2], p[3])
  {
    assert p[1..][1..] == p[2..] && p[2..][1..] == p[3..] && p[3..][1..] == [];
    assert FromLittleEndian(p[3..]) == p[3];
    assert FromLittleEndian(p[2..]) == p[2] + 256 * FromLittleEndian(p[3..]);
    assert FromLittleEndian(p[1..]) == p[1] + 256 * FromLittleEndian(p[2..]);
  }

  method DecodeFixed64(s: IStream) returns (ok: bool, dest: nat)
    requires s.Valid()
    modifies s
    ensures s.Valid() && (ok ==> s.End() == old(s.End()))
    ensures Outcome(ok, dest, s.Window(), DecScalar(Fixed64, old(s.Window())))
  {
    var bytes;
    ok, bytes := s.Read(8);
    dest := 0;
    if ok {
      EightBytes(bytes);
      var low := Assemble(bytes[0], bytes[1], bytes[2], bytes[3]);
      var high := Assemble(bytes[4], bytes[5], bytes[6], bytes[7]);
      dest := low + TWO32 * high;
    }
  }

  lemma EightBytes(p: seq<byte>)
    requires |p| == 8
    ensures FromLittleEndian(p)
         == Assemble(p[0], p[1], p[2], p[3]) + TWO32 * Assemble(p[4], p[5], p[6], p[7])
  {
    assert p[1..][1..] == p[2..] && p[2..][1..] == p[3..] && p[3..][1..] == p[4..];
    FourBytes(p[4..]);
    assert FromLittleEndian(p[3..]) == p[3] + 256 * FromLittleEndian(p[4..]);
    assert FromLittleEndian(p[2..]) == p[2] + 256 * FromLittleEndian(p[3..]);
    assert FromLittleEndian(p[1..]) == p[1] + 256 * FromLittleEndian(p[2..]);
  }

  method DecodeBool(s: IStream) returns (ok: bool, dest: nat)
    requires s.Valid()
    modifies s
    ensures s.Valid() && (ok ==> s.End() == old(s.End()))
    ensures Outcome(ok, dest, s.Window(), DecScalar(Bool, old(s.Window())))
  {
    hide Dec32;
    var value;
    ok, value := DecodeVarint32(s);
    dest := if value != 0 then 1 else 0;
  }

  /** Narrowing to the member's width by a cast, and refusing a value that the cast changes. */
  method DecVarint(s: IStream, sc: Scalar) returns (ok: bool, dest: int)
    requires s.Valid() && (sc.Int? || sc.UInt? || sc.SInt?)
    modifies s
    ensures s.Valid() && (ok ==> s.End() == old(s.End()))
    ensures Outcome(ok, dest, s.Window(), DecScalar(sc, old(s.Window())))
  {
    hide Dec64;
    dest := 0;
    if sc.UInt? {
      var value;
      ok, value := DecodeVarint(s);
      if ok {
        dest := value % Bits(sc.w);
        SmallModulo(value, Bits(sc.w));
        ok := dest == value;
      }
    } else {
      var svalue: int := 0;
      if sc.SInt? {
        ok, svalue := DecodeSVarint(s);
      } else {
        var value;
        ok, value := DecodeVarint(s);
        svalue := if sc.w == 8 then Signed(value, TWO64) else Signed(value, TWO32);
      }
      if ok {
        dest := Signed(svalue, Bits(sc.w));
        ok := dest == svalue;
      }
    }
  }

  lemma SmallModulo(v: nat, size: nat)
    requires size > 0
    ensures v % size == v <==> v < size
  {
  }

  method DecodeNumber(s: IStream, sc: Scalar) returns (ok: bool, n: int)
    requires s.Valid()
    modifies s
    ensures s.Valid() && (ok ==> s.End() == old(s.End()))
    ensures Outcome(ok, n, s.Window(), DecScalar(sc, old(s.Window())))
  {
    hide DecScalar;
    match sc
    case Bool => ok, n := DecodeBool(s);
    case Fixed32 => ok, n := DecodeFixed32(s);
    case Fixed64 => ok, n := DecodeFixed64(s);
    case Int(_) => ok, n := DecVarint(s, sc);
    case UInt(_) => ok, n := DecVarint(s, sc);
    case SInt(_) => ok, n := DecVarint(s, sc);
  }

  // ---------------------------------------------------------------- texts and bytes

  const PB_SIZE_MAX := 0xFFFF

  method DecBytes(s: IStream, cap: nat) returns (ok: bool, dest: seq<byte>)
    requires s.Valid() && cap < 0x1_0000
    modifies s
    ensures s.Valid() && (ok ==> s.End() == old(s.End()))
    ensures var r := DecLen(old(s.Window()));
            if ok then r == Got(dest, s.Window()) && |dest| <= cap else r.Got? ==> |r.value| > cap
  {
    hide Dec32;
    dest := [];
    var size;
    ok, size := DecodeVarint32(s);
    if !ok {
      return;
    }
    if size > PB_SIZE_MAX || size > cap {
      return false, dest;
    }
    ok, dest := s.Read(size);
  }

  /** A text of `size - 1` bytes at most: one is for the terminator. */
  method DecString(s: IStream, size: nat) returns (ok: bool, dest: seq<byte>)
    requires s.Valid() && size < 0x1_0000
    modifies s
    ensures s.Valid() && (ok ==> s.End() == old(s.End()))
    ensures var r := DecLen(old(s.Window()));
            if ok then r == Got(dest, s.Window()) && |dest| < size else r.Got? ==> |r.value| >= size
  {
    hide Dec32;
    dest := [];
    var length;
    ok, length := DecodeVarint32(s);
    if !ok {
      return;
    }
    if length == TWO32 - 1 {
      return false, dest;
    }
    var allocSize := length + 1;
    if allocSize > size {
      return false, dest;
    }
    ok, dest := s.Read(length);
  }

  /** No bytes at all stand for all zeros. */
  method DecFixedLengthBytes(s: IStream, len: nat) returns (ok: bool, dest: seq<byte>)
    requires s.Valid() && 0 < len < 0x1_0000
    modifies s
    ensures s.Valid() && (ok ==> s.End() == old(s.End()))
    ensures var r := DecLen(old(s.Window()));
            if ok then
              && r.Got? && s.Window() == r.rest
              && (if r.value == [] then dest == Zeros(len) else dest == r.value && |dest| == len)
            else r.Got? ==> r.value != [] && |r.value| != len
  {
    hide Dec32;
    dest := [];
    var size;
    ok, size := DecodeVarint32(s);
    if !ok {
      return;
    }
    if size > PB_SIZE_MAX {
      return false, dest;
    }
    if size == 0 {
      return true, Zeros(len);
    }
    if size != len {
      return false, dest;
    }
    ok, dest := s.Read(len);
  }

  // ---------------------------------------------------------------- the required-fields bitmap

  /** The two words hold the set. */
  ghost predicate Tracks(words: seq<nat>, seen: set<nat>) {
    && |words| == 2 && words[0] < Power(32) && words[1] < Power(32)
    && (forall k | 0 <= k < MAX_REQUIRED_FIELDS :: k in seen <==> Bit(words[k / 32], k % 32))
    && (forall k | k in seen :: k < MAX_REQUIRED_FIELDS)
  }

  lemma Marked(words: seq<nat>, seen: set<nat>, k: nat)
    requires Tracks(words, seen) && k < MAX_REQUIRED_FIELDS
    ensures Tracks(words[k / 32 := WithBit(words[k / 32], k % 32)], seen + {k})
  {
    hide Bit, WithBit;
    var w := words[k / 32];
    SetInRange(w, k % 32, 32);
    forall j | 0 <= j < MAX_REQUIRED_FIELDS && j / 32 == k / 32
      ensures Bit(WithBit(w, k % 32), j % 32) <==> j == k || Bit(w, j % 32)
    {
      BitSet(w, k % 32, j % 32);
    }
  }

  method MarkSeen(words: array<nat>, k: nat, ghost seen: set<nat>)
    requires Tracks(words[..], seen) && k < MAX_REQUIRED_FIELDS
    modifies words
    ensures Tracks(words[..], seen + {k})
  {
    ghost var before := words[..];
    words[k / 32] := WithBit(words[k / 32], k % 32);
    assert words[..] == before[k / 32 := WithBit(before[k / 32], k % 32)];
    Marked(before, seen, k);
  }

  /** The low `r` bits of word `j` are set, and no others: a comparison with a mask tells. */
  lemma WordFull(words: seq<nat>, seen: set<nat>, j: nat, r: nat)
    requires Tracks(words, seen) && j < 2 && 0 < r <= 32
    requires r == 32 || forall k | k in seen :: k < 32 * j + r
    ensures words[j] == Power(r) - 1 <==> forall k | 32 * j <= k < 32 * j + r :: k in seen
  {
    forall b | 0 <= b < 32 ensures Bit(words[j], b) <==> 32 * j + b in seen {
      InWord(words, seen, j, b);
    }
    hide Tracks, Bit;
    var ones: nat := Power(r) - 1;
    forall b | 0 <= b < 32 ensures Bit(ones, b) <==> b < r {
      OnesBelow(r, b);
    }
    if words[j] == ones {
      forall k | 32 * j <= k < 32 * j + r ensures k in seen {
        assert Bit(words[j], k - 32 * j);
      }
    }
    if forall k | 32 * j <= k < 32 * j + r :: k in seen {
      PowerRises(r, 32);
      WordInRange(words, seen, j);
      SameBits(words[j], ones, 32);
    }
  }

  lemma WordInRange(words: seq<nat>, seen: set<nat>, j: nat)
    requires Tracks(words, seen) && j < 2
    ensures words[j] < Power(32)
  {
  }

  lemma InWord(words: seq<nat>, seen: set<nat>, j: nat, b: nat)
    requires Tracks(words, seen) && j < 2 && b < 32
    ensures Bit(words[j], b) <==> 32 * j + b in seen
  {
    var k := 32 * j + b;
    assert k / 32 == j && k % 32 == b;
  }

  lemma {:induction false} PowerRises(a: nat, b: nat)
    requires a <= b
    ensures Power(a) <= Power(b)
  {
    if a < b {
      PowerRises(a, b - 1);
    }
  }

  /** Whole words against all ones, what is left over against a mask. */
  method CheckSeen(words: array<nat>, requiredCount: nat, ghost seen: set<nat>) returns (ok: bool)
    requires Tracks(words[..], seen) && forall k | k in seen :: k < requiredCount
    ensures ok <==> forall k | 0 <= k < requiredCount && k < MAX_REQUIRED_FIELDS :: k in seen
  {
    Power32();
    hide Tracks, Bit;
    TracksTwo(words[..], seen);
    var req := if requiredCount > MAX_REQUIRED_FIELDS then MAX_REQUIRED_FIELDS else requiredCount;
    var i := 0;
    while i < req / 32
      invariant i <= req / 32
      invariant forall k | 0 <= k < 32 * i :: k in seen
    {
      WordFull(words[..], seen, i, 32);
      if words[i] != 0xFFFF_FFFF {
        return false;
      }
      i := i + 1;
    }
    if req % 32 != 0 {
      WordFull(words[..], seen, req / 32, req % 32);
      if words[req / 32] != Power(req % 32) - 1 {
        return false;
      }
    }
    ok := true;
  }

  lemma TracksTwo(words: seq<nat>, seen: set<nat>)
    requires Tracks(words, seen)
    ensures |words| == 2 && forall k | k in seen :: k < MAX_REQUIRED_FIELDS
  {
  }

  // ---------------------------------------------------------------- fields

  /** Items of a packed array, while there are bytes and room. Bytes left over are an overflow. */
  method DecodePackedArray(substream: IStream, sc: Scalar, max: nat, vs: seq<Value>) returns (ok: bool, ws: seq<Value>)
    requires substream.Valid()
    requires forall v | v in vs :: TypedValue(Num(sc), v)
    modifies substream
    ensures substream.Valid() && (ok ==> substream.End() == old(substream.End()))
    ensures DecPacked(sc, max, vs, old(substream.Window())) == if ok then Some(ws) else None
    ensures ok ==> substream.bytesLeft == 0
  {
    hide DecScalar;
    ws := vs;
    while substream.bytesLeft > 0 && |ws| < max
      invariant substream.Valid() && substream.End() == old(substream.End())
      invariant forall v | v in ws :: TypedValue(Num(sc), v)
      invariant DecPacked(sc, max, vs, old(substream.Window())) == DecPacked(sc, max, ws, substream.Window())
      decreases substream.bytesLeft
    {
      ghost var p := substream.Window();
      var n;
      ok, n := DecodeNumber(substream, sc);
      if !ok {
        return;
      }
      ws := ws + [Number(n)];
    }
    ok := substream.bytesLeft == 0;
  }

  method DecSubmessage(layout: Layout, s: IStream, desc: Desc, m: Message, init: bool) returns (ok: bool, r: Message)
    requires s.Valid() && LaidOut(layout, desc) && SizesOk(desc) && Typed(desc, m)
    modifies s
    ensures s.Valid() && (ok ==> s.End() == old(s.End()))
    ensures var p := DecLen(old(s.Window()));
      if ok then p.Got? && DecMessage(desc, m, init, p.value) == Some(r) && s.Window() == p.rest
      else p.Got? ==> DecMessage(desc, m, init, p.value) == None
    decreases desc, 10
  {
    hide DecMessage, DecLen, LaidOut, SizesOk, Typed;
    r := m;
    var substream;
    ok, substream := MakeStringSubstream(s);
    if !ok {
      return;
    }
    ok, r := DecodeInner(layout, substream, desc, m, init);
    if !ok {
      return;
    }
    var closed := CloseStringSubstream(s, substream);
  }

  method DecodeBasicField(layout: Layout, s: IStream, wt: nat, k: Kind, desc: Option<Desc>, old_: Value, init: bool)
    returns (ok: bool, v: Value)
    requires s.Valid() && LaidOutKind(layout, k) && KindOk(k)
    requires HasDesc(k) ==> desc == Some(k.d)
    requires TypedValue(k, old_) && !k.CbStrings? && !k.CbMessages?
    modifies s
    ensures s.Valid() && (ok ==> s.End() == old(s.End()))
    ensures Outcome(ok, v, s.Window(), DecValue(k, wt, old_, init, old(s.Window())))
    decreases k, 1
  {
    hide DecScalar, DecLen, DecMessage, LaidOut, SizesOk;
    v := old_;
    ok := false;
    if wt != WireType(k) {
      return;
    }
    match k
    case Num(sc) =>
      var n;
      ok, n := DecodeNumber(s, sc);
      v := Number(n);
    case Bytes(cap) =>
      var p;
      ok, p := DecBytes(s, cap);
      v := Blob(p);
    case Str(size) =>
      var p;
      ok, p := DecString(s, size);
      v := Blob(p);
    case FixedBytes(n) =>
      var p;
      ok, p := DecFixedLengthBytes(s, n);
      v := Blob(p);
    case Sub(d) =>
      var m;
      ok, m := DecSubmessage(layout, s, desc.value, old_.m, init);
      v := Msg(m);
  }

  method DecodeStaticField(layout: Layout, s: IStream, wt: nat, f: Field, desc: Option<Desc>, sl: Slot)
    returns (ok: bool, r: Slot)
    requires s.Valid() && LaidOutKind(layout, f.kind) && KindOk(f.kind)
    requires HasDesc(f.kind) ==> desc == Some(f.kind.d)
    requires TypedSlot(f, sl) && !f.IsCallback()
    modifies s
    ensures s.Valid() && (ok ==> s.End() == old(s.End()))
    ensures Outcome(ok, r, s.Window(), DecField(f, wt, sl, old(s.Window())))
    decreases f, 2
  {
    hide DecValue, DecLen, DecPacked, DecMessage;
    r := sl;
    var v;
    match f.rule {
      case Required =>
        ok, v := DecodeBasicField(layout, s, wt, f.kind, desc, sl.v, false);
        r := Req(v);
      case Optional =>
        ok, v := DecodeBasicField(layout, s, wt, f.kind, desc, sl.v, false);
        r := Opt(true, v);
      case Repeated(max) =>
        if wt == WT_STRING && f.IsPackable() {
          var substream;
          ok, substream := MakeStringSubstream(s);
          if !ok {
            return;
          }
          var ws;
          ok, ws := DecodePackedArray(substream, f.kind.sc, max, sl.vs);
          if !ok {
            return;
          }
          var closed := CloseStringSubstream(s, substream);
          r := Rep(ws);
        } else {
          if |sl.vs| >= max {
            return false, r;
          }
          ok, v := DecodeBasicField(layout, s, wt, f.kind, desc, ZeroValue(f.kind), true);
          r := Rep(sl.vs + [v]);
        }
    }
  }

  /** One call of the user's callback: no callback, the string list, or the message list. */
  method FieldCallback(layout: Layout, substream: IStream, k: Kind, desc: Option<Desc>, vs: seq<Value>)
    returns (ok: bool, ws: seq<Value>)
    requires substream.Valid() && LaidOutKind(layout, k) && KindOk(k)
    requires HasDesc(k) ==> desc == Some(k.d)
    requires k.CbNone? || k.CbStrings? || k.CbMessages?
    requires forall v | v in vs :: TypedValue(k, v)
    modifies substream
    ensures substream.Valid() && (ok ==> substream.End() == old(substream.End()))
    ensures ok ==> forall v | v in ws :: TypedValue(k, v)
    ensures RunCallback(k, vs, old(substream.Window())) == if ok then Some(ws) else None
    ensures ok ==> RunCallback(k, ws, substream.Window()) == Some(ws)
    decreases k, 1
  {
    hide DecMessage, LaidOut, SizesOk;
    ws := vs;
    ok := true;
    match k {
      case CbNone =>
      case CbStrings =>
        while substream.bytesLeft > 0
          invariant ok && substream.Valid() && substream.End() == old(substream.End())
          invariant forall v | v in ws :: TypedValue(k, v)
          invariant RunCallback(k, vs, old(substream.Window())) == RunCallback(k, ws, substream.Window())
          decreases substream.bytesLeft
        {
          var size := substream.bytesLeft;
          ghost var w := substream.Window();
          var p;
          ok, p := substream.Read(size);
          assert p == w;
          ws := ws + [Blob(p)];
        }
      case CbMessages(_) =>
        if substream.bytesLeft > 0 {
          var m;
          ok, m := DecodeInner(layout, substream, desc.value, ZeroMessage(desc.value), true);
          if ok {
            ws := ws + [Msg(m)];
          }
        }
    }
  }

  /** The callback is called until it has nothing left or stops making progress. */
  method DecodeCallbackField(layout: Layout, s: IStream, wt: nat, f: Field, desc: Option<Desc>, sl: Slot)
    returns (ok: bool, r: Slot)
    requires s.Valid() && LaidOutKind(layout, f.kind) && KindOk(f.kind)
    requires HasDesc(f.kind) ==> desc == Some(f.kind.d)
    requires TypedSlot(f, sl) && f.IsCallback()
    modifies s
    ensures s.Valid() && (ok ==> s.End() == old(s.End()))
    ensures Outcome(ok, r, s.Window(), DecField(f, wt, sl, old(s.Window())))
    decreases f, 2
  {
    hide DecLen, Raw, RunCallback, DecMessage;
    r := sl;
    var ws := sl.vs;
    if wt == WT_STRING {
      var substream;
      ok, substream := MakeStringSubstream(s);
      if !ok {
        return;
      }
      ghost var p, end := substream.Window(), substream.End();
      while true
        modifies substream
        invariant substream.Valid() && substream.End() == end && fresh(substream)
        invariant forall v | v in ws :: TypedValue(f.kind, v)
        invariant RunCallback(f.kind, ws, substream.Window()) == RunCallback(f.kind, sl.vs, p)
        decreases substream.bytesLeft
      {
        var previous := substream.bytesLeft;
        ok, ws := FieldCallback(layout, substream, f.kind, desc, ws);
        if !ok {
          return;
        }
        if !(0 < substream.bytesLeft < previous) {
          break;
        }
      }
      var closed := CloseStringSubstream(s, substream);
    } else {
      var buffer;
      ok, buffer := ReadRawValue(s, wt);
      if !ok {
        return;
      }
      var substream := new IStream.FromBuffer(buffer, |buffer|);
      ok, ws := FieldCallback(layout, substream, f.kind, desc, ws);
    }
    r := Rep(ws);
  }

  method DecodeField(layout: Layout, s: IStream, wt: nat, f: Field, desc: Option<Desc>, sl: Slot)
    returns (ok: bool, r: Slot)
    requires s.Valid() && LaidOutKind(layout, f.kind) && KindOk(f.kind)
    requires HasDesc(f.kind) ==> desc == Some(f.kind.d)
    requires TypedSlot(f, sl)
    modifies s
    ensures s.Valid() && (ok ==> s.End() == old(s.End()))
    ensures Outcome(ok, r, s.Window(), DecField(f, wt, sl, old(s.Window())))
    decreases f, 3
  {
    hide DecField;
    if f.IsCallback() {
      ok, r := DecodeCallbackField(layout, s, wt, f, desc, sl);
    } else {
      ok, r := DecodeStaticField(layout, s, wt, f, desc, sl);
    }
  }

  // ---------------------------------------------------------------- defaults

  /** Neither default values nor callback or submessage members: all zeros is the initial state. */
  predicate AllPlain(d: Desc) {
    d.defaults == [] && forall f | f in d.fields :: !f.IsCallback() && !HasDesc(f.kind)
  }

  lemma PlainIsZero(d: Desc, m: Message)
    requires AllPlain(d) && Typed(d, m)
    ensures SetDefaults(d, m) == Some(ZeroMessage(d))
  {
    if d.fields == [] {
      assert m == ZeroMessage(d);
    } else {
      PlainFrom(d, m, 0);
    }
  }

  lemma {:induction false} PlainFrom(d: Desc, m: Message, i: nat)
    requires AllPlain(d) && Typed(d, m) && i <= |m|
    requires forall j | 0 <= j < i :: m[j] == ZeroMessage(d)[j]
    ensures DefaultsFrom(d, m, i, 0, 0, []) == Some(ZeroMessage(d))
    decreases |m| - i
  {
    if i == |m| {
      assert m == ZeroMessage(d);
    } else {
      assert d.fields[i] in d.fields;
      assert ClearSlot(d.fields[i], m[i]) == Some(ZeroSlot(d.fields[i]));
      PlainFrom(d, m[i := ZeroSlot(d.fields[i])], i + 1);
    }
  }

  /** Clear one member. A submessage is only gone through if zeros would not do for it. */
  method FieldSetToDefault(layout: Layout, f: Field, desc: Option<Desc>, sl: Slot) returns (ok: bool, r: Slot)
    requires LaidOutKind(layout, f.kind) && KindOk(f.kind) && TypedSlot(f, sl)
    requires HasDesc(f.kind) ==> desc == Some(f.kind.d)
    ensures ClearSlot(f, sl) == if ok then Some(r) else None
    decreases f, 1
  {
    hide SetDefaults, LaidOut, SizesOk;
    ok := true;
    if f.IsCallback() {
      r := sl;
    } else if f.rule.Repeated? {
      r := Rep([]);
    } else {
      var v := ZeroValue(f.kind);
      if f.kind.Sub? {
        if AllPlain(desc.value) {
          PlainIsZero(desc.value, sl.v.m);
        } else {
          var iter, more := StartWalk(layout, desc.value);
          var m := sl.v.m;
          if more {
            ok, m := MessageSetToDefaults(layout, desc.value, m, iter);
          } else {
            NoFields(desc.value, m);
          }
          v := Msg(m);
        }
      }
      r := if f.rule.Optional? then Opt(false, v) else Req(v);
    }
  }

  lemma NoFields(d: Desc, m: Message)
    requires d.fields == [] && Typed(d, m)
    ensures SetDefaults(d, m) == Some(m)
  {
  }

  /** The default values, opened at the first of them. */
  method OpenDefaults(d: Desc, ghost m: Message) returns (ok: bool, defstream: IStream, wt: nat, tag: nat)
    requires Typed(d, m) && |d.fields| > 0
    ensures defstream.Valid() && fresh(defstream)
    ensures SetDefaults(d, m) == if ok then DefaultsFrom(d, m, 0, tag, wt, defstream.Window()) else None
  {
    hide DecTag, DefaultsFrom, Typed;
    defstream := new IStream.FromBuffer(d.defaults, |d.defaults|);
    tag, wt := 0, WT_VARINT;
    ok := true;
    if d.defaults != [] {
      var eof;
      ok, wt, tag, eof := DecodeTag(defstream);
    }
  }

  /** Clear every member in turn, and decode a default value into those that the table has one for. */
  method MessageSetToDefaults(layout: Layout, d: Desc, m: Message, iter: FieldIter<Desc>) returns (ok: bool, r: Message)
    requires LaidOut(layout, d) && SizesOk(d) && Typed(d, m)
    requires Stands(iter, layout, d, 0, true)
    modifies iter
    ensures SetDefaults(d, m) == if ok then Some(r) else None
    ensures ok ==> Ready(iter, layout, d)
    decreases d, 5
  {
    StandsInside(iter, layout, d, 0, true);
    hide DecTag, LaidOut, SizesOk, Stands, Ready, DefaultsFrom, SetDefaults, Typed, Rows, DescriptorOf;
    r := m;
    var defstream, wt, tag;
    ok, defstream, wt, tag := OpenDefaults(d, m);
    if !ok {
      return;
    }
    ok, r := DefaultAll(layout, d, m, iter, defstream, wt, tag);
  }

  /** The walk over all fields. */
  method DefaultAll(layout: Layout, d: Desc, m: Message, iter: FieldIter<Desc>, defstream: IStream, wt0: nat, tag0: nat)
    returns (ok: bool, r: Message)
    requires LaidOut(layout, d) && SizesOk(d) && Typed(d, m) && |d.fields| > 0
    requires Stands(iter, layout, d, 0, true) && defstream.Valid()
    modifies iter, defstream
    ensures DefaultsFrom(d, m, 0, tag0, wt0, old(defstream.Window())) == if ok then Some(r) else None
    ensures ok ==> Ready(iter, layout, d)
    decreases d, 4
  {
    assert |m| == |d.fields|;
    hide LaidOut, SizesOk, Stands, Ready, DefaultsFrom, Typed, Rows, DescriptorOf;
    r := m;
    var wt, tag := wt0, tag0;
    var more := true;
    var i := 0;
    while more
      invariant i <= |d.fields| && (more <==> i < |d.fields|) && Stands(iter, layout, d, i, more)
      invariant defstream.Valid() && Typed(d, r) && |r| == |d.fields|
      invariant DefaultsFrom(d, m, 0, tag0, wt0, old(defstream.Window()))
              == DefaultsFrom(d, r, i, tag, wt, defstream.Window())
      decreases |d.fields| - i
    {
      ok, wt, tag, r := DefaultOne(layout, d, r, iter, i, defstream, wt, tag);
      if !ok {
        return;
      }
      more := WalkOn(iter, layout, d, i);
      i := i + 1;
    }
    WalkDone(iter, layout, d, i);
    DefaultsDone(d, r, tag, wt, defstream.Window());
    ok := true;
  }

  lemma DefaultsDone(d: Desc, m: Message, tag: nat, wt: nat, ds: seq<byte>)
    requires Typed(d, m)
    ensures DefaultsFrom(d, m, |d.fields|, tag, wt, ds) == Some(m)
  {
  }

  lemma DefaultStep(d: Desc, m: Message, i: nat, tag: nat, wt: nat, ds: seq<byte>)
    requires Typed(d, m) && i < |d.fields|
    ensures TypedSlot(d.fields[i], m[i])
    ensures var f := d.fields[i];
      && (ClearSlot(f, m[i]).None? ==> DefaultsFrom(d, m, i, tag, wt, ds) == None)
      && (ClearSlot(f, m[i]).Some? ==>
            var sl := ClearSlot(f, m[i]).value;
            if tag == 0 || f.tag != tag then
              Typed(d, m[i := sl])
                  && DefaultsFrom(d, m, i, tag, wt, ds) == DefaultsFrom(d, m[i := sl], i + 1, tag, wt, ds)
            else match DecField(f, wt, sl, ds)
              case Fail => DefaultsFrom(d, m, i, tag, wt, ds) == None
              case Got(sl', rest) =>
                match DecTag(rest)
                case Fail => DefaultsFrom(d, m, i, tag, wt, ds) == None
                case Got(key, rest') =>
                  && Typed(d, m[i := ClearHas(f, sl')])
                  && DefaultsFrom(d, m, i, tag, wt, ds)
                     == DefaultsFrom(d, m[i := ClearHas(f, sl')], i + 1, key.0, key.1, rest'))
  {
  }

  method DefaultOne(layout: Layout, d: Desc, m: Message, iter: FieldIter<Desc>, i: nat, defstream: IStream, wt0: nat,
      tag0: nat)
    returns (ok: bool, wt: nat, tag: nat, r: Message)
    requires LaidOut(layout, d) && SizesOk(d) && Typed(d, m) && i < |d.fields|
    requires Stands(iter, layout, d, i, true) && defstream.Valid()
    modifies defstream
    ensures defstream.Valid() && Typed(d, r) && |r| == |d.fields|
    ensures DefaultsFrom(d, m, i, tag0, wt0, old(defstream.Window()))
         == if ok then DefaultsFrom(d, r, i + 1, tag, wt, defstream.Window()) else None
    decreases d, 3
  {
    FieldInUse(iter, layout, d, i);
    DefaultStep(d, m, i, tag0, wt0, defstream.Window());
    assert KindOk(d.fields[i].kind);
    hide DecTag, LaidOut, SizesOk, ClearSlot, DecField, Stands, Typed, DefaultsFrom, ClearHas, Rows, DescriptorOf;
    wt, tag, r := wt0, tag0, m;
    var f, sl := d.fields[i], m[i];
    ok, sl := FieldSetToDefault(layout, f, iter.submsgDesc, sl);
    if !ok {
      return;
    }
    if tag != 0 && iter.tag == tag {
      ok, sl := DecodeField(layout, defstream, wt, f, iter.submsgDesc, sl);
      if !ok {
        return;
      }
      var eof;
      ok, wt, tag, eof := DecodeTag(defstream);
      if !ok {
        return;
      }
      sl := ClearHas(f, sl);
    }
    r := m[i := sl];
  }

  /** The iterator is on some row of the table of `d`. */
  ghost predicate Ready(iter: FieldIter<Desc>, layout: Layout, d: Desc)
    reads iter
  {
    iter.Coherent() && iter.fs == Rows(layout, d) && iter.descriptor == DescriptorOf(layout, d)
  }

  lemma WalkDone(iter: FieldIter<Desc>, layout: Layout, d: Desc, i: nat)
    requires Stands(iter, layout, d, i, false)
    ensures Ready(iter, layout, d)
  {
  }

  // ---------------------------------------------------------------- messages

  const NO_EXTENSIONS := 0xFFFF_FFFF

  /** Every bit on record is that of a required field of the table. */
  ghost predicate OnlyRequired(d: Desc, seen: set<nat>) {
    forall k | k in seen :: k < RequiredCount(d)
  }

  lemma SeenStaysRequired(d: Desc, i: nat, seen: set<nat>)
    requires i < |d.fields| && OnlyRequired(d, seen)
    ensures OnlyRequired(d, SeeField(d, i, seen))
  {
    if d.fields[i].rule.Required? {
      RequiredIndexRises(d, i, |d.fields|);
    }
  }

  method FindField(layout: Layout, d: Desc, iter: FieldIter<Desc>, tag: nat) returns (found: bool)
    requires LaidOut(layout, d) && Ready(iter, layout, d) && tag != 0
    modifies iter
    ensures Ready(iter, layout, d)
    ensures if found then FindTag(d, tag) == Some(iter.index) && Stands(iter, layout, d, iter.index, true)
            else FindTag(d, tag) == None
  {
    DescriptorFits(layout, d);
    SearchAgrees(Rows(layout, d), d, tag);
    hide LaidOut, FindTag, DescriptorOf, Rows, AllFit, PackAll, Searchable, HasTag;
    found := iter.Find(tag);
  }

  /** The field is marked as seen if it is required, and decoded over what the structure holds. */
  method DecodeFound(layout: Layout, s: IStream, d: Desc, m: Message, iter: FieldIter<Desc>, i: nat, wt: nat,
      words: array<nat>, ghost seen: set<nat>)
    returns (ok: bool, r: Message, ghost seen': set<nat>)
    requires s.Valid() && LaidOut(layout, d) && SizesOk(d) && Typed(d, m) && i < |d.fields| == |m|
    requires Stands(iter, layout, d, i, true)
    requires Tracks(words[..], seen) && OnlyRequired(d, seen)
    modifies s, words
    ensures s.Valid() && (ok ==> s.End() == old(s.End()))
    ensures Tracks(words[..], seen') && OnlyRequired(d, seen')
    ensures TypedSlot(d.fields[i], m[i])
    ensures var dec := DecField(d.fields[i], wt, m[i], old(s.Window()));
      && (ok <==> dec.Got?)
      && (ok ==> r == m[i := dec.value] && seen' == SeeField(d, i, seen) && s.Window() == dec.rest)
    decreases d, 5
  {
    FieldInUse(iter, layout, d, i);
    SeenStaysRequired(d, i, seen);
    assert TypedSlot(d.fields[i], m[i]) && KindOk(d.fields[i].kind);
    hide LaidOut, SizesOk, DecField, Tracks, OnlyRequired, Stands, Typed;
    seen' := seen;
    if IsRequired(iter.ftype) && iter.requiredFieldIndex < MAX_REQUIRED_FIELDS {
      MarkSeen(words, iter.requiredFieldIndex, seen);
      seen' := seen + {iter.requiredFieldIndex};
    }
    assert seen' == SeeField(d, i, seen);
    var sl;
    ok, sl := DecodeField(layout, s, wt, d.fields[i], iter.submsgDesc, m[i]);
    r := m;
    if ok {
      r := m[i := sl];
    }
  }

  /** A step on an unknown field number. */
  lemma StepUnknown(d: Desc, st: State, w: seq<byte>, tag: nat, wt: nat, t: seq<byte>)
    requires Typed(d, st.m) && DecTag(w) == Got((tag, wt), t) && tag != 0 && FindTag(d, tag) == None
    ensures Step(d, st, w) == if Skip(wt, t).Got? then Got(st, Skip(wt, t).rest) else Fail
  {
  }

  lemma StepKnown(d: Desc, st: State, w: seq<byte>, tag: nat, wt: nat, t: seq<byte>, i: nat)
    requires Typed(d, st.m) && DecTag(w) == Got((tag, wt), t) && tag != 0 && FindTag(d, tag) == Some(i)
    ensures i < |d.fields| == |st.m| && TypedSlot(d.fields[i], st.m[i])
    ensures var dec := DecField(d.fields[i], wt, st.m[i], t);
      Step(d, st, w) == if dec.Got? then Got(State(st.m[i := dec.value], SeeField(d, i, st.seen)), dec.rest) else Fail
  {
  }

  lemma StepBad(d: Desc, st: State, w: seq<byte>)
    requires Typed(d, st.m)
    requires DecTag(w) == Fail || (DecTag(w).Got? && DecTag(w).value.0 == 0)
    ensures Step(d, st, w) == Fail
  {
  }

  /**
   One field: its tag, the search in the table, and then either the field's decoder or a skip.
   The iterator is left where the search ended, and the next search starts from there.
   */
  method DecodeOne(layout: Layout, s: IStream, d: Desc, m: Message, iter: FieldIter<Desc>, words: array<nat>,
      extensionRangeStart: nat, ghost seen: set<nat>)
    returns (ok: bool, r: Message, extensionRangeStart': nat, ghost seen': set<nat>)
    requires s.Valid() && LaidOut(layout, d) && SizesOk(d) && Typed(d, m) && Ready(iter, layout, d)
    requires s.bytesLeft > 0 && Tracks(words[..], seen) && OnlyRequired(d, seen)
    requires extensionRangeStart == 0 || extensionRangeStart == NO_EXTENSIONS
    modifies s, iter, words
    ensures s.Valid() && (ok ==> s.End() == old(s.End()))
    ensures Ready(iter, layout, d) && Tracks(words[..], seen') && OnlyRequired(d, seen')
    ensures extensionRangeStart' == 0 || extensionRangeStart' == NO_EXTENSIONS
    ensures Outcome(ok, State(r, seen'), s.Window(), Step(d, State(m, seen), old(s.Window())))
    decreases d, 6
  {
    hide DecTag, LaidOut, SizesOk, DecField, Skip, FindTag, SeeField, Tracks, OnlyRequired, DescriptorOf, Rows;
    hide Stands, Step, Typed;
    r, seen', extensionRangeStart' := m, seen, extensionRangeStart;
    ghost var w, st := s.Window(), State(m, seen);
    var wt, tag, eof;
    ok, wt, tag, eof := DecodeTag(s);
    assert !eof;
    if !ok || tag == 0 {
      StepBad(d, st, w);
      return false, r, extensionRangeStart', seen';
    }
    ghost var t := s.Window();
    var found := FindField(layout, d, iter, tag);
    if !found {
      StepUnknown(d, st, w, tag, wt, t);
      if extensionRangeStart' == 0 {
        var extension := iter.FindExtension();
        extensionRangeStart' := NO_EXTENSIONS;
      }
      assert tag < extensionRangeStart';
      ok := SkipField(s, wt);
      return;
    }
    var i := iter.index;
    StepKnown(d, st, w, tag, wt, t, i);
    ok, r, seen' := DecodeFound(layout, s, d, m, iter, i, wt, words, seen);
  }

  /** Field after field until the window is empty. */
  method DecodeFields(layout: Layout, s: IStream, d: Desc, base: Message, iter: FieldIter<Desc>, words: array<nat>)
    returns (ok: bool, r: Message, ghost seen: set<nat>)
    requires s.Valid() && LaidOut(layout, d) && SizesOk(d) && Typed(d, base) && Ready(iter, layout, d)
    requires words[..] == [0, 0]
    modifies s, iter, words
    ensures s.Valid() && (ok ==> s.End() == old(s.End()) && s.bytesLeft == 0)
    ensures Tracks(words[..], seen) && OnlyRequired(d, seen)
    ensures Run(d, State(base, {}), old(s.Window())) == if ok then Some(State(r, seen)) else None
    decreases d, 7
  {
    hide LaidOut, SizesOk, Step, Tracks, OnlyRequired, Ready, Typed;
    r, seen := base, {};
    NothingSeen(d, words[..]);
    var extensionRangeStart := 0;
    while s.bytesLeft > 0
      invariant s.Valid() && s.End() == old(s.End()) && Typed(d, r)
      invariant Ready(iter, layout, d)
      invariant Tracks(words[..], seen) && OnlyRequired(d, seen)
      invariant extensionRangeStart == 0 || extensionRangeStart == NO_EXTENSIONS
      invariant Run(d, State(base, {}), old(s.Window())) == Run(d, State(r, seen), s.Window())
      decreases s.bytesLeft
    {
      ok, r, extensionRangeStart, seen := DecodeOne(layout, s, d, r, iter, words, extensionRangeStart, seen);
      if !ok {
        return;
      }
    }
    ok := true;
  }

  /** The structure as initialised, unless the caller has done that. */
  method StartMessage(layout: Layout, d: Desc, m: Message, init: bool)
    returns (ok: bool, r: Message, iter: FieldIter<Desc>)
    requires LaidOut(layout, d) && SizesOk(d) && Typed(d, m)
    ensures fresh(iter) && (ok ==> Ready(iter, layout, d) && Typed(d, r))
    ensures (if init then SetDefaults(d, m) else Some(m)) == if ok then Some(r) else None
    decreases d, 7
  {
    hide LaidOut, SizesOk, SetDefaults, DescriptorOf, Rows;
    ok, r := true, m;
    var more;
    iter, more := StartWalk(layout, d);
    if more {
      if init {
        ok, r := MessageSetToDefaults(layout, d, m, iter);
      }
    } else {
      NoFields(d, m);
    }
  }

  /** What follows the initialisation answers: the last state's message, if every required field was seen. */
  ghost predicate Answered(d: Desc, base: Message, w: seq<byte>, ok: bool, r: Message)
    requires Typed(d, base)
  {
    var o := Run(d, State(base, {}), w);
    ok == (o.Some? && AllRequiredSeen(d, o.value.seen)) && (ok ==> o.value.m == r)
  }

  lemma AnsweredBy(d: Desc, base: Message, w: seq<byte>, st: State, ok: bool)
    requires Typed(d, base) && Run(d, State(base, {}), w) == Some(st)
    requires ok <==> forall k | 0 <= k < RequiredCount(d) && k < MAX_REQUIRED_FIELDS :: k in st.seen
    ensures Answered(d, base, w, ok, st.m)
  {
  }

  lemma NotAnswered(d: Desc, base: Message, w: seq<byte>, r: Message)
    requires Typed(d, base) && Run(d, State(base, {}), w) == None
    ensures Answered(d, base, w, false, r)
  {
  }

  /** All fields, then the check that no required field is missing. */
  method DecodeBody(layout: Layout, s: IStream, d: Desc, base: Message, iter: FieldIter<Desc>)
    returns (ok: bool, r: Message)
    requires s.Valid() && LaidOut(layout, d) && SizesOk(d) && Typed(d, base) && Ready(iter, layout, d)
    modifies s, iter
    ensures s.Valid() && (ok ==> s.End() == old(s.End()) && s.bytesLeft == 0)
    ensures Answered(d, base, old(s.Window()), ok, r)
    decreases d, 8
  {
    DescriptorFits(layout, d);
    hide LaidOut, SizesOk, Run, Tracks, OnlyRequired, DescriptorOf, Rows, Typed, AllRequiredSeen, Answered;
    ghost var w := s.Window();
    var requiredFieldCount := iter.descriptor.requiredFieldCount;
    var words := new nat[2] [0, 0];
    ghost var seen;
    ok, r, seen := DecodeFields(layout, s, d, base, iter, words);
    if !ok {
      NotAnswered(d, base, w, r);
      return;
    }
    RequiredOnly(d, seen);
    ok := CheckSeen(words, requiredFieldCount, seen);
    AnsweredBy(d, base, w, State(r, seen), ok);
  }

  /**
   A whole message: initialise unless told not to, then field after field until the window is
   empty, then the check that no required field is missing.
   */
  method DecodeInner(layout: Layout, s: IStream, d: Desc, m: Message, init: bool) returns (ok: bool, r: Message)
    requires s.Valid() && LaidOut(layout, d) && SizesOk(d) && Typed(d, m)
    modifies s
    ensures s.Valid() && (ok ==> s.End() == old(s.End()) && s.bytesLeft == 0)
    ensures DecMessage(d, m, init, old(s.Window())) == if ok then Some(r) else None
    decreases d, 9
  {
    hide LaidOut, SizesOk, SetDefaults, Ready, DecMessage, Typed, Answered;
    ghost var w := s.Window();
    var iter;
    ok, r, iter := StartMessage(layout, d, m, init);
    if !ok {
      Unstarted(d, m, init, w);
      return;
    }
    ghost var base := r;
    ok, r := DecodeBody(layout, s, d, r, iter);
    Finished(d, m, init, w, base, ok, r);
  }

  lemma Unstarted(d: Desc, m: Message, init: bool, w: seq<byte>)
    requires Typed(d, m) && init && SetDefaults(d, m) == None
    ensures DecMessage(d, m, init, w) == None
  {
  }

  lemma Finished(d: Desc, m: Message, init: bool, w: seq<byte>, base: Message, ok: bool, r: Message)
    requires Typed(d, m) && Typed(d, base) && (if init then SetDefaults(d, m) else Some(m)) == Some(base)
    requires Answered(d, base, w, ok, r)
    ensures DecMessage(d, m, init, w) == if ok then Some(r) else None
  {
  }

  lemma RequiredOnly(d: Desc, seen: set<nat>)
    requires OnlyRequired(d, seen)
    ensures forall k | k in seen :: k < RequiredCount(d)
  {
  }

  lemma NothingSeen(d: Desc, words: seq<nat>)
    requires words == [0, 0]
    ensures Tracks(words, {}) && OnlyRequired(d, {})
  {
    forall k | 0 <= k < MAX_REQUIRED_FIELDS ensures !Bit(words[k / 32], k % 32) {
      NoBits(k % 32);
    }
  }
}
