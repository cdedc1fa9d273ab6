/** Single fields, as written and as read. */
module FieldLaws {
  import opened Prelude
  import opened Wire
  import opened WireLaws
  import opened Schema
  import opened Codec
  import opened CodecLaws
  import opened Merge

  // ---------------------------------------------------------------- written fields

  lemma VarintIsOne(v: nat)
    ensures IsVarint(Varint(v))
  {
    VarintEnds(v, []);
    assert Varint(v) + [] == Varint(v);
    LenExact(Varint(v), |Varint(v)|);
    assert Varint(v)[..|Varint(v)|] == Varint(v);
  }

  lemma PrefixedIsBody(p: seq<byte>)
    requires |p| < TWO32
    ensures IsBody(WT_STRING, LenPrefixed(p))
  {
    Varint32RoundTrip(|p|, p);
  }

  lemma ScalarIsBody(sc: Scalar, n: int)
    ensures IsBody(WireType(Num(sc)), EncScalar(sc, n))
  {
    match sc
    case Bool => VarintIsOne(if n != 0 then 1 else 0);
    case Int(_) => VarintIsOne(Unsigned(n, TWO64));
    case UInt(_) => VarintIsOne(Unsigned(n, TWO64));
    case SInt(_) => VarintIsOne(ZigZag(Signed(n, TWO64)));
    case Fixed32 =>
    case Fixed64 =>
  }

  /** Every value is written as one whole body of its wire type. */
  lemma ValueIsBody(k: Kind, v: Value)
    requires TypedValue(k, v) && EncValue(k, v).Some? && |EncValue(k, v).value| < TWO32
    ensures IsBody(WireType(k), EncValue(k, v).value)
  {
    match k
    case Num(sc) => ScalarIsBody(sc, v.n);
    case Bytes(_) => PrefixedIsBody(v.bs);
    case Str(_) => PrefixedIsBody(CString(v.bs));
    case FixedBytes(_) => PrefixedIsBody(v.bs);
    case CbStrings => PrefixedIsBody(CString(v.bs));
    case Sub(d) => PrefixedIsBody(EncMessage(d, v.m).value);
    case CbMessages(d) => PrefixedIsBody(EncMessage(d, v.m).value);
  }

  /** So a value is skipped as a whole, whatever follows, and so is a packed array. */
  lemma SkipValue(k: Kind, v: Value, rest: seq<byte>)
    requires TypedValue(k, v) && EncValue(k, v).Some? && |EncValue(k, v).value| < TWO32
    ensures Skip(WireType(k), EncValue(k, v).value + rest) == Got((), rest)
  {
    ValueIsBody(k, v);
    SkipBody(WireType(k), EncValue(k, v).value, rest);
  }

  lemma SkipPacked(sc: Scalar, vs: seq<Value>, rest: seq<byte>)
    requires forall v | v in vs :: TypedValue(Num(sc), v)
    requires |EncPackedItems(sc, vs)| < TWO32
    ensures Skip(WT_STRING, LenPrefixed(EncPackedItems(sc, vs)) + rest) == Got((), rest)
  {
    PrefixedIsBody(EncPackedItems(sc, vs));
    SkipBody(WT_STRING, LenPrefixed(EncPackedItems(sc, vs)), rest);
  }

  /** An item is its tag, with the wire type of its kind, and one body. */
  lemma ItemOnWire(f: Field, v: Value)
    requires TypedValue(f.kind, v) && 0 < f.tag < 0x2000_0000
    requires EncValue(f.kind, v).Some? && |EncValue(f.kind, v).value| < TWO32
    ensures EncItem(f, v).Some?
    ensures DecTag(EncItem(f, v).value) == Got((f.tag, WireType(f.kind)), EncValue(f.kind, v).value)
    ensures IsBody(WireType(f.kind), EncValue(f.kind, v).value)
  {
    ValueIsBody(f.kind, v);
    TagRoundTrip(f.tag, WireType(f.kind), EncValue(f.kind, v).value);
  }

  /** An item that some other table wrote, under a number that this one does not have, is ignored. */
  lemma UnknownItemIgnored(d: Desc, m: Message, init: bool, p: seq<byte>, f: Field, v: Value, q: seq<byte>)
    requires Typed(d, m) && TypedValue(f.kind, v) && 0 < f.tag < 0x2000_0000
    requires forall g | g in d.fields :: g.tag != f.tag
    requires EncValue(f.kind, v).Some? && |EncValue(f.kind, v).value| < TWO32
    requires init ==> SetDefaults(d, m).Some?
    requires var m0 := if init then SetDefaults(d, m).value else m; Run(d, State(m0, {}), p).Some?
    ensures EncItem(f, v).Some?
    ensures DecMessage(d, m, init, p + EncItem(f, v).value + q) == DecMessage(d, m, init, p + q)
  {
    ItemOnWire(f, v);
    assert UnknownField(d, EncItem(f, v).value);
    UnknownFieldIgnored(d, m, init, p, EncItem(f, v).value, q);
  }

  /** A negative number takes ten bytes, whatever the width of its member. */
  lemma NegativeTakesTen(w: Width, n: int)
    requires ScalarFits(Int(w), n)
    ensures |EncScalar(Int(w), n)| == 10 <==> n < 0
    ensures n >= 0 ==> EncScalar(Int(w), n) == Varint(n)
    ensures n < 0 ==> EncScalar(Int(w), n) == Varint(TWO64 + n)
  {
    var u := Unsigned(n, TWO64);
    assert u == if n < 0 then TWO64 + n else n;
    VarintLength(u, 9);
    TenBytes(u);
    Powers();
  }

  /** What is absent or empty is not written; what exceeds its array is refused. */
  lemma SlotOnWire(f: Field, sl: Slot)
    requires TypedSlot(f, sl)
    ensures sl.Opt? && !sl.has ==> EncSlot(f, sl) == Some([])
    ensures sl == Rep([]) ==> EncSlot(f, sl) == Some([])
    ensures sl.Rep? && !f.IsCallback() && |sl.vs| > f.rule.max ==> EncSlot(f, sl) == None
  {
  }

  /** An array of packable items is one length-delimited field. */
  lemma PackedOnWire(f: Field, vs: seq<Value>)
    requires TypedSlot(f, Rep(vs)) && f.rule.Repeated? && f.IsPackable() && !f.IsCallback() && 0 < |vs| <= f.rule.max
    requires 0 < f.tag < 0x2000_0000 && |EncPackedItems(f.kind.sc, vs)| < TWO32
    ensures var s := EncSlot(f, Rep(vs));
            s.Some? && DecTag(s.value).Got? && DecTag(s.value).value == (f.tag, WT_STRING)
            && IsBody(WT_STRING, DecTag(s.value).rest)
  {
    var p := EncPackedItems(f.kind.sc, vs);
    PrefixedIsBody(p);
    TagRoundTrip(f.tag, WT_STRING, LenPrefixed(p));
  }

  /** A message can be encoded exactly when each of its members can. */
  lemma {:induction false} EncodesIff(d: Desc, m: Message, i: nat)
    requires Typed(d, m) && i <= |m|
    ensures EncFrom(d, m, i).Some? <==> forall j | i <= j < |m| :: EncSlot(d.fields[j], m[j]).Some?
    decreases |m| - i
  {
    if i < |m| {
      EncodesIff(d, m, i + 1);
    }
  }

  /** Bytes are refused exactly beyond their capacity, a string exactly when it has no terminator in its array. */
  lemma ValueEncodesIff(k: Kind, v: Value)
    requires TypedValue(k, v)
    ensures k.Bytes? ==> (EncValue(k, v).Some? <==> |v.bs| <= k.cap)
    ensures k.Str? ==> (EncValue(k, v).Some? <==> |CString(v.bs)| < k.size)
    ensures k.Sub? || k.CbMessages? ==> (EncValue(k, v).Some? <==> EncMessage(k.d, v.m).Some?)
    ensures k.Num? || k.FixedBytes? || k.CbStrings? ==> EncValue(k, v).Some?
  {
  }

  // ---------------------------------------------------------------- any bytes as a field

  /** The number in a varint of at most ten bytes. */
  ghost predicate ReadsVarint(s: seq<byte>, v: uint64, rest: seq<byte>) {
    exists h: seq<byte> :: IsVarint(h) && |h| <= 10 && v == Val(h) % TWO64 && s == h + rest
  }

  /** An unsigned member takes exactly the numbers that it can hold. */
  lemma UIntMeans(w: Width, s: seq<byte>, n: int, rest: seq<byte>)
    ensures DecScalar(UInt(w), s) == Got(n, rest)
       <==> 0 <= n < Bits(w) && n < TWO64 && ReadsVarint(s, n, rest)
  {
    if 0 <= n < TWO64 {
      Dec64Exact(s, n, rest);
    }
  }

  lemma ReadsExact(s: seq<byte>, v: uint64, rest: seq<byte>)
    ensures ReadsVarint(s, v, rest) <==> Dec64(s) == Got(v, rest)
  {
    Dec64Exact(s, v, rest);
  }

  /** A signed one takes the number modulo 2^64, or 2^32 below eight bytes, if it can hold the result. */
  lemma IntMeans(w: Width, s: seq<byte>, n: int, rest: seq<byte>)
    ensures DecScalar(Int(w), s) == Got(n, rest)
       <==> 0 <= 2 * n + Bits(w) < 2 * Bits(w)
            && exists v: uint64 :: ReadsVarint(s, v, rest) && (n - v) % (if w == 8 then TWO64 else TWO32) == 0
  {
    hide Dec64, Clamp, WidenVarint, ReadsVarint;
    forall v: uint64
      ensures ReadsVarint(s, v, rest) <==> Dec64(s) == Got(v, rest)
    {
      ReadsExact(s, v, rest);
    }
    if Dec64(s).Got? {
      WidenMeans(w, Dec64(s).value, n);
    }
  }

  lemma WidenMeans(w: Width, v: uint64, n: int)
    ensures Clamp(w, WidenVarint(w, v)) == Some(n)
       <==> 0 <= 2 * n + Bits(w) < 2 * Bits(w) && (n - v) % (if w == 8 then TWO64 else TWO32) == 0
  {
    if w == 8 {
      Signed64(v, n);
      Signed64(WidenVarint(w, v), WidenVarint(w, v));
    } else {
      Signed32(v, n);
      if w == 4 {
        Signed32(WidenVarint(w, v), WidenVarint(w, v));
      }
    }
    hide Signed;
    ClampMeans(w, WidenVarint(w, v));
  }

  lemma ClampMeans(w: Width, n: int)
    ensures Clamp(w, n) == if 0 <= 2 * n + Bits(w) < 2 * Bits(w) then Some(n) else None
  {
  }

  lemma Signed32(v: int, n: int)
    ensures Signed(v, TWO32) == n <==> 0 <= 2 * n + TWO32 < 2 * TWO32 && (n - v) % TWO32 == 0
  {
    var u, q := v % TWO32, v / TWO32;
    assert v == TWO32 * q + u;
    SameRemainder32(n, u, q);
  }

  lemma SameRemainder32(n: int, u: nat, q: int)
    ensures (n - (TWO32 * q + u)) % TWO32 == (n - u) % TWO32
  {
  }

  lemma Signed64(v: int, n: int)
    ensures Signed(v, TWO64) == n <==> 0 <= 2 * n + TWO64 < 2 * TWO64 && (n - v) % TWO64 == 0
  {
    var u, q := v % TWO64, v / TWO64;
    assert v == TWO64 * q + u;
    SameRemainder64(n, u, q);
  }

  lemma SameRemainder64(n: int, u: nat, q: int)
    ensures (n - (TWO64 * q + u)) % TWO64 == (n - u) % TWO64
  {
  }

  /** A zigzag one takes the number that zigzag stands for, if it can hold that. */
  lemma SIntMeans(w: Width, s: seq<byte>, n: int, rest: seq<byte>)
    ensures DecScalar(SInt(w), s) == Got(n, rest)
       <==> 0 <= 2 * n + Bits(w) < 2 * Bits(w) && exists v: uint64 :: ReadsVarint(s, v, rest) && UnZigZag(v) == n
  {
    hide Dec64, Clamp, UnZigZag, ReadsVarint;
    forall v: uint64
      ensures ReadsVarint(s, v, rest) <==> Dec64(s) == Got(v, rest)
    {
      ReadsExact(s, v, rest);
    }
    if Dec64(s).Got? {
      ClampMeans(w, UnZigZag(Dec64(s).value));
    }
  }

  /** Any number but zero is true. */
  lemma BoolMeans(s: seq<byte>)
    ensures DecScalar(Bool, s).Got? <==> Dec32(s).Got?
    ensures Dec32(s).Got? ==>
              && DecScalar(Bool, s).rest == Dec32(s).rest
              && (DecScalar(Bool, s).value == 0 <==> Dec32(s).value == 0)
              && (DecScalar(Bool, s).value == 1 <==> Dec32(s).value != 0)
  {
  }

  /** A static member refuses every wire type but its own; an array of packable items also takes packed ones. */
  lemma WrongWireType(f: Field, wt: nat, sl: Slot, s: seq<byte>)
    requires TypedSlot(f, sl) && !f.IsCallback()
    requires wt != WireType(f.kind) && !(sl.Rep? && f.IsPackable() && wt == WT_STRING)
    ensures DecField(f, wt, sl, s) == Fail
  {
  }

  /** What a callback is handed: the payload of a string, or the bytes of a scalar. */
  function Payload(wt: nat, body: seq<byte>): seq<byte>
    requires IsBody(wt, body)
  {
    if wt == 2 then Dec32(body).rest else body
  }

  /** A callback member takes any body, scalars up to ten bytes, and hands its payload on. */
  lemma CallbackTakes(f: Field, wt: nat, vs: seq<Value>, body: seq<byte>, rest: seq<byte>)
    requires TypedSlot(f, Rep(vs)) && f.IsCallback() && IsBody(wt, body) && (wt == 2 || |body| <= 10)
    ensures var p := Payload(wt, body);
            DecField(f, wt, Rep(vs), body + rest) ==
            match RunCallback(f.kind, vs, p)
            case None => Fail
            case Some(ws) => Got(Rep(ws), rest)
    ensures f.kind.CbNone? ==> RunCallback(f.kind, vs, Payload(wt, body)) == Some(vs)
    ensures f.kind.CbStrings? ==>
              RunCallback(f.kind, vs, Payload(wt, body))
              == Some(vs + if Payload(wt, body) == [] then [] else [Blob(Payload(wt, body))])
  {
    if wt == 2 {
      Dec32Append(body, rest);
      DecLenExact(body + rest, Payload(wt, body), rest);
    } else {
      RawExact(wt, body + rest, body, rest);
    }
    assert vs + [] == vs;
  }

  /** And nothing else. */
  lemma CallbackRefuses(f: Field, wt: nat, vs: seq<Value>, s: seq<byte>)
    requires TypedSlot(f, Rep(vs)) && f.IsCallback() && DecField(f, wt, Rep(vs), s).Got?
    ensures exists body :: IsBody(wt, body) && (wt == 2 || |body| <= 10) && s == body + DecField(f, wt, Rep(vs), s).rest
  {
    var rest := DecField(f, wt, Rep(vs), s).rest;
    if wt == 2 {
      SkippedString(s, DecLen(s).value, rest);
    } else {
      RawExact(wt, s, Raw(wt, s).value, rest);
    }
  }

  /** A field without a number, and one that breaks off, fail the whole message. */
  lemma BadTagFails(d: Desc, st: State, s: seq<byte>)
    requires Typed(d, st.m) && s != []
    requires DecTag(s) == Fail || DecTag(s).value.0 == 0
    ensures Run(d, st, s) == None
  {
  }
}
