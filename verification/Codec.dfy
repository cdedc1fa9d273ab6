/**
 What the encoder writes for a message and what the decoder makes of a byte window,
 as functions. The stream-driven encoder and decoder are proved against these.
 */
module Codec {
  import opened Prelude
  import opened Wire
  import opened Schema

  // ---------------------------------------------------------------- scalars

  function EncScalar(sc: Scalar, n: int): seq<byte> {
    match sc
    case Bool => Varint(if n != 0 then 1 else 0)
    case Int(_) => Varint(Unsigned(n, TWO64))
    case UInt(_) => Varint(Unsigned(n, TWO64))
    case SInt(_) => Varint(ZigZag(Signed(n, TWO64)))
    case Fixed32 => LittleEndian(4, Unsigned(n, TWO32))
    case Fixed64 => LittleEndian(8, Unsigned(n, TWO64))
  }

  /** Items of a packed array: booleans go through the integer path there. */
  function EncPacked(sc: Scalar, n: int): seq<byte> {
    if sc.Bool? then EncScalar(Int(1), n) else EncScalar(sc, n)
  }

  /** Narrow `n` to a signed member of width `w`, refusing a change of value. */
  function Clamp(w: Width, n: int): (r: Option<int>)
    ensures r.Some? ==> r.value == n && 0 <= 2 * n + Bits(w) < 2 * Bits(w)
  {
    if Signed(n, Bits(w)) == n then Some(n) else None
  }

  /** A decoded varint as an `int32` or `int64`, before it is narrowed. */
  function WidenVarint(w: Width, v: uint64): int {
    if w == 8 then Signed(v, TWO64) else Signed(v, TWO32)
  }

  function DecScalar(sc: Scalar, s: seq<byte>): (r: Parsed<int>)
    ensures r.Got? ==> |r.rest| < |s| && ScalarFits(sc, r.value)
  {
    match sc
    case Bool =>
      var (v, r) :- Dec32(s);
      Got(if v != 0 then 1 else 0, r)
    case Int(w) =>
      var (v, r) :- Dec64(s);
      (match Clamp(w, WidenVarint(w, v))
       case None => Fail
       case Some(n) => Got(n, r))
    case UInt(w) =>
      var (v, r) :- Dec64(s);
      if v < Bits(w) then Got(v, r) else Fail
    case SInt(w) =>
      var (v, r) :- Dec64(s);
      (match Clamp(w, UnZigZag(v))
       case None => Fail
       case Some(n) => Got(n, r))
    case Fixed32 =>
      var (p, r) :- Take(4, s);
      FromLittleEndianBound(p); Powers256();
      Got(FromLittleEndian(p), r)
    case Fixed64 =>
      var (p, r) :- Take(8, s);
      FromLittleEndianBound(p); Powers256();
      Got(FromLittleEndian(p), r)
  }

  function WireType(k: Kind): nat {
    match k
    case Num(Fixed32) => WT_32BIT
    case Num(Fixed64) => WT_64BIT
    case Num(_) => WT_VARINT
    case _ => WT_STRING
  }

  /** A char array as the C string it holds. */
  function CString(bs: seq<byte>): (s: seq<byte>)
    ensures |s| <= |bs|
  {
    if bs == [] || bs[0] == 0 then [] else [bs[0]] + CString(bs[1..])
  }

  // ---------------------------------------------------------------- encoding

  /** All fields of a message, in table order. */
  function EncMessage(d: Desc, m: Message): Option<seq<byte>>
    requires Typed(d, m)
    decreases d, 1, 0
  {
    EncFrom(d, m, 0)
  }

  function EncFrom(d: Desc, m: Message, i: nat): Option<seq<byte>>
    requires Typed(d, m) && i <= |m|
    decreases d, 0, |m| - i
  {
    if i == |m| then Some([])
    else
      var s :- EncSlot(d.fields[i], m[i]);
      var t :- EncFrom(d, m, i + 1);
      Some(s + t)
  }

  function EncSlot(f: Field, sl: Slot): Option<seq<byte>>
    requires TypedSlot(f, sl)
    decreases f, 1, 0
  {
    match sl
    case Req(v) => EncItem(f, v)
    case Opt(has, v) => if has then EncItem(f, v) else Some([])
    case Rep(vs) =>
      if f.IsCallback() then EncItems(f, vs)
      else if vs == [] then Some([])
      else if |vs| > f.rule.max then None
      else if f.IsPackable() then
        Some(EncTag(f.tag, WT_STRING) + LenPrefixed(EncPackedItems(f.kind.sc, vs)))
      else EncItems(f, vs)
  }

  /** One item with its tag. */
  function EncItem(f: Field, v: Value): Option<seq<byte>>
    requires TypedValue(f.kind, v)
    decreases f, 0, 0
  {
    var s :- EncValue(f.kind, v);
    Some(EncTag(f.tag, WireType(f.kind)) + s)
  }

  function EncItems(f: Field, vs: seq<Value>): Option<seq<byte>>
    requires forall v | v in vs :: TypedValue(f.kind, v)
    decreases f, 0, |vs|
  {
    if vs == [] then Some([])
    else
      var s :- EncItem(f, vs[0]);
      var t :- EncItems(f, vs[1..]);
      Some(s + t)
  }

  function EncPackedItems(sc: Scalar, vs: seq<Value>): seq<byte>
    requires forall v | v in vs :: TypedValue(Num(sc), v)
  {
    if vs == [] then []
    else
      assert TypedValue(Num(sc), vs[0]);
      EncPacked(sc, vs[0].n) + EncPackedItems(sc, vs[1..])
  }

  function EncValue(k: Kind, v: Value): Option<seq<byte>>
    requires TypedValue(k, v)
    decreases k, 0, 0
  {
    match k
    case Num(sc) => Some(EncScalar(sc, v.n))
    case Bytes(cap) => if |v.bs| > cap then None else Some(LenPrefixed(v.bs))
    case Str(size) =>
      if |CString(v.bs)| < size then Some(LenPrefixed(CString(v.bs))) else None
    case FixedBytes(_) => Some(LenPrefixed(v.bs))
    case CbStrings => Some(LenPrefixed(CString(v.bs)))
    case Sub(d) =>
      var s :- EncMessage(d, v.m);
      Some(LenPrefixed(s))
    case CbMessages(d) =>
      var s :- EncMessage(d, v.m);
      Some(LenPrefixed(s))
  }

  // ---------------------------------------------------------------- decoding

  /** A structure being filled, and the required fields seen so far. */
  datatype State = State(m: Message, seen: set<nat>)

  const MAX_REQUIRED_FIELDS := 64

  function DecMessage(d: Desc, m: Message, init: bool, s: seq<byte>): (r: Option<Message>)
    requires Typed(d, m)
    ensures r.Some? ==> Typed(d, r.value)
    decreases d, 3, 0
  {
    var m0 :- if init then SetDefaults(d, m) else Some(m);
    var st :- Run(d, State(m0, {}), s);
    if AllRequiredSeen(d, st.seen) then Some(st.m) else None
  }

  /** Only the first 64 required fields are tracked. */
  predicate AllRequiredSeen(d: Desc, seen: set<nat>) {
    forall k | 0 <= k < RequiredCount(d) && k < MAX_REQUIRED_FIELDS :: k in seen
  }

  /** Field after field until the window is empty. */
  function Run(d: Desc, st: State, s: seq<byte>): (r: Option<State>)
    requires Typed(d, st.m)
    ensures r.Some? ==> Typed(d, r.value.m)
    decreases d, 1, |s|
  {
    if s == [] then Some(st)
    else match Step(d, st, s)
      case Fail => None
      case Got(st', rest) => Run(d, st', rest)
  }

  function Step(d: Desc, st: State, s: seq<byte>): (r: Parsed<State>)
    requires Typed(d, st.m)
    ensures r.Got? ==> |r.rest| < |s| && Typed(d, r.value.m)
    decreases d, 0, 0
  {
    var (key, t) :- DecTag(s);
    if key.0 == 0 then Fail
    else match FindTag(d, key.0)
      case None =>
        var (_, rest) :- Skip(key.1, t);
        Got(st, rest)
      case Some(i) =>
        var (sl, rest) :- DecField(d.fields[i], key.1, st.m[i], t);
        Got(State(st.m[i := sl], SeeField(d, i, st.seen)), rest)
  }

  function SeeField(d: Desc, i: nat, seen: set<nat>): set<nat>
    requires i < |d.fields|
  {
    if d.fields[i].rule.Required? && RequiredIndex(d, i) < MAX_REQUIRED_FIELDS
    then seen + {RequiredIndex(d, i)} else seen
  }

  function DecField(f: Field, wt: nat, sl: Slot, s: seq<byte>): (r: Parsed<Slot>)
    requires TypedSlot(f, sl)
    ensures r.Got? ==> |r.rest| < |s| && TypedSlot(f, r.value)
    decreases f, 0, 0
  {
    match sl
    case Req(v) =>
      var (w, rest) :- DecValue(f.kind, wt, v, false, s);
      Got(Req(w), rest)
    case Opt(_, v) =>
      var (w, rest) :- DecValue(f.kind, wt, v, false, s);
      Got(Opt(true, w), rest)
    case Rep(vs) =>
      if f.IsCallback() then
        var (p, rest) :- if wt == WT_STRING then DecLen(s) else Raw(wt, s);
        (match RunCallback(f.kind, vs, p)
         case None => Fail
         case Some(ws) => Got(Rep(ws), rest))
      else if wt == WT_STRING && f.IsPackable() then
        var (p, rest) :- DecLen(s);
        (match DecPacked(f.kind.sc, f.rule.max, vs, p)
         case None => Fail
         case Some(ws) => Got(Rep(ws), rest))
      else if |vs| >= f.rule.max then Fail
      else
        var (w, rest) :- DecValue(f.kind, wt, ZeroValue(f.kind), true, s);
        Got(Rep(vs + [w]), rest)
  }

  /** Packed items append while there is room; leftover bytes overflow the array. */
  function DecPacked(sc: Scalar, max: nat, vs: seq<Value>, p: seq<byte>): (r: Option<seq<Value>>)
    requires forall v | v in vs :: TypedValue(Num(sc), v)
    ensures r.Some? ==> forall v | v in r.value :: TypedValue(Num(sc), v)
    decreases |p|
  {
    if p == [] then Some(vs)
    else if |vs| >= max then None
    else match DecScalar(sc, p)
      case Fail => None
      case Got(n, rest) => DecPacked(sc, max, vs + [Number(n)], rest)
  }

  /** One item. A singular submessage is decoded into what is already there. */
  function DecValue(k: Kind, wt: nat, old_: Value, init: bool, s: seq<byte>): (r: Parsed<Value>)
    requires TypedValue(k, old_)
    ensures r.Got? ==> |r.rest| < |s| && TypedValue(k, r.value)
    decreases k, 0, 0
  {
    if wt != WireType(k) then Fail
    else match k
      case Num(sc) =>
        var (n, rest) :- DecScalar(sc, s);
        Got(Number(n), rest)
      case Bytes(cap) =>
        var (p, rest) :- DecLen(s);
        if |p| <= cap then Got(Blob(p), rest) else Fail
      case Str(size) =>
        var (p, rest) :- DecLen(s);
        if |p| < size then Got(Blob(p), rest) else Fail
      case FixedBytes(n) =>
        var (p, rest) :- DecLen(s);
        if |p| == 0 then Got(Blob(Zeros(n)), rest)
        else if |p| == n then Got(Blob(p), rest)
        else Fail
      case Sub(d) =>
        var (p, rest) :- DecLen(s);
        (match DecMessage(d, old_.m, init, p)
         case None => Fail
         case Some(m) => Got(Msg(m), rest))
      case CbStrings => Fail
      case CbMessages(_) => Fail
  }

  /**
   The user callbacks. Without one the payload is dropped; the string callback appends the
   payload; the message callback decodes it into a fresh structure. Both loop while bytes are
   left, so an empty payload appends nothing.
   */
  function RunCallback(k: Kind, vs: seq<Value>, p: seq<byte>): (r: Option<seq<Value>>)
    requires forall v | v in vs :: TypedValue(k, v)
    ensures r.Some? ==> forall v | v in r.value :: TypedValue(k, v)
    decreases k, 0, 0
  {
    match k
    case CbStrings => Some(if p == [] then vs else vs + [Blob(p)])
    case CbMessages(d) =>
      if p == [] then Some(vs)
      else
        var m :- DecMessage(d, ZeroMessage(d), true, p);
        Some(vs + [Msg(m)])
    case _ => Some(vs)
  }

  // ---------------------------------------------------------------- defaults

  /** Clear every member, then take the default values that the table carries in encoded form. */
  function SetDefaults(d: Desc, m: Message): (r: Option<Message>)
    requires Typed(d, m)
    ensures r.Some? ==> Typed(d, r.value)
    decreases d, 2, 0
  {
    if d.fields == [] then Some(m)
    else if d.defaults == [] then DefaultsFrom(d, m, 0, 0, 0, [])
    else match DecTag(d.defaults)
      case Fail => None
      case Got(key, rest) => DefaultsFrom(d, m, 0, key.0, key.1, rest)
  }

  /** `tag`, `wt` and `ds`: the next default value, none if `tag` is 0. */
  function DefaultsFrom(d: Desc, m: Message, i: nat, tag: nat, wt: nat, ds: seq<byte>): (r: Option<Message>)
    requires Typed(d, m) && i <= |m|
    ensures r.Some? ==> Typed(d, r.value)
    decreases d, 1, |m| - i
  {
    if i == |m| then Some(m)
    else
      var f := d.fields[i];
      var sl :- ClearSlot(f, m[i]);
      if tag == 0 || f.tag != tag then DefaultsFrom(d, m[i := sl], i + 1, tag, wt, ds)
      else match DecField(f, wt, sl, ds)
        case Fail => None
        case Got(sl', rest) =>
          match DecTag(rest)
          case Fail => None
          case Got(key, rest') => DefaultsFrom(d, m[i := ClearHas(f, sl')], i + 1, key.0, key.1, rest')
  }

  /** A callback member keeps its callback and what that has gathered. */
  function ClearSlot(f: Field, sl: Slot): (r: Option<Slot>)
    requires TypedSlot(f, sl)
    ensures r.Some? ==> TypedSlot(f, r.value)
    decreases f, 0, 0
  {
    match sl
    case Req(v) =>
      var w :- ClearValue(f.kind, v);
      Some(Req(w))
    case Opt(_, v) =>
      var w :- ClearValue(f.kind, v);
      Some(Opt(false, w))
    case Rep(vs) => Some(if f.IsCallback() then sl else Rep([]))
  }

  function ClearValue(k: Kind, v: Value): (r: Option<Value>)
    requires TypedValue(k, v)
    ensures r.Some? ==> TypedValue(k, r.value)
    decreases k, 0, 0
  {
    match k
    case Sub(d) =>
      var m :- SetDefaults(d, v.m);
      Some(Msg(m))
    case _ => Some(ZeroValue(k))
  }

  /**
   A default value does not count as present. Only the first byte of a has-flag or of a 16-bit count
   is cleared, so defaults for a repeated member stay in multiples of 256.
   */
  function ClearHas(f: Field, sl: Slot): (r: Slot)
    requires TypedSlot(f, sl)
    ensures TypedSlot(f, r)
  {
    match sl
    case Req(_) => sl
    case Opt(_, v) => Opt(false, v)
    case Rep(vs) => if f.IsCallback() then sl else Rep(vs[..|vs| / 256 * 256])
  }
}
