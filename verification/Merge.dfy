/** Decoding an encoded message is merging. */
module Merge {
  import opened Prelude
  import opened Wire
  import opened Schema
  import opened Codec

  // ---------------------------------------------------------------- well-formed tables

  /** A structure as initialised from a table that initialises at all. */
  function Fresh(d: Desc): (m: Message)
    ensures Typed(d, m)
  {
    match SetDefaults(d, ZeroMessage(d))
    case Some(m) => m
    case None => ZeroMessage(d)
  }

  /** Nothing is marked present and no repeated member holds an item, here or in a singular submessage. */
  predicate Empty(d: Desc, m: Message)
    requires Typed(d, m)
    decreases d
  {
    forall i | 0 <= i < |m| :: EmptySlot(d.fields[i], m[i])
  }

  predicate EmptySlot(f: Field, sl: Slot)
    requires TypedSlot(f, sl)
    decreases f
  {
    match sl
    case Req(v) => EmptyValue(f.kind, v)
    case Opt(has, v) => !has && EmptyValue(f.kind, v)
    case Rep(vs) => vs == []
  }

  predicate EmptyValue(k: Kind, v: Value)
    requires TypedValue(k, v)
    decreases k
  {
    match k
    case Sub(d) => Empty(d, v.m)
    case _ => true
  }

  /** Field numbers rise and fit 16 bits, sizes are in range, and the default values decode. */
  predicate WellFormed(d: Desc)
    decreases d
  {
    && (forall f | f in d.fields :: WellFormedKind(f.kind))
    && (forall i | 0 <= i < |d.fields| :: 0 < d.fields[i].tag < 0x1_0000)
    && (forall i, j | 0 <= i < j < |d.fields| :: d.fields[i].tag < d.fields[j].tag)
    && SetDefaults(d, ZeroMessage(d)).Some?
    && Empty(d, Fresh(d))
  }

  predicate WellFormedKind(k: Kind)
    decreases k
  {
    && KindOk(k)
    && (k.Sub? ==> WellFormed(k.d))
    && (k.CbMessages? ==> WellFormed(k.d))
  }

  // ---------------------------------------------------------------- merging

  /**
   `b` merged into `a`: present scalars, strings and bytes of `b` win, submessages merge member
   by member, repeated fields are concatenated.
   */
  function Merged(d: Desc, a: Message, b: Message): (m: Message)
    requires Typed(d, a) && Typed(d, b)
    ensures Typed(d, m)
    decreases d
  {
    seq(|a|, i requires 0 <= i < |a| => MergedSlot(d.fields[i], a[i], b[i]))
  }

  function MergedSlot(f: Field, a: Slot, b: Slot): (sl: Slot)
    requires TypedSlot(f, a) && TypedSlot(f, b)
    ensures TypedSlot(f, sl)
    decreases f, 1, 0
  {
    match b
    case Req(v) => Req(MergedValue(f.kind, a.v, v))
    case Opt(has, v) => if has then Opt(true, MergedValue(f.kind, a.v, v)) else a
    case Rep(vs) => Rep(a.vs + Arriving(f.kind, vs))
  }

  function MergedValue(k: Kind, a: Value, b: Value): (v: Value)
    requires TypedValue(k, a) && TypedValue(k, b)
    ensures TypedValue(k, v)
    decreases k, 0, 0
  {
    match k
    case Sub(d) => Msg(Merged(d, a.m, b.m))
    case Str(_) => Blob(CString(b.bs))
    case _ => b
  }

  /** Items as they arrive at the end of a repeated member. */
  function Arriving(k: Kind, vs: seq<Value>): (ws: seq<Value>)
    requires forall v | v in vs :: TypedValue(k, v)
    ensures forall w | w in ws :: TypedValue(k, w)
    decreases k, 1, |vs|
  {
    if vs == [] then [] else ArrivingItem(k, vs[0]) + Arriving(k, vs[1..])
  }

  /** Each message item starts from a fresh structure; a callback is not run on an empty payload. */
  function ArrivingItem(k: Kind, v: Value): (ws: seq<Value>)
    requires TypedValue(k, v)
    ensures forall w | w in ws :: TypedValue(k, w)
    decreases k, 0, 0
  {
    match k
    case Sub(d) => [Msg(Merged(d, Fresh(d), v.m))]
    case CbMessages(d) =>
      if EncMessage(d, v.m) == Some([]) then [] else [Msg(Merged(d, Fresh(d), v.m))]
    case CbStrings => if CString(v.bs) == [] then [] else [Blob(CString(v.bs))]
    case Str(_) => [Blob(CString(v.bs))]
    case _ => [v]
  }

  /** The arrays of `a` have room for the items of `b`. */
  predicate Room(d: Desc, a: Message, b: Message)
    requires Typed(d, a) && Typed(d, b)
    decreases d
  {
    forall i | 0 <= i < |a| :: RoomInSlot(d.fields[i], a[i], b[i])
  }

  predicate RoomInSlot(f: Field, a: Slot, b: Slot)
    requires TypedSlot(f, a) && TypedSlot(f, b)
    decreases f
  {
    match b
    case Req(v) => RoomInValue(f.kind, a.v, v)
    case Opt(has, v) => has ==> RoomInValue(f.kind, a.v, v)
    case Rep(vs) => f.IsCallback() || vs == [] || |a.vs| + |vs| <= f.rule.max
  }

  predicate RoomInValue(k: Kind, a: Value, b: Value)
    requires TypedValue(k, a) && TypedValue(k, b)
    decreases k
  {
    match k
    case Sub(d) => Room(d, a.m, b.m)
    case _ => true
  }

  /**
   Every tracked required callback member has an item to write, here and in everything written
   below. Other required members are always written.
   */
  predicate Complete(d: Desc, b: Message)
    requires Typed(d, b)
    decreases d, 1
  {
    && (forall i | 0 <= i < |b| :: OwnSlotWritten(d, b, i))
    && Inner(d, b, 0)
  }

  predicate OwnSlotWritten(d: Desc, b: Message, i: nat)
    requires |b| == |d.fields| && i < |b|
  {
    d.fields[i].rule.Required? && RequiredIndex(d, i) < MAX_REQUIRED_FIELDS ==> b[i] != Rep([])
  }

  /** The messages written for the fields from `i` on are complete. */
  predicate Inner(d: Desc, b: Message, i: nat)
    requires Typed(d, b)
    decreases d, 0
  {
    forall j | i <= j < |b| :: InnerSlot(d.fields[j], b[j])
  }

  predicate InnerSlot(f: Field, b: Slot)
    requires TypedSlot(f, b)
    decreases f, 0
  {
    match b
    case Req(v) => CompleteValue(f.kind, v)
    case Opt(has, v) => has ==> CompleteValue(f.kind, v)
    case Rep(vs) => forall v | v in vs :: CompleteValue(f.kind, v)
  }

  predicate CompleteValue(k: Kind, b: Value)
    requires TypedValue(k, b)
    decreases k, 0
  {
    match k
    case Sub(d) => Complete(d, b.m)
    case CbMessages(d) => EncMessage(d, b.m) == Some([]) || Complete(d, b.m)
    case _ => true
  }

  /** An empty structure has room for anything that fits. */
  lemma {:induction false} EmptyHasRoom(d: Desc, a: Message, b: Message)
    requires Typed(d, a) && Empty(d, a) && Typed(d, b) && Fits(d, b)
    ensures Room(d, a, b)
    decreases d
  {
    forall i | 0 <= i < |a| ensures RoomInSlot(d.fields[i], a[i], b[i]) {
      assert EmptySlot(d.fields[i], a[i]);
      EmptySlotHasRoom(d.fields[i], a[i], b[i]);
    }
  }

  lemma {:induction false} EmptySlotHasRoom(f: Field, a: Slot, b: Slot)
    requires TypedSlot(f, a) && EmptySlot(f, a) && TypedSlot(f, b) && FitsSlot(f, b)
    ensures RoomInSlot(f, a, b)
    decreases f
  {
    if !b.Rep? {
      EmptyValueHasRoom(f.kind, a.v, b.v);
    }
  }

  lemma {:induction false} EmptyValueHasRoom(k: Kind, a: Value, b: Value)
    requires TypedValue(k, a) && EmptyValue(k, a) && TypedValue(k, b) && FitsValue(k, b)
    ensures RoomInValue(k, a, b)
    decreases k
  {
    if k.Sub? {
      EmptyHasRoom(k.d, a.m, b.m);
    }
  }

  // ---------------------------------------------------------------- items

  lemma WideSigned(n: int64)
    ensures Signed(Unsigned(n, TWO64), TWO64) == n
  {
  }

  lemma NarrowSigned(n: int)
    requires -TWO31 <= n < TWO31
    ensures Signed(Unsigned(n, TWO64), TWO32) == n
  {
    LowBits(Unsigned(n, TWO64));
  }

  lemma SignedInRange(n: int, size: nat)
    requires size > 0 && 0 <= 2 * n + size < 2 * size
    ensures Signed(n, size) == n
  {
    if n < 0 {
      ModUp(n + size, size);
    } else {
      ModUp(n, size);
    }
  }

  lemma ModUp(x: nat, size: nat)
    requires x < size
    ensures x % size == x && (x - size) % size == x
  {
    assert x - size == size * -1 + x;
  }

  lemma WidthRange(w: Width)
    ensures w == 8 ==> Bits(w) == TWO64
    ensures w != 8 ==> Bits(w) <= TWO32
  {
  }

  lemma IntRoundTrip(w: Width, n: int, rest: seq<byte>)
    requires ScalarFits(Int(w), n)
    ensures DecScalar(Int(w), Varint(Unsigned(n, TWO64)) + rest) == Got(n, rest)
  {
    WidthRange(w);
    Varint64RoundTrip(Unsigned(n, TWO64), rest);
    if w == 8 {
      WideSigned(n);
    } else {
      NarrowSigned(n);
    }
    SignedInRange(n, Bits(w));
  }

  lemma SIntRoundTrip(w: Width, n: int, rest: seq<byte>)
    requires ScalarFits(SInt(w), n)
    ensures DecScalar(SInt(w), Varint(ZigZag(Signed(n, TWO64))) + rest) == Got(n, rest)
  {
    WidthRange(w);
    SignedInRange(n, Bits(w));
    SignedInRange(n, TWO64);
    SVarintRoundTrip(n, rest);
  }

  lemma FixedRoundTrip(k: nat, n: nat, rest: seq<byte>)
    requires n < Pow256(k)
    ensures Take(k, LittleEndian(k, n) + rest) == Got(LittleEndian(k, n), rest)
    ensures FromLittleEndian(LittleEndian(k, n)) == n
  {
    LittleEndianRoundTrip(k, n);
    var p := LittleEndian(k, n);
    assert (p + rest)[..k] == p && (p + rest)[k..] == rest;
  }

  lemma BoolRoundTrip(n: nat, rest: seq<byte>)
    requires n <= 1
    ensures DecScalar(Bool, EncScalar(Bool, n) + rest) == Got(n, rest)
  {
    Varint32RoundTrip(n, rest);
  }

  lemma UIntRoundTrip(w: Width, n: int, rest: seq<byte>)
    requires ScalarFits(UInt(w), n)
    ensures DecScalar(UInt(w), EncScalar(UInt(w), n) + rest) == Got(n, rest)
  {
    WidthRange(w);
    ModUp(n, TWO64);
    Varint64RoundTrip(n, rest);
  }

  /** Every value of every scalar type reads back. */
  lemma ScalarRoundTrip(sc: Scalar, n: int, rest: seq<byte>)
    requires ScalarFits(sc, n)
    ensures DecScalar(sc, EncScalar(sc, n) + rest) == Got(n, rest)
  {
    match sc
    case Bool => BoolRoundTrip(n, rest);
    case Int(w) => IntRoundTrip(w, n, rest);
    case UInt(w) => UIntRoundTrip(w, n, rest);
    case SInt(w) => SIntRoundTrip(w, n, rest);
    case Fixed32 => Powers256(); ModUp(n, TWO32); FixedRoundTrip(4, n, rest);
    case Fixed64 => Powers256(); ModUp(n, TWO64); FixedRoundTrip(8, n, rest);
  }

  lemma PackedScalarRoundTrip(sc: Scalar, n: int, rest: seq<byte>)
    requires ScalarFits(sc, n)
    ensures DecScalar(sc, EncPacked(sc, n) + rest) == Got(n, rest)
    ensures EncPacked(sc, n) != []
  {
    ScalarRoundTrip(sc, n, rest);
  }

  lemma PackedStep(sc: Scalar, max: nat, vs: seq<Value>, n: int, t: seq<byte>)
    requires forall v | v in vs :: TypedValue(Num(sc), v)
    requires ScalarFits(sc, n)
    ensures DecPacked(sc, max, vs, EncPacked(sc, n) + t)
         == if |vs| >= max then None else DecPacked(sc, max, vs + [Number(n)], t)
  {
    PackedScalarRoundTrip(sc, n, t);
  }

  /** A packed array appends, and overflows exactly when the counts together exceed the capacity. */
  lemma {:induction false} PackedRoundTrip(sc: Scalar, max: nat, vs: seq<Value>, ws: seq<Value>)
    requires forall v | v in vs :: TypedValue(Num(sc), v)
    requires forall v | v in ws :: TypedValue(Num(sc), v) && FitsValue(Num(sc), v)
    ensures DecPacked(sc, max, vs, EncPackedItems(sc, ws))
         == if ws == [] || |vs| + |ws| <= max then Some(vs + ws) else None
    decreases |ws|
  {
    hide DecScalar, EncPacked;
    if ws == [] {
      assert vs + ws == vs;
    } else {
      var w, t := ws[0], EncPackedItems(sc, ws[1..]);
      assert TypedValue(Num(sc), w) && FitsValue(Num(sc), w);
      assert EncPackedItems(sc, ws) == EncPacked(sc, w.n) + t;
      PackedStep(sc, max, vs, w.n, t);
      PackedRoundTrip(sc, max, vs + [w], ws[1..]);
      assert vs + [w] + ws[1..] == vs + ws;
    }
  }

  // ---------------------------------------------------------------- the decoder on encoder output

  /** The structure that an item is decoded into. */
  function Base(k: Kind, old_: Value, init: bool): (v: Value)
    requires TypedValue(k, old_)
    ensures TypedValue(k, v)
  {
    if init && k.Sub? then Msg(Fresh(k.d)) else old_
  }

  lemma {:induction false} DecodeValue(k: Kind, old_: Value, init: bool, b: Value, rest: seq<byte>)
    requires WellFormedKind(k) && TypedValue(k, old_)
    requires init ==> old_ == ZeroValue(k)
    requires TypedValue(k, b) && FitsValue(k, b)
    requires !k.CbStrings? && !k.CbMessages?
    requires EncValue(k, b).Some? && |EncValue(k, b).value| < TWO32
    ensures DecValue(k, WireType(k), old_, init, EncValue(k, b).value + rest)
         == if RoomInValue(k, Base(k, old_, init), b) && CompleteValue(k, b)
            then Got(MergedValue(k, Base(k, old_, init), b), rest) else Fail
    decreases k, 1, 0
  {
    var s := EncValue(k, b).value;
    match k
    case Num(sc) => ScalarRoundTrip(sc, b.n, rest);
    case Bytes(cap) => LenRoundTrip(b.bs, rest);
    case Str(size) => LenRoundTrip(CString(b.bs), rest);
    case FixedBytes(n) => LenRoundTrip(b.bs, rest);
    case Sub(d) =>
      var p := EncMessage(d, b.m).value;
      LenRoundTrip(p, rest);
      DecodeMessage(d, old_.m, init, b.m);
  }

  /** Whether a repeated member can hold `n` items; callbacks have no limit. */
  predicate Holds(f: Field, n: nat) {
    f.IsCallback() || (f.rule.Repeated? && n <= f.rule.max)
  }

  /** One item of a repeated member. */
  lemma {:induction false} DecodeItem(f: Field, vs: seq<Value>, b: Value, rest: seq<byte>)
    requires WellFormedKind(f.kind) && TypedSlot(f, Rep(vs))
    requires TypedValue(f.kind, b) && FitsValue(f.kind, b)
    requires EncValue(f.kind, b).Some? && |EncValue(f.kind, b).value| < TWO32
    ensures DecField(f, WireType(f.kind), Rep(vs), EncValue(f.kind, b).value + rest)
         == if Holds(f, |vs| + 1) && CompleteValue(f.kind, b)
            then Got(Rep(vs + ArrivingItem(f.kind, b)), rest) else Fail
    decreases f, 0, 0
  {
    var k := f.kind;
    match k
    case CbStrings =>
      LenRoundTrip(CString(b.bs), rest);
      assert vs + [] == vs;
    case CbMessages(d) =>
      var p := EncMessage(d, b.m).value;
      LenRoundTrip(p, rest);
      DecodeFresh(d, b.m);
      assert vs + [] == vs;
    case Sub(d) =>
      DecodeValue(k, ZeroValue(k), true, b, rest);
      EmptyHasRoom(d, Fresh(d), b.m);
    case Num(_) | Bytes(_) | Str(_) | FixedBytes(_) =>
      DecodeValue(k, ZeroValue(k), true, b, rest);
  }

  lemma {:induction false} DecodeFresh(d: Desc, b: Message)
    requires WellFormed(d)
    requires Typed(d, b) && Fits(d, b)
    requires EncMessage(d, b).Some? && |EncMessage(d, b).value| < TWO32
    ensures DecMessage(d, ZeroMessage(d), true, EncMessage(d, b).value)
         == if Complete(d, b) then Some(Merged(d, Fresh(d), b)) else None
    decreases d, 5, 0
  {
    DecodeMessage(d, ZeroMessage(d), true, b);
    EmptyHasRoom(d, Fresh(d), b);
  }

  /** The slot and the bitmap after field `i` of `b` has been read. */
  function After(d: Desc, st: State, i: nat, b: Slot): (st': State)
    requires Typed(d, st.m) && i < |st.m| && TypedSlot(d.fields[i], b)
    ensures Typed(d, st'.m)
  {
    State(st.m[i := MergedSlot(d.fields[i], st.m[i], b)], SeeSlot(d, i, b, st.seen))
  }

  function SeeSlot(d: Desc, i: nat, b: Slot, seen: set<nat>): set<nat>
    requires i < |d.fields|
  {
    if b == Rep([]) then seen else SeeField(d, i, seen)
  }

  /** One tagged item at the front of the window. */
  lemma StepOnItem(d: Desc, st: State, i: nat, wt: nat, body: seq<byte>)
    requires WellFormed(d) && Typed(d, st.m) && i < |st.m| && wt < 8
    ensures Step(d, st, EncTag(d.fields[i].tag, wt) + body)
         == match DecField(d.fields[i], wt, st.m[i], body)
            case Fail => Fail
            case Got(sl, rest) => Got(State(st.m[i := sl], SeeField(d, i, st.seen)), rest)
  {
    TagRoundTrip(d.fields[i].tag, wt, body);
    var j := FindTag(d, d.fields[i].tag);
    assert j == Some(i);
  }

  lemma {:induction false} RunOnItems(d: Desc, st: State, i: nat, bs: seq<Value>, rest: seq<byte>)
    requires WellFormed(d) && Typed(d, st.m) && i < |st.m| && st.m[i].Rep? && TypedSlot(d.fields[i], Rep(bs))
    requires forall v | v in bs :: TypedValue(d.fields[i].kind, v) && FitsValue(d.fields[i].kind, v)
    requires EncItems(d.fields[i], bs).Some? && |EncItems(d.fields[i], bs).value| < TWO32
    ensures Run(d, st, EncItems(d.fields[i], bs).value + rest)
         == if bs == [] then Run(d, st, rest)
            else if Holds(d.fields[i], |st.m[i].vs| + |bs|) && InnerSlot(d.fields[i], Rep(bs))
            then Run(d, After(d, st, i, Rep(bs)), rest) else None
    decreases d, 0, |bs|
  {
    var f := d.fields[i];
    if bs == [] {
      assert EncItems(f, bs).value + rest == rest;
    } else {
      var s, t := EncItem(f, bs[0]).value, EncItems(f, bs[1..]).value;
      var body := EncValue(f.kind, bs[0]).value;
      var tail := t + rest;
      assert f in d.fields;
      assert s + t + rest == EncTag(f.tag, WireType(f.kind)) + (body + tail);
      StepOnItem(d, st, i, WireType(f.kind), body + tail);
      DecodeItem(f, st.m[i].vs, bs[0], tail);
      InnerItems(f, bs);
      if Holds(f, |st.m[i].vs| + 1) && CompleteValue(f.kind, bs[0]) {
        var st' := State(st.m[i := Rep(st.m[i].vs + ArrivingItem(f.kind, bs[0]))], SeeField(d, i, st.seen));
        ArrivingLength(f.kind, bs[0]);
        RunOnItems(d, st', i, bs[1..], rest);
        MergedItemsStep(d, st, i, bs);
      }
    }
  }

  lemma InnerItems(f: Field, bs: seq<Value>)
    requires bs != [] && TypedSlot(f, Rep(bs))
    ensures TypedSlot(f, Rep(bs[1..]))
    ensures InnerSlot(f, Rep(bs)) <==> CompleteValue(f.kind, bs[0]) && InnerSlot(f, Rep(bs[1..]))
  {
    assert bs[0] in bs;
    forall v | v in bs && CompleteValue(f.kind, bs[0]) && InnerSlot(f, Rep(bs[1..])) ensures CompleteValue(f.kind, v) {
      if v != bs[0] {
        assert v in bs[1..];
      }
    }
  }

  lemma ArrivingLength(k: Kind, v: Value)
    requires TypedValue(k, v)
    ensures !k.CbStrings? && !k.CbMessages? ==> |ArrivingItem(k, v)| == 1
  {
  }

  lemma SeeTwice(d: Desc, i: nat, seen: set<nat>)
    requires i < |d.fields|
    ensures SeeField(d, i, SeeField(d, i, seen)) == SeeField(d, i, seen)
  {
  }

  lemma MergedItemsStep(d: Desc, st: State, i: nat, bs: seq<Value>)
    requires Typed(d, st.m) && i < |st.m| && st.m[i].Rep? && bs != []
    requires TypedSlot(d.fields[i], Rep(bs))
    ensures var f := d.fields[i];
            var st' := State(st.m[i := Rep(st.m[i].vs + ArrivingItem(f.kind, bs[0]))], SeeField(d, i, st.seen));
            Typed(d, st'.m) &&
            After(d, st, i, Rep(bs)) == if bs[1..] == [] then st' else After(d, st', i, Rep(bs[1..]))
  {
    var f := d.fields[i];
    var vs := st.m[i].vs;
    var x, y := ArrivingItem(f.kind, bs[0]), Arriving(f.kind, bs[1..]);
    assert vs + (x + y) == vs + x + y;
    var m1 := st.m[i := Rep(vs + x)];
    assert forall j | 0 <= j < |m1| :: TypedSlot(d.fields[j], m1[j]);
    assert bs[1..] == [] ==> x + y == x;
    SeeTwice(d, i, st.seen);
    assert MergedSlot(f, st.m[i], Rep(bs)) == Rep(vs + (x + y));
    if bs[1..] != [] {
      assert MergedSlot(f, m1[i], Rep(bs[1..])) == Rep(vs + x + y);
    }
    assert m1[i := Rep(vs + x + y)] == st.m[i := Rep(vs + x + y)];
  }

  /** A field with nothing to write has nothing to merge. */
  lemma NothingToMerge(d: Desc, st: State, i: nat, b: Slot)
    requires Typed(d, st.m) && i < |st.m| && TypedSlot(d.fields[i], b)
    requires b == Rep([]) || (b.Opt? && !b.has)
    ensures After(d, st, i, b) == st
  {
    var f := d.fields[i];
    if b.Rep? {
      assert st.m[i].vs + [] == st.m[i].vs;
      assert MergedSlot(f, st.m[i], b) == Rep(st.m[i].vs + Arriving(f.kind, []));
    }
    assert MergedSlot(f, st.m[i], b) == st.m[i];
    assert st.m[i := st.m[i]] == st.m;
  }

  /** The decoder gets through this field. */
  predicate TakesSlot(f: Field, a: Slot, b: Slot)
    requires TypedSlot(f, a) && TypedSlot(f, b)
  {
    RoomInSlot(f, a, b) && InnerSlot(f, b)
  }

  lemma FieldOnPacked(f: Field, vs: seq<Value>, ws: seq<Value>, rest: seq<byte>)
    requires !f.IsCallback() && f.IsPackable() && ws != []
    requires TypedSlot(f, Rep(vs)) && TypedSlot(f, Rep(ws)) && FitsSlot(f, Rep(ws))
    requires |EncPackedItems(f.kind.sc, ws)| < TWO32
    ensures DecField(f, WT_STRING, Rep(vs), LenPrefixed(EncPackedItems(f.kind.sc, ws)) + rest)
         == if |vs| + |ws| <= f.rule.max then Got(Rep(vs + ws), rest) else Fail
  {
    LenRoundTrip(EncPackedItems(f.kind.sc, ws), rest);
    PackedRoundTrip(f.kind.sc, f.rule.max, vs, ws);
    hide DecPacked, EncPackedItems, DecLen;
  }

  lemma PackedMerges(f: Field, a: Slot, ws: seq<Value>)
    requires !f.IsCallback() && f.IsPackable() && ws != []
    requires TypedSlot(f, a) && TypedSlot(f, Rep(ws))
    ensures a.Rep? && f.rule.Repeated?
    ensures MergedSlot(f, a, Rep(ws)) == Rep(a.vs + ws)
    ensures TakesSlot(f, a, Rep(ws)) <==> |a.vs| + |ws| <= f.rule.max
  {
    ArrivingNumbers(f.kind, ws);
    assert InnerSlot(f, Rep(ws)) by {
      forall v | v in ws ensures CompleteValue(f.kind, v) {
        assert TypedValue(f.kind, v);
      }
    }
    assert RoomInSlot(f, a, Rep(ws)) <==> |a.vs| + |ws| <= f.rule.max;
  }

  lemma RunOnPacked(d: Desc, st: State, i: nat, vs: seq<Value>, rest: seq<byte>)
    requires WellFormed(d) && Typed(d, st.m) && i < |st.m|
    requires !d.fields[i].IsCallback() && d.fields[i].IsPackable() && vs != []
    requires TypedSlot(d.fields[i], Rep(vs)) && FitsSlot(d.fields[i], Rep(vs))
    requires |EncPackedItems(d.fields[i].kind.sc, vs)| < TWO32
    ensures Run(d, st, EncTag(d.fields[i].tag, WT_STRING) + LenPrefixed(EncPackedItems(d.fields[i].kind.sc, vs)) + rest)
         == if !TakesSlot(d.fields[i], st.m[i], Rep(vs)) then None else Run(d, After(d, st, i, Rep(vs)), rest)
  {
    hide DecField, EncPackedItems, TakesSlot, MergedSlot;
    var f := d.fields[i];
    var p := EncPackedItems(f.kind.sc, vs);
    var body := LenPrefixed(p) + rest;
    assert EncTag(f.tag, WT_STRING) + LenPrefixed(p) + rest == EncTag(f.tag, WT_STRING) + body;
    StepOnItem(d, st, i, WT_STRING, body);
    PackedMerges(f, st.m[i], vs);
    FieldOnPacked(f, st.m[i].vs, vs, rest);
  }

  lemma {:induction false} RunOnSingle(d: Desc, st: State, i: nat, b: Slot, rest: seq<byte>)
    requires WellFormed(d) && Typed(d, st.m) && i < |st.m|
    requires b.Req? || (b.Opt? && b.has)
    requires TypedSlot(d.fields[i], b) && FitsSlot(d.fields[i], b)
    requires EncItem(d.fields[i], b.v).Some? && |EncItem(d.fields[i], b.v).value| < TWO32
    ensures Run(d, st, EncItem(d.fields[i], b.v).value + rest)
         == if !TakesSlot(d.fields[i], st.m[i], b) then None else Run(d, After(d, st, i, b), rest)
    decreases d, 0, 0
  {
    var f := d.fields[i];
    assert f in d.fields;
    var body := EncValue(f.kind, b.v).value + rest;
    assert EncItem(f, b.v).value + rest == EncTag(f.tag, WireType(f.kind)) + body;
    StepOnItem(d, st, i, WireType(f.kind), body);
    DecodeValue(f.kind, st.m[i].v, false, b.v, rest);
  }

  lemma {:induction false} RunOnSlot(d: Desc, st: State, i: nat, b: Slot, rest: seq<byte>)
    requires WellFormed(d) && Typed(d, st.m) && i < |st.m|
    requires TypedSlot(d.fields[i], b) && FitsSlot(d.fields[i], b)
    requires EncSlot(d.fields[i], b).Some? && |EncSlot(d.fields[i], b).value| < TWO32
    ensures Run(d, st, EncSlot(d.fields[i], b).value + rest)
         == if !TakesSlot(d.fields[i], st.m[i], b) then None
            else Run(d, After(d, st, i, b), rest)
    decreases d, 1, 0
  {
    var f := d.fields[i];
    if b == Rep([]) || (b.Opt? && !b.has) {
      NothingToMerge(d, st, i, b);
      assert EncSlot(f, b) == Some([]);
      assert EncSlot(f, b).value + rest == rest;
    } else if !b.Rep? {
      RunOnSingle(d, st, i, b, rest);
    } else if !f.IsCallback() && f.IsPackable() {
      RunOnPacked(d, st, i, b.vs, rest);
    } else {
      RunOnItems(d, st, i, b.vs, rest);
    }
  }

  lemma {:induction false} ArrivingNumbers(k: Kind, vs: seq<Value>)
    requires k.Num? && forall v | v in vs :: TypedValue(k, v)
    ensures Arriving(k, vs) == vs
  {
    if vs != [] {
      ArrivingNumbers(k, vs[1..]);
    }
  }

  /** `a` with the fields of `b` from `i` on merged in. */
  function MergedFrom(d: Desc, a: Message, b: Message, i: nat): (m: Message)
    requires Typed(d, a) && Typed(d, b) && i <= |a|
    ensures Typed(d, m)
  {
    seq(|a|, j requires 0 <= j < |a| => if j < i then a[j] else MergedSlot(d.fields[j], a[j], b[j]))
  }

  /** The bitmap entries of the required fields of `b` from `i` on that write something. */
  function WrittenFrom(d: Desc, b: Message, i: nat): set<nat>
    requires i <= |d.fields| == |b|
    decreases |d.fields| - i
  {
    if i == |d.fields| then {} else SeeSlot(d, i, b[i], WrittenFrom(d, b, i + 1))
  }

  /** The field behind a bitmap entry. */
  lemma {:induction false} WrittenBy(d: Desc, b: Message, i: nat, k: nat) returns (j: nat)
    requires i <= |d.fields| == |b| && k in WrittenFrom(d, b, i)
    ensures i <= j < |b| && d.fields[j].rule.Required? && RequiredIndex(d, j) == k && b[j] != Rep([])
    decreases |b| - i
  {
    if b[i] != Rep([]) && d.fields[i].rule.Required? && RequiredIndex(d, i) == k {
      j := i;
    } else {
      j := WrittenBy(d, b, i + 1, k);
    }
  }

  lemma {:induction false} WrittenKeeps(d: Desc, b: Message, i: nat, j: nat)
    requires i <= j < |d.fields| == |b|
    requires d.fields[j].rule.Required? && RequiredIndex(d, j) < MAX_REQUIRED_FIELDS && b[j] != Rep([])
    ensures RequiredIndex(d, j) in WrittenFrom(d, b, i)
    decreases j - i
  {
    if i < j {
      WrittenKeeps(d, b, i + 1, j);
    }
  }

  /** A tracked required field has its bitmap entry set exactly when it writes something. */
  lemma EntryOfField(d: Desc, b: Message, i: nat)
    requires i < |d.fields| == |b|
    requires d.fields[i].rule.Required? && RequiredIndex(d, i) < MAX_REQUIRED_FIELDS
    ensures RequiredIndex(d, i) in WrittenFrom(d, b, 0) <==> b[i] != Rep([])
  {
    var k := RequiredIndex(d, i);
    if b[i] != Rep([]) {
      WrittenKeeps(d, b, 0, i);
    } else if k in WrittenFrom(d, b, 0) {
      var j := WrittenBy(d, b, 0, k);
      if i < j {
        RequiredIndexRises(d, i, j);
      } else if j < i {
        RequiredIndexRises(d, j, i);
      }
    }
  }

  lemma {:induction false} FieldOfEntry(d: Desc, n: nat, k: nat) returns (i: nat)
    requires n <= |d.fields| && k < RequiredIndex(d, n)
    ensures i < n && d.fields[i].rule.Required? && RequiredIndex(d, i) == k
  {
    if k < RequiredIndex(d, n - 1) {
      i := FieldOfEntry(d, n - 1, k);
    } else {
      i := n - 1;
    }
  }

  /**
   The bitmap check after `a` and `b` have been read passes exactly when every tracked required
   member was written by one of them.
   */
  lemma BitmapCheck(d: Desc, a: Message, b: Message)
    requires |a| == |b| == |d.fields|
    ensures AllRequiredSeen(d, WrittenFrom(d, a, 0) + WrittenFrom(d, b, 0))
       <==> forall i | 0 <= i < |b| :: OwnSlotWritten(d, a, i) || OwnSlotWritten(d, b, i)
  {
    var seen := WrittenFrom(d, a, 0) + WrittenFrom(d, b, 0);
    forall i | 0 <= i < |b| && AllRequiredSeen(d, seen) ensures OwnSlotWritten(d, a, i) || OwnSlotWritten(d, b, i) {
      if d.fields[i].rule.Required? && RequiredIndex(d, i) < MAX_REQUIRED_FIELDS {
        RequiredIndexRises(d, i, |b|);
        assert RequiredIndex(d, i) in seen;
        EntryOfField(d, a, i);
        EntryOfField(d, b, i);
      }
    }
    if forall i | 0 <= i < |b| :: OwnSlotWritten(d, a, i) || OwnSlotWritten(d, b, i) {
      forall k | 0 <= k < RequiredCount(d) && k < MAX_REQUIRED_FIELDS ensures k in seen {
        var i := FieldOfEntry(d, |b|, k);
        assert OwnSlotWritten(d, a, i) || OwnSlotWritten(d, b, i);
        EntryOfField(d, a, i);
        EntryOfField(d, b, i);
      }
    }
  }

  /** The decoder gets through the fields of `b` from `i` on. */
  predicate TakesFrom(d: Desc, a: Message, b: Message, i: nat)
    requires Typed(d, a) && Typed(d, b)
  {
    forall j | i <= j < |a| :: TakesSlot(d.fields[j], a[j], b[j])
  }

  /** The state once the fields of `b` from `i` on have been read. */
  function AfterFrom(d: Desc, st: State, b: Message, i: nat): (st': State)
    requires Typed(d, st.m) && Typed(d, b) && i <= |st.m|
    ensures Typed(d, st'.m)
  {
    State(MergedFrom(d, st.m, b, i), st.seen + WrittenFrom(d, b, i))
  }

  lemma FieldDone(d: Desc, st: State, b: Message, i: nat)
    requires Typed(d, st.m) && Typed(d, b) && i < |st.m|
    ensures var st' := After(d, st, i, b[i]);
            && TakesFrom(d, st.m, b, i) == (TakesSlot(d.fields[i], st.m[i], b[i]) && TakesFrom(d, st'.m, b, i + 1))
            && AfterFrom(d, st', b, i + 1) == AfterFrom(d, st, b, i)
  {
  }

  lemma {:induction false} RunOnField(d: Desc, st: State, b: Message, i: nat, rest: seq<byte>)
    requires WellFormed(d) && Typed(d, st.m) && i < |st.m|
    requires Typed(d, b) && Fits(d, b)
    requires EncFrom(d, b, i).Some? && |EncFrom(d, b, i).value| < TWO32
    ensures EncFrom(d, b, i + 1).Some? && |EncFrom(d, b, i + 1).value| < TWO32
    ensures Run(d, st, EncFrom(d, b, i).value + rest)
         == if TakesSlot(d.fields[i], st.m[i], b[i])
            then Run(d, After(d, st, i, b[i]), EncFrom(d, b, i + 1).value + rest) else None
    decreases d, 2, 0
  {
    assert FitsSlot(d.fields[i], b[i]);
    var s, t := EncSlot(d.fields[i], b[i]).value, EncFrom(d, b, i + 1).value;
    assert EncFrom(d, b, i).value + rest == s + (t + rest);
    RunOnSlot(d, st, i, b[i], t + rest);
  }

  lemma {:induction false} RunOnFields(d: Desc, st: State, b: Message, i: nat, rest: seq<byte>)
    requires WellFormed(d) && Typed(d, st.m) && i <= |st.m|
    requires Typed(d, b) && Fits(d, b)
    requires EncFrom(d, b, i).Some? && |EncFrom(d, b, i).value| < TWO32
    ensures Run(d, st, EncFrom(d, b, i).value + rest)
         == if TakesFrom(d, st.m, b, i) then Run(d, AfterFrom(d, st, b, i), rest) else None
    decreases d, 3, |b| - i
  {
    hide WellFormed, Fits, Step, TakesSlot, SeeSlot, EncSlot, Run;
    if i == |b| {
      assert MergedFrom(d, st.m, b, i) == st.m;
      assert AfterFrom(d, st, b, i) == st;
      assert EncFrom(d, b, i).value + rest == rest;
    } else {
      RunOnField(d, st, b, i, rest);
      FieldDone(d, st, b, i);
      if TakesSlot(d.fields[i], st.m[i], b[i]) {
        RunOnFields(d, After(d, st, i, b[i]), b, i + 1, rest);
      }
    }
  }

  /** The structure that decoding starts from. */
  function Start(d: Desc, a: Message, init: bool): (m: Message)
    requires Typed(d, a)
    ensures Typed(d, m)
  {
    if init then Fresh(d) else a
  }

  /**
   Decoding an encoded message merges it. It fails exactly when some array would overflow or a
   required callback member had nothing to write. With `init`, the structure is first brought
   to its initial state.
   */
  lemma {:induction false} DecodeMessage(d: Desc, a: Message, init: bool, b: Message)
    requires WellFormed(d) && Typed(d, a)
    requires init ==> a == ZeroMessage(d)
    requires Typed(d, b) && Fits(d, b)
    requires EncMessage(d, b).Some? && |EncMessage(d, b).value| < TWO32
    ensures DecMessage(d, a, init, EncMessage(d, b).value)
         == if Room(d, Start(d, a, init), b) && Complete(d, b)
            then Some(Merged(d, Start(d, a, init), b)) else None
    decreases d, 4, 0
  {
    var base := Start(d, a, init);
    RunOnFields(d, State(base, {}), b, 0, []);
    assert EncMessage(d, b).value + [] == EncMessage(d, b).value;
    assert MergedFrom(d, base, b, 0) == Merged(d, base, b);
    assert {} + WrittenFrom(d, b, 0) == WrittenFrom(d, b, 0) + WrittenFrom(d, b, 0);
    TakesAll(d, base, b);
    BitmapCheck(d, b, b);
  }

  lemma TakesAll(d: Desc, a: Message, b: Message)
    requires Typed(d, a) && Typed(d, b)
    ensures TakesFrom(d, a, b, 0) <==> Room(d, a, b) && Inner(d, b, 0)
  {
    if TakesFrom(d, a, b, 0) {
      forall i | 0 <= i < |a| ensures RoomInSlot(d.fields[i], a[i], b[i]) && InnerSlot(d.fields[i], b[i]) {
        assert TakesSlot(d.fields[i], a[i], b[i]);
      }
    }
  }
}
