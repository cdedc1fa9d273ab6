/** What initialisation leaves in a structure. */
module Defaults {
  import opened Prelude
  import opened Wire
  import opened Schema
  import opened Codec
  import opened CodecLaws
  import opened Merge
  import opened RoundTrip

  // ---------------------------------------------------------------- without default values

  predicate IsZero(d: Desc, m: Message)
    requires Typed(d, m)
    decreases d
  {
    forall i | 0 <= i < |m| :: IsZeroSlot(d.fields[i], m[i])
  }

  /** Nothing present, nothing in an array, all numbers and bytes zero. */
  predicate IsZeroSlot(f: Field, sl: Slot)
    requires TypedSlot(f, sl)
    decreases f
  {
    match sl
    case Req(v) => IsZeroValue(f.kind, v)
    case Opt(has, v) => !has && IsZeroValue(f.kind, v)
    case Rep(vs) => f.IsCallback() || vs == []
  }

  predicate IsZeroValue(k: Kind, v: Value)
    requires TypedValue(k, v)
    decreases k
  {
    match k
    case Num(_) => v.n == 0
    case FixedBytes(n) => |v.bs| == n && forall i | 0 <= i < n :: v.bs[i] == 0
    case Sub(d) => IsZero(d, v.m)
    case CbStrings => true
    case CbMessages(_) => true
    case _ => v.bs == []
  }

  /** A table without default values initialises to all zeros. */
  lemma {:induction false} InitialIsZero(d: Desc, m: Message)
    requires NoDefaults(d) && Typed(d, m) && SetDefaults(d, m).Some?
    ensures IsZero(d, SetDefaults(d, m).value)
    decreases d, 1, 0
  {
    InitialFrom(d, m, 0);
  }

  lemma {:induction false} InitialFrom(d: Desc, m: Message, i: nat)
    requires NoDefaults(d) && Typed(d, m) && i <= |m| && DefaultsFrom(d, m, i, 0, 0, []).Some?
    requires forall j | 0 <= j < i :: IsZeroSlot(d.fields[j], m[j])
    ensures IsZero(d, DefaultsFrom(d, m, i, 0, 0, []).value)
    decreases d, 0, |m| - i
  {
    if i < |m| {
      var f := d.fields[i];
      assert f in d.fields;
      var sl := ClearSlot(f, m[i]).value;
      ClearedIsZero(f, m[i]);
      InitialFrom(d, m[i := sl], i + 1);
    }
  }

  lemma {:induction false} ClearedIsZero(f: Field, sl: Slot)
    requires NoDefaultsKind(f.kind) && TypedSlot(f, sl) && ClearSlot(f, sl).Some?
    ensures IsZeroSlot(f, ClearSlot(f, sl).value)
    decreases f, 1, 0
  {
    if sl.Req? || sl.Opt? {
      ClearedValueIsZero(f.kind, sl.v);
    }
  }

  lemma {:induction false} ClearedValueIsZero(k: Kind, v: Value)
    requires NoDefaultsKind(k) && TypedValue(k, v) && ClearValue(k, v).Some?
    ensures IsZeroValue(k, ClearValue(k, v).value)
    decreases k, 0, 0
  {
    if k.Sub? {
      InitialIsZero(k.d, v.m);
    } else if k.FixedBytes? {
      ZerosAre(k.len);
    }
  }

  lemma {:induction false} ZerosAre(n: nat)
    ensures |Zeros(n)| == n && forall i | 0 <= i < n :: Zeros(n)[i] == 0
  {
  }

  // ---------------------------------------------------------------- callback members

  /** Initialisation leaves callback members alone, what they gathered included. */
  lemma CallbacksKept(d: Desc, m: Message, j: nat)
    requires Typed(d, m) && j < |m| && d.fields[j].IsCallback()
    requires d.defaults == [] && SetDefaults(d, m).Some?
    ensures SetDefaults(d, m).value[j] == m[j]
  {
    KeptFrom(d, m, 0, j);
  }

  lemma {:induction false} KeptFrom(d: Desc, m: Message, i: nat, j: nat)
    requires Typed(d, m) && i <= |m| && j < |m| && d.fields[j].IsCallback()
    requires DefaultsFrom(d, m, i, 0, 0, []).Some?
    ensures |DefaultsFrom(d, m, i, 0, 0, []).value| == |m| && DefaultsFrom(d, m, i, 0, 0, []).value[j] == m[j]
    decreases |m| - i
  {
    if i < |m| {
      KeptFrom(d, m[i := ClearSlot(d.fields[i], m[i]).value], i + 1, j);
    }
  }

  // ---------------------------------------------------------------- with default values

  /** After default items an array keeps as many as clearing the first byte of its 16-bit count leaves. */
  lemma FirstByteCleared(f: Field, vs: seq<Value>)
    requires TypedSlot(f, Rep(vs)) && !f.IsCallback()
    ensures var r := ClearHas(f, Rep(vs));
            r.Rep? && r.vs <= vs && |r.vs| % 256 == 0 && |vs| - |r.vs| < 256
  {
  }

  /** The kinds that a table can carry a default value for. */
  predicate Plain(k: Kind) {
    k.Num? || k.Bytes? || k.Str? || k.FixedBytes?
  }

  /** `b` names default values: for members of plain kinds only, and for no arrays. */
  predicate Offers(d: Desc, b: Message)
    requires Typed(d, b)
  {
    forall i | 0 <= i < |b| :: OffersSlot(d.fields[i], b[i])
  }

  predicate OffersSlot(f: Field, b: Slot)
    requires TypedSlot(f, b)
  {
    && FitsSlot(f, b) && WellFormedKind(f.kind) && 0 < f.tag < 0x1_0000
    && (b.Req? ==> Plain(f.kind))
    && (b.Opt? && b.has ==> Plain(f.kind))
    && (b.Rep? ==> b.vs == [])
  }

  function Given(k: Kind, v: Value): Value
    requires TypedValue(k, v)
  {
    if k.Str? then Blob(CString(v.bs)) else v
  }

  /** The default value if there is one, not marked as present; else the member as cleared. */
  function WithDefault(f: Field, b: Slot, cleared: Slot): Slot
    requires TypedSlot(f, b)
  {
    match b
    case Req(v) => Req(Given(f.kind, v))
    case Opt(has, v) => if has then Opt(false, Given(f.kind, v)) else cleared
    case Rep(_) => cleared
  }

  predicate Rising(d: Desc) {
    forall i, j | 0 <= i < j < |d.fields| :: d.fields[i].tag < d.fields[j].tag
  }

  /** The default values from member `i` on, as the table carries them: a zero tag ends them. */
  function Ahead(d: Desc, b: Message, i: nat): seq<byte>
    requires Typed(d, b) && i <= |b| && EncFrom(d, b, i).Some?
  {
    EncFrom(d, b, i).value + [0]
  }

  lemma NoTag()
    ensures DecTag([0]) == Got((0, 0), [])
  {
    TagRoundTrip(0, 0, []);
    assert EncTag(0, 0) + [] == [0];
  }

  /** What writing member `i` puts in front of the others. */
  lemma AheadStep(d: Desc, b: Message, i: nat)
    requires Typed(d, b) && Offers(d, b) && i < |b| && EncFrom(d, b, i).Some?
    ensures EncFrom(d, b, i + 1).Some? && EncSlot(d.fields[i], b[i]).Some?
    ensures |EncFrom(d, b, i + 1).value| <= |EncFrom(d, b, i).value|
    ensures |EncSlot(d.fields[i], b[i]).value| <= |EncFrom(d, b, i).value|
    ensures Ahead(d, b, i) == EncSlot(d.fields[i], b[i]).value + Ahead(d, b, i + 1)
  {
  }

  /** A member without a default value writes nothing; one with, its tag and value. */
  lemma SlotStep(f: Field, b: Slot, rest: seq<byte>)
    requires TypedSlot(f, b) && OffersSlot(f, b) && EncSlot(f, b).Some?
    ensures b.Rep? || (b.Opt? && !b.has) ==> EncSlot(f, b) == Some([])
    ensures b.Req? || (b.Opt? && b.has) ==>
              && EncValue(f.kind, b.v).Some? && |EncValue(f.kind, b.v).value| < |EncSlot(f, b).value|
              && DecTag(EncSlot(f, b).value + rest)
                  == Got((f.tag, WireType(f.kind)), EncValue(f.kind, b.v).value + rest)
  {
    if b.Req? || (b.Opt? && b.has) {
      var t, s := EncTag(f.tag, WireType(f.kind)), EncValue(f.kind, b.v).value;
      assert (t + s) + rest == t + (s + rest);
      TagRoundTrip(f.tag, WireType(f.kind), s + rest);
    }
  }

  /** The next default value belongs to a member that is still to come. */
  lemma {:induction false} NextTag(d: Desc, b: Message, i: nat)
    requires Typed(d, b) && Offers(d, b) && i <= |b| && EncFrom(d, b, i).Some?
    ensures DecTag(Ahead(d, b, i)).Got?
    ensures var tag := DecTag(Ahead(d, b, i)).value.0;
            tag == 0 || exists j :: i <= j < |b| && d.fields[j].tag == tag
    decreases |b| - i
  {
    if i == |b| {
      NoTag();
      assert Ahead(d, b, i) == [0];
    } else {
      AheadStep(d, b, i);
      SlotStep(d.fields[i], b[i], Ahead(d, b, i + 1));
      if b[i].Rep? || (b[i].Opt? && !b[i].has) {
        assert [] + Ahead(d, b, i + 1) == Ahead(d, b, i + 1);
        NextTag(d, b, i + 1);
      }
    }
  }

  lemma TakesDefault(f: Field, b: Slot, cleared: Slot, rest: seq<byte>)
    requires TypedSlot(f, b) && OffersSlot(f, b) && TypedSlot(f, cleared) && (b.Req? || (b.Opt? && b.has))
    requires EncValue(f.kind, b.v).Some? && |EncValue(f.kind, b.v).value| < TWO32
    ensures var r := DecField(f, WireType(f.kind), cleared, EncValue(f.kind, b.v).value + rest);
            r.Got? && r.rest == rest && ClearHas(f, r.value) == WithDefault(f, b, cleared)
  {
    DecodeValue(f.kind, cleared.v, false, b.v, rest);
  }

  /**
   A table that carries the encoding of `b` as its default values initialises each member to the
   value in `b`, and clears those that `b` has no value for.
   */
  lemma DefaultsTaken(d: Desc, m: Message, b: Message)
    requires d.fields != [] && Rising(d) && Typed(d, m) && Typed(d, b) && Offers(d, b)
    requires EncMessage(d, b).Some? && |EncMessage(d, b).value| < TWO32 && d.defaults == EncMessage(d, b).value + [0]
    requires forall j | 0 <= j < |m| :: ClearSlot(d.fields[j], m[j]).Some?
    ensures SetDefaults(d, m).Some?
    ensures forall j | 0 <= j < |m| ::
              SetDefaults(d, m).value[j] == WithDefault(d.fields[j], b[j], ClearSlot(d.fields[j], m[j]).value)
  {
    NextTag(d, b, 0);
    TakenFrom(d, m, b, 0);
  }

  lemma {:induction false} TakenFrom(d: Desc, m: Message, b: Message, i: nat)
    requires Rising(d) && Typed(d, m) && Typed(d, b) && Offers(d, b) && i <= |m|
    requires EncFrom(d, b, i).Some? && |EncFrom(d, b, i).value| < TWO32 && DecTag(Ahead(d, b, i)).Got?
    requires forall j | i <= j < |m| :: ClearSlot(d.fields[j], m[j]).Some?
    ensures var t := DecTag(Ahead(d, b, i));
            var r := DefaultsFrom(d, m, i, t.value.0, t.value.1, t.rest);
            && r.Some? && |r.value| == |m| && r.value[..i] == m[..i]
            && forall j | i <= j < |m| ::
                 r.value[j] == WithDefault(d.fields[j], b[j], ClearSlot(d.fields[j], m[j]).value)
    decreases |m| - i
  {
    assert |m| == |b| == |d.fields|;
    hide DefaultsFrom, Ahead, ClearSlot, WithDefault, Offers, OffersSlot, Rising, EncFrom, DecTag;
    if i < |m| {
      OneTaken(d, m, b, i);
      TakenFrom(d, m[i := Now(d, m, b, i)], b, i + 1);
    } else {
      NothingLeft(d, m, b);
    }
  }

  lemma NothingLeft(d: Desc, m: Message, b: Message)
    requires Typed(d, m) && Typed(d, b) && DecTag(Ahead(d, b, |m|)).Got?
    ensures var t := DecTag(Ahead(d, b, |m|)); DefaultsFrom(d, m, |m|, t.value.0, t.value.1, t.rest) == Some(m)
  {
  }

  function Now(d: Desc, m: Message, b: Message, i: nat): (r: Slot)
    requires Typed(d, m) && Typed(d, b) && i < |m| && ClearSlot(d.fields[i], m[i]).Some?
    ensures TypedSlot(d.fields[i], r)
  {
    assert TypedSlot(d.fields[i], b[i]) && TypedSlot(d.fields[i], m[i]);
    GivenTyped(d.fields[i].kind);
    WithDefault(d.fields[i], b[i], ClearSlot(d.fields[i], m[i]).value)
  }

  lemma GivenTyped(k: Kind)
    ensures forall v | TypedValue(k, v) :: TypedValue(k, Given(k, v))
  {
  }

  /** Member `i` takes its default value, and the walk stands before the next one. */
  lemma OneTaken(d: Desc, m: Message, b: Message, i: nat)
    requires Rising(d) && Typed(d, m) && Typed(d, b) && Offers(d, b) && i < |m|
    requires EncFrom(d, b, i).Some? && |EncFrom(d, b, i).value| < TWO32 && DecTag(Ahead(d, b, i)).Got?
    requires ClearSlot(d.fields[i], m[i]).Some?
    ensures EncFrom(d, b, i + 1).Some? && |EncFrom(d, b, i + 1).value| < TWO32 && DecTag(Ahead(d, b, i + 1)).Got?
    ensures Typed(d, m[i := Now(d, m, b, i)])
    ensures var t, u := DecTag(Ahead(d, b, i)), DecTag(Ahead(d, b, i + 1));
            DefaultsFrom(d, m, i, t.value.0, t.value.1, t.rest)
            == DefaultsFrom(d, m[i := Now(d, m, b, i)], i + 1, u.value.0, u.value.1, u.rest)
  {
    assert TypedSlot(d.fields[i], m[i]) && TypedSlot(d.fields[i], b[i]);
    TypedWith(d, m, b, i);
    var t := DecTag(Ahead(d, b, i));
    OneMember(d, b, i, ClearSlot(d.fields[i], m[i]).value);
    hide Ahead, Offers, EncFrom, DecTag, ClearSlot, WithDefault, Rising, AfterDefault, DefaultsFrom, Typed, TypedSlot;
    OneDefault(d, m, i, t.value.0, t.value.1, t.rest);
  }

  lemma TypedWith(d: Desc, m: Message, b: Message, i: nat)
    requires Typed(d, m) && Typed(d, b) && i < |m| && ClearSlot(d.fields[i], m[i]).Some?
    ensures Typed(d, m[i := Now(d, m, b, i)])
    ensures Now(d, m, b, i) == WithDefault(d.fields[i], b[i], ClearSlot(d.fields[i], m[i]).value)
  {
  }

  lemma OneMember(d: Desc, b: Message, i: nat, cleared: Slot)
    requires Rising(d) && Typed(d, b) && Offers(d, b) && i < |b| && TypedSlot(d.fields[i], cleared)
    requires EncFrom(d, b, i).Some? && |EncFrom(d, b, i).value| < TWO32 && DecTag(Ahead(d, b, i)).Got?
    ensures EncFrom(d, b, i + 1).Some? && |EncFrom(d, b, i + 1).value| < TWO32 && DecTag(Ahead(d, b, i + 1)).Got?
    ensures var t, u := DecTag(Ahead(d, b, i)), DecTag(Ahead(d, b, i + 1));
            AfterDefault(d.fields[i], Some(cleared), t.value.0, t.value.1, t.rest)
            == Some((WithDefault(d.fields[i], b[i], cleared), u.value.0, u.value.1, u.rest))
  {
    var f, t := d.fields[i], DecTag(Ahead(d, b, i));
    var u := DecTag(Ahead(d, b, i + 1));
    AheadStep(d, b, i);
    NextTag(d, b, i + 1);
    assert OffersSlot(f, b[i]) && TypedSlot(f, b[i]);
    SlotStep(f, b[i], Ahead(d, b, i + 1));
    hide AfterDefault, WithDefault, Offers, OffersSlot, EncFrom, EncSlot, DecTag, Typed, TypedSlot;
    if b[i].Rep? || (b[i].Opt? && !b[i].has) {
      assert [] + Ahead(d, b, i + 1) == Ahead(d, b, i + 1);
      assert t.value.0 == 0 || f.tag != t.value.0;
      AbsentAfter(f, b[i], cleared, t.value.0, t.value.1, t.rest);
    } else {
      PresentAfter(f, b[i], cleared, Ahead(d, b, i + 1));
    }
  }

  lemma AbsentAfter(f: Field, b: Slot, cleared: Slot, tag: nat, wt: nat, ds: seq<byte>)
    requires TypedSlot(f, b) && TypedSlot(f, cleared) && (b.Rep? || (b.Opt? && !b.has))
    requires tag == 0 || f.tag != tag
    ensures AfterDefault(f, Some(cleared), tag, wt, ds) == Some((WithDefault(f, b, cleared), tag, wt, ds))
  {
  }

  lemma PresentAfter(f: Field, b: Slot, cleared: Slot, rest: seq<byte>)
    requires TypedSlot(f, b) && OffersSlot(f, b) && TypedSlot(f, cleared) && (b.Req? || (b.Opt? && b.has))
    requires EncValue(f.kind, b.v).Some? && |EncValue(f.kind, b.v).value| < TWO32 && DecTag(rest).Got?
    ensures var u := DecTag(rest);
            AfterDefault(f, Some(cleared), f.tag, WireType(f.kind), EncValue(f.kind, b.v).value + rest)
            == Some((WithDefault(f, b, cleared), u.value.0, u.value.1, u.rest))
  {
    TakesDefault(f, b, cleared, rest);
    hide DecField, DecTag, EncValue, WithDefault;
  }
}
