/** Laws of the codec that hold on any bytes. */
module CodecLaws {
  import opened Prelude
  import opened Wire
  import opened Schema
  import opened Codec
  import opened WireLaws

  // ---------------------------------------------------------------- locality

  lemma DecScalarAppend(sc: Scalar, s: seq<byte>, q: seq<byte>)
    requires DecScalar(sc, s).Got?
    ensures DecScalar(sc, s + q) == DecScalar(sc, s).More(q)
  {
    match sc
    case Bool => Dec32Append(s, q);
    case Fixed32 => TakeAppend(4, s, q);
    case Fixed64 => TakeAppend(8, s, q);
    case _ => Dec64Append(s, q);
  }

  lemma DecValueAppend(k: Kind, wt: nat, old_: Value, init: bool, s: seq<byte>, q: seq<byte>)
    requires TypedValue(k, old_) && DecValue(k, wt, old_, init, s).Got?
    ensures DecValue(k, wt, old_, init, s + q) == DecValue(k, wt, old_, init, s).More(q)
  {
    if k.Num? {
      DecScalarAppend(k.sc, s, q);
    } else {
      DecLenAppend(s, q);
    }
  }

  lemma DecFieldAppend(f: Field, wt: nat, sl: Slot, s: seq<byte>, q: seq<byte>)
    requires TypedSlot(f, sl) && DecField(f, wt, sl, s).Got?
    ensures DecField(f, wt, sl, s + q) == DecField(f, wt, sl, s).More(q)
  {
    match sl
    case Req(v) => DecValueAppend(f.kind, wt, v, false, s, q);
    case Opt(_, v) => DecValueAppend(f.kind, wt, v, false, s, q);
    case Rep(vs) =>
      if f.IsCallback() {
        if wt == WT_STRING {
          DecLenAppend(s, q);
        } else {
          RawAppend(wt, s, q);
        }
      } else if wt == WT_STRING && f.IsPackable() {
        DecLenAppend(s, q);
      } else {
        DecValueAppend(f.kind, wt, ZeroValue(f.kind), true, s, q);
      }
  }

  lemma StepAppend(d: Desc, st: State, s: seq<byte>, q: seq<byte>)
    requires Typed(d, st.m) && Step(d, st, s).Got?
    ensures Step(d, st, s + q) == Step(d, st, s).More(q)
  {
    DecTagAppend(s, q);
    var key, t := DecTag(s).value, DecTag(s).rest;
    match FindTag(d, key.0)
    case None => SkipAppend(key.1, t, q);
    case Some(i) => DecFieldAppend(d.fields[i], key.1, st.m[i], t, q);
  }

  /** Fields already read stand, whatever comes after them. */
  lemma {:induction false} RunAppend(d: Desc, st: State, p: seq<byte>, q: seq<byte>)
    requires Typed(d, st.m) && Run(d, st, p).Some?
    ensures Run(d, st, p + q) == Run(d, Run(d, st, p).value, q)
    decreases |p|
  {
    if p == [] {
      assert p + q == q;
    } else {
      StepAppend(d, st, p, q);
      var r := Step(d, st, p);
      RunAppend(d, r.value, r.rest, q);
    }
  }

  // ---------------------------------------------------------------- unknown fields

  /** One complete field, of any wire type, with a number that the table does not know. */
  ghost predicate UnknownField(d: Desc, u: seq<byte>) {
    exists tag: nat, wt, body ::
      && DecTag(u) == Got((tag, wt), body)
      && tag != 0 && (forall f | f in d.fields :: f.tag != tag)
      && IsBody(wt, body)
  }

  /** An unknown field, put between any two fields or at either end, does not change the outcome. */
  lemma UnknownFieldIgnored(d: Desc, m: Message, init: bool, p: seq<byte>, u: seq<byte>, q: seq<byte>)
    requires Typed(d, m) && UnknownField(d, u)
    requires init ==> SetDefaults(d, m).Some?
    requires var m0 := if init then SetDefaults(d, m).value else m; Run(d, State(m0, {}), p).Some?
    ensures DecMessage(d, m, init, p + u + q) == DecMessage(d, m, init, p + q)
  {
    hide Run, UnknownField, SetDefaults;
    RunPast(d, State(if init then SetDefaults(d, m).value else m, {}), p, u, q);
  }

  lemma RunPast(d: Desc, st: State, p: seq<byte>, u: seq<byte>, q: seq<byte>)
    requires Typed(d, st.m) && UnknownField(d, u) && Run(d, st, p).Some?
    ensures Run(d, st, p + u + q) == Run(d, st, p + q)
  {
    hide Run, UnknownField;
    var st' := Run(d, st, p).value;
    UnknownRun(d, st', u);
    RunAppend(d, st, p, q);
    RunAppend(d, st, p, u + q);
    RunAppend(d, st', u, q);
    assert p + u + q == p + (u + q);
  }

  lemma UnknownRun(d: Desc, st: State, u: seq<byte>)
    requires Typed(d, st.m) && UnknownField(d, u)
    ensures Run(d, st, u) == Some(st)
  {
    var tag: nat, wt, body :|
      && DecTag(u) == Got((tag, wt), body)
      && tag != 0 && (forall f | f in d.fields :: f.tag != tag)
      && IsBody(wt, body);
    assert FindTag(d, tag).None?;
    SkipBody(wt, body, []);
    assert body + [] == body;
    assert Step(d, st, u) == Got(st, []);
  }

  // ---------------------------------------------------------------- capacities

  lemma {:induction false} ZeroFits(d: Desc)
    requires SizesOk(d)
    ensures Fits(d, ZeroMessage(d))
    decreases d
  {
    var m := ZeroMessage(d);
    forall i | 0 <= i < |m| ensures FitsSlot(d.fields[i], m[i]) {
      var f := d.fields[i];
      assert f in d.fields;
      if !f.IsCallback() && !f.rule.Repeated? {
        ZeroValueFits(f.kind);
      }
    }
  }

  lemma {:induction false} ZeroValueFits(k: Kind)
    requires KindOk(k) && !k.CbNone?
    ensures FitsValue(k, ZeroValue(k))
    decreases k
  {
    match k
    case Sub(d) => ZeroFits(d);
    case CbMessages(d) => ZeroFits(d);
    case _ =>
  }

  /**
   Whatever the input bytes, a decode that succeeds leaves every member within its C type and
   every string, byte array and count within its capacity.
   */
  lemma {:induction false} DecodedFits(d: Desc, m: Message, init: bool, s: seq<byte>)
    requires SizesOk(d) && Fits(d, m) && Typed(d, m)
    requires DecMessage(d, m, init, s).Some?
    ensures Fits(d, DecMessage(d, m, init, s).value)
    decreases d, 3, 0
  {
    if init {
      DefaultsFit(d, m);
    }
    var m0 := if init then SetDefaults(d, m).value else m;
    RunFits(d, State(m0, {}), s);
  }

  lemma {:induction false} RunFits(d: Desc, st: State, s: seq<byte>)
    requires SizesOk(d) && Fits(d, st.m) && Typed(d, st.m)
    requires Run(d, st, s).Some?
    ensures Fits(d, Run(d, st, s).value.m)
    decreases d, 1, |s|
  {
    if s != [] {
      var r := Step(d, st, s);
      var key, t := DecTag(s).value, DecTag(s).rest;
      if FindTag(d, key.0).Some? {
        var i := FindTag(d, key.0).value;
        assert d.fields[i] in d.fields;
        DecFieldFits(d.fields[i], key.1, st.m[i], t);
      }
      RunFits(d, r.value, r.rest);
    }
  }

  lemma {:induction false} DecFieldFits(f: Field, wt: nat, sl: Slot, s: seq<byte>)
    requires KindOk(f.kind) && FitsSlot(f, sl) && TypedSlot(f, sl)
    requires DecField(f, wt, sl, s).Got?
    ensures FitsSlot(f, DecField(f, wt, sl, s).value)
    decreases f, 0, 0
  {
    match sl
    case Req(v) => DecValueFits(f.kind, wt, v, false, s);
    case Opt(_, v) => DecValueFits(f.kind, wt, v, false, s);
    case Rep(vs) =>
      if f.IsCallback() {
        var p := (if wt == WT_STRING then DecLen(s) else Raw(wt, s)).value;
        if f.kind.CbMessages? && p != [] {
          ZeroFits(f.kind.d);
          DecodedFits(f.kind.d, ZeroMessage(f.kind.d), true, p);
        }
      } else if wt == WT_STRING && f.IsPackable() {
        DecPackedFits(f.kind.sc, f.rule.max, vs, DecLen(s).value);
      } else {
        ZeroValueFits(f.kind);
        DecValueFits(f.kind, wt, ZeroValue(f.kind), true, s);
      }
  }

  lemma {:induction false} DecPackedFits(sc: Scalar, max: nat, vs: seq<Value>, p: seq<byte>)
    requires forall v | v in vs :: TypedValue(Num(sc), v)
    requires forall v | v in vs :: FitsValue(Num(sc), v)
    requires |vs| <= max && DecPacked(sc, max, vs, p).Some?
    ensures var ws := DecPacked(sc, max, vs, p).value;
            |ws| <= max && forall v | v in ws :: FitsValue(Num(sc), v)
    decreases |p|
  {
    if p != [] {
      var r := DecScalar(sc, p);
      DecPackedFits(sc, max, vs + [Number(r.value)], r.rest);
    }
  }

  lemma {:induction false} DecValueFits(k: Kind, wt: nat, old_: Value, init: bool, s: seq<byte>)
    requires KindOk(k) && FitsValue(k, old_) && TypedValue(k, old_)
    requires DecValue(k, wt, old_, init, s).Got?
    ensures FitsValue(k, DecValue(k, wt, old_, init, s).value)
    decreases k, 0, 0
  {
    if k.Sub? {
      DecodedFits(k.d, old_.m, init, DecLen(s).value);
    }
  }

  lemma {:induction false} DefaultsFit(d: Desc, m: Message)
    requires SizesOk(d) && Fits(d, m) && Typed(d, m)
    requires SetDefaults(d, m).Some?
    ensures Fits(d, SetDefaults(d, m).value)
    decreases d, 2, 0
  {
    if d.fields == [] {
    } else if d.defaults == [] {
      DefaultsFromFit(d, m, 0, 0, 0, []);
    } else {
      var r := DecTag(d.defaults);
      DefaultsFromFit(d, m, 0, r.value.0, r.value.1, r.rest);
    }
  }

  /** What a cleared member becomes, and where the walk through the defaults goes on. */
  function AfterDefault(f: Field, c: Option<Slot>, tag: nat, wt: nat,
      ds: seq<byte>): (o: Option<(Slot, nat, nat, seq<byte>)>)
    requires c.Some? ==> TypedSlot(f, c.value)
    ensures o.Some? ==> TypedSlot(f, o.value.0)
  {
    match c
    case None => None
    case Some(sl) =>
      if tag == 0 || f.tag != tag then Some((sl, tag, wt, ds))
      else match DecField(f, wt, sl, ds)
        case Fail => None
        case Got(sl', rest) =>
          match DecTag(rest)
          case Fail => None
          case Got(key, rest') => Some((ClearHas(f, sl'), key.0, key.1, rest'))
  }

  lemma OneDefault(d: Desc, m: Message, i: nat, tag: nat, wt: nat, ds: seq<byte>)
    requires Typed(d, m) && i < |m|
    ensures var o := AfterDefault(d.fields[i], ClearSlot(d.fields[i], m[i]), tag, wt, ds);
            DefaultsFrom(d, m, i, tag, wt, ds) ==
            if o.None? then None else DefaultsFrom(d, m[i := o.value.0], i + 1, o.value.1, o.value.2, o.value.3)
  {
  }

  lemma {:induction false} DefaultsFromFit(d: Desc, m: Message, i: nat, tag: nat, wt: nat, ds: seq<byte>)
    requires SizesOk(d) && Fits(d, m) && Typed(d, m) && i <= |m|
    requires DefaultsFrom(d, m, i, tag, wt, ds).Some?
    ensures Fits(d, DefaultsFrom(d, m, i, tag, wt, ds).value)
    decreases d, 1, |m| - i
  {
    FitsAt(d, m, i);
    hide Fits, FitsSlot, Typed, TypedSlot, SizesOk, KindOk, AfterDefault, ClearSlot;
    if i < |m| {
      var f := d.fields[i];
      OneDefault(d, m, i, tag, wt, ds);
      AfterDefaultFits(f, m[i], tag, wt, ds);
      var o := AfterDefault(f, ClearSlot(f, m[i]), tag, wt, ds).value;
      hide DefaultsFrom;
      SlotReplaced(d, m, i, o.0);
      DefaultsFromFit(d, m[i := o.0], i + 1, o.1, o.2, o.3);
    }
  }

  lemma {:induction false} AfterDefaultFits(f: Field, sl: Slot, tag: nat, wt: nat, ds: seq<byte>)
    requires KindOk(f.kind) && FitsSlot(f, sl) && TypedSlot(f, sl)
    ensures var o := AfterDefault(f, ClearSlot(f, sl), tag, wt, ds); o.Some? ==> FitsSlot(f, o.value.0)
    decreases f, 0, 1
  {
    var c := ClearSlot(f, sl);
    if c.Some? {
      ClearSlotFits(f, sl);
      if tag != 0 && f.tag == tag && DecField(f, wt, c.value, ds).Got? {
        DecFieldFits(f, wt, c.value, ds);
        ClearHasFits(f, DecField(f, wt, c.value, ds).value);
      }
    }
  }

  lemma FitsAt(d: Desc, m: Message, i: nat)
    requires SizesOk(d) && Fits(d, m) && Typed(d, m)
    ensures |m| == |d.fields|
    ensures i < |m| ==> KindOk(d.fields[i].kind) && FitsSlot(d.fields[i], m[i]) && TypedSlot(d.fields[i], m[i])
  {
    assert i < |m| ==> d.fields[i] in d.fields;
  }

  lemma ClearHasFits(f: Field, sl: Slot)
    requires FitsSlot(f, sl) && TypedSlot(f, sl)
    ensures FitsSlot(f, ClearHas(f, sl))
  {
  }

  lemma SlotReplaced(d: Desc, m: Message, i: nat, sl: Slot)
    requires Fits(d, m) && Typed(d, m) && i < |m|
    requires FitsSlot(d.fields[i], sl) && TypedSlot(d.fields[i], sl)
    ensures Fits(d, m[i := sl]) && Typed(d, m[i := sl])
  {
  }

  lemma {:induction false} ClearSlotFits(f: Field, sl: Slot)
    requires KindOk(f.kind) && FitsSlot(f, sl) && TypedSlot(f, sl)
    requires ClearSlot(f, sl).Some?
    ensures FitsSlot(f, ClearSlot(f, sl).value)
    decreases f, 0, 0
  {
    if !sl.Rep? {
      if f.kind.Sub? {
        DefaultsFit(f.kind.d, sl.v.m);
      } else {
        ZeroValueFits(f.kind);
      }
    }
  }
}
