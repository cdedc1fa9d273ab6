/** The main theorems about the codec. */
module RoundTrip {
  import opened Prelude
  import opened Wire
  import opened Schema
  import opened Codec
  import opened CodecLaws
  import opened Merge

  // A message survives encoding and decoding, two encodings in a row decode to their merge, and
  // initialisation makes the old contents of the destination irrelevant.

  // ---------------------------------------------------------------- initialisation

  /** No callback has gathered anything yet, here or in a singular submessage. */
  predicate Idle(d: Desc, m: Message)
    requires Typed(d, m)
    decreases d
  {
    forall i | 0 <= i < |m| :: IdleSlot(d.fields[i], m[i])
  }

  predicate IdleSlot(f: Field, sl: Slot)
    requires TypedSlot(f, sl)
    decreases f
  {
    match sl
    case Req(v) => IdleValue(f.kind, v)
    case Opt(_, v) => IdleValue(f.kind, v)
    case Rep(vs) => f.IsCallback() ==> vs == []
  }

  predicate IdleValue(k: Kind, v: Value)
    requires TypedValue(k, v)
    decreases k
  {
    match k
    case Sub(d) => Idle(d, v.m)
    case _ => true
  }

  lemma {:induction false} ZeroIsIdle(d: Desc)
    ensures Idle(d, ZeroMessage(d))
    decreases d
  {
    var m := ZeroMessage(d);
    forall i | 0 <= i < |m| ensures IdleSlot(d.fields[i], m[i]) {
      if d.fields[i].kind.Sub? && !m[i].Rep? {
        ZeroIsIdle(d.fields[i].kind.d);
        ZeroSub(d.fields[i]);
        assert m[i] == ZeroSlot(d.fields[i]);
      }
    }
  }

  lemma ZeroSub(f: Field)
    requires f.kind.Sub? && !f.rule.Repeated?
    ensures !ZeroSlot(f).Rep? && ZeroSlot(f).v == Msg(ZeroMessage(f.kind.d))
  {
    assert ZeroValue(f.kind) == Msg(ZeroMessage(f.kind.d));
  }

  /** Initialisation does not depend on what the structure held before. */
  lemma {:induction false} InitForgets(d: Desc, m1: Message, m2: Message)
    requires Typed(d, m1) && Typed(d, m2) && Idle(d, m1) && Idle(d, m2)
    ensures SetDefaults(d, m1) == SetDefaults(d, m2)
    decreases d, 1, 0
  {
    assert m1[..0] == m2[..0];
    if d.fields == [] {
      assert m1 == m2;
    } else if d.defaults == [] {
      DefaultsForget(d, m1, m2, 0, 0, 0, []);
    } else if DecTag(d.defaults).Got? {
      var r := DecTag(d.defaults);
      DefaultsForget(d, m1, m2, 0, r.value.0, r.value.1, r.rest);
    }
  }

  lemma {:induction false} DefaultsForget(d: Desc, m1: Message, m2: Message, i: nat, tag: nat, wt: nat, ds: seq<byte>)
    requires Typed(d, m1) && Typed(d, m2) && i <= |m1|
    requires m1[..i] == m2[..i]
    requires forall j | i <= j < |m1| :: IdleSlot(d.fields[j], m1[j]) && IdleSlot(d.fields[j], m2[j])
    ensures DefaultsFrom(d, m1, i, tag, wt, ds) == DefaultsFrom(d, m2, i, tag, wt, ds)
    decreases d, 0, |m1| - i
  {
    assert |m1| == |m2| == |d.fields|;
    hide IdleSlot, Typed, TypedSlot, ClearSlot, ClearHas, DecField, DecTag, AfterDefault;
    if i == |m1| {
      assert m1 == m2;
    } else {
      hide DefaultsFrom;
      var f := d.fields[i];
      TypedAt(d, m1, m2, i);
      ClearForgets(f, m1[i], m2[i]);
      OneDefault(d, m1, i, tag, wt, ds);
      OneDefault(d, m2, i, tag, wt, ds);
      var o := AfterDefault(f, ClearSlot(f, m1[i]), tag, wt, ds);
      if o.Some? {
        SameUpTo(m1, m2, i, o.value.0);
        TypedReplaced(d, m1, m2, i, o.value.0);
        DefaultsForget(d, m1[i := o.value.0], m2[i := o.value.0], i + 1, o.value.1, o.value.2, o.value.3);
      }
    }
  }

  lemma TypedAt(d: Desc, m1: Message, m2: Message, i: nat)
    requires Typed(d, m1) && Typed(d, m2) && i < |m1|
    ensures TypedSlot(d.fields[i], m1[i]) && TypedSlot(d.fields[i], m2[i])
  {
  }

  lemma TypedReplaced(d: Desc, m1: Message, m2: Message, i: nat, sl: Slot)
    requires Typed(d, m1) && Typed(d, m2) && i < |m1| && TypedSlot(d.fields[i], sl)
    ensures Typed(d, m1[i := sl]) && Typed(d, m2[i := sl])
  {
  }

  lemma SameUpTo(m1: Message, m2: Message, i: nat, sl: Slot)
    requires |m1| == |m2| && i < |m1| && m1[..i] == m2[..i]
    ensures m1[i := sl][..i + 1] == m2[i := sl][..i + 1]
  {
    assert m1[i := sl][..i + 1] == m1[..i] + [sl];
    assert m2[i := sl][..i + 1] == m2[..i] + [sl];
  }

  lemma {:induction false} ClearForgets(f: Field, s1: Slot, s2: Slot)
    requires TypedSlot(f, s1) && TypedSlot(f, s2) && IdleSlot(f, s1) && IdleSlot(f, s2)
    ensures ClearSlot(f, s1) == ClearSlot(f, s2)
    decreases f, 0, 0
  {
    if f.kind.Sub? && !s1.Rep? {
      InitForgets(f.kind.d, s1.v.m, s2.v.m);
    }
  }

  // ---------------------------------------------------------------- tables without default values

  lemma DecodeForgets(d: Desc, dest: Message, s: seq<byte>)
    requires Typed(d, dest) && Idle(d, dest)
    ensures DecMessage(d, dest, true, s) == DecMessage(d, ZeroMessage(d), true, s)
  {
    ZeroIsIdle(d);
    InitForgets(d, dest, ZeroMessage(d));
  }

  /** With initialisation, a successful decode leaves everything within its capacity, over any old contents. */
  lemma DecodedFitsAfresh(d: Desc, m: Message, s: seq<byte>)
    requires SizesOk(d) && Typed(d, m) && Idle(d, m)
    requires DecMessage(d, m, true, s).Some?
    ensures Fits(d, DecMessage(d, m, true, s).value)
  {
    DecodeForgets(d, m, s);
    ZeroFits(d);
    DecodedFits(d, ZeroMessage(d), true, s);
  }

  /** Neither the table nor any table below it carries default values. */
  predicate NoDefaults(d: Desc)
    decreases d
  {
    d.defaults == [] && forall f | f in d.fields :: NoDefaultsKind(f.kind)
  }

  predicate NoDefaultsKind(k: Kind)
    decreases k
  {
    match k
    case Sub(d) => NoDefaults(d)
    case _ => true
  }

  /** Such tables always initialise, to an empty structure. */
  lemma {:induction false} PlainInit(d: Desc, m: Message)
    requires NoDefaults(d) && Typed(d, m) && Idle(d, m)
    ensures SetDefaults(d, m).Some? && Empty(d, SetDefaults(d, m).value)
    decreases d, 1, 0
  {
    if d.fields != [] {
      PlainFrom(d, m, 0);
    }
  }

  lemma {:induction false} PlainFrom(d: Desc, m: Message, i: nat)
    requires NoDefaults(d) && Typed(d, m) && i <= |m|
    requires forall j | 0 <= j < |m| :: if j < i then EmptySlot(d.fields[j], m[j]) else IdleSlot(d.fields[j], m[j])
    ensures DefaultsFrom(d, m, i, 0, 0, []).Some? && Empty(d, DefaultsFrom(d, m, i, 0, 0, []).value)
    decreases d, 0, |m| - i
  {
    if i < |m| {
      var f := d.fields[i];
      assert f in d.fields && IdleSlot(f, m[i]);
      PlainClear(f, m[i]);
      PlainFrom(d, m[i := ClearSlot(f, m[i]).value], i + 1);
    }
  }

  lemma {:induction false} PlainClear(f: Field, sl: Slot)
    requires NoDefaultsKind(f.kind) && TypedSlot(f, sl) && IdleSlot(f, sl)
    ensures ClearSlot(f, sl).Some? && EmptySlot(f, ClearSlot(f, sl).value)
    decreases f, 0, 0
  {
    if !sl.Rep? {
      PlainClearValue(f.kind, sl.v);
    }
  }

  lemma {:induction false} PlainClearValue(k: Kind, v: Value)
    requires NoDefaultsKind(k) && TypedValue(k, v) && IdleValue(k, v)
    ensures ClearValue(k, v).Some? && EmptyValue(k, ClearValue(k, v).value)
    decreases k, 0, 0
  {
    if k.Sub? {
      PlainInit(k.d, v.m);
    }
  }

  // ---------------------------------------------------------------- what comes back

  /**
   `r` has the has-flags, counts and values of `b`; a field absent from `b` is as in `base`,
   the initial state of the structure.
   */
  predicate Restored(d: Desc, b: Message, r: Message, base: Message)
    requires Typed(d, b) && Typed(d, r) && Typed(d, base)
    decreases d
  {
    forall i | 0 <= i < |b| :: RestoredSlot(d.fields[i], b[i], r[i], base[i])
  }

  predicate RestoredSlot(f: Field, b: Slot, r: Slot, base: Slot)
    requires TypedSlot(f, b) && TypedSlot(f, r) && TypedSlot(f, base)
    decreases f
  {
    match b
    case Req(v) => RestoredValue(f.kind, v, r.v, base.v)
    case Opt(has, v) => r.has == has && if has then RestoredValue(f.kind, v, r.v, base.v) else r.v == base.v
    case Rep(vs) =>
      |r.vs| == |vs| && forall i | 0 <= i < |vs| :: RestoredItem(f.kind, vs[i], r.vs[i])
  }

  predicate RestoredValue(k: Kind, b: Value, r: Value, base: Value)
    requires TypedValue(k, b) && TypedValue(k, r) && TypedValue(k, base)
    decreases k, 0
  {
    match k
    case Sub(d) => Restored(d, b.m, r.m, base.m)
    case _ => r == b
  }

  predicate RestoredItem(k: Kind, b: Value, r: Value)
    requires TypedValue(k, b) && TypedValue(k, r)
    decreases k, 1
  {
    match k
    case Sub(d) => Restored(d, b.m, r.m, Fresh(d))
    case CbMessages(d) => Restored(d, b.m, r.m, Fresh(d))
    case _ => r == b
  }

  /** Texts end at their terminator only, and every callback item has something to write. */
  predicate Clean(d: Desc, b: Message)
    requires Typed(d, b)
    decreases d
  {
    forall i | 0 <= i < |b| :: CleanSlot(d.fields[i], b[i])
  }

  predicate CleanSlot(f: Field, b: Slot)
    requires TypedSlot(f, b)
    decreases f
  {
    match b
    case Req(v) => CleanValue(f.kind, v)
    case Opt(has, v) => has ==> CleanValue(f.kind, v)
    case Rep(vs) => forall v | v in vs :: CleanValue(f.kind, v)
  }

  predicate CleanValue(k: Kind, b: Value)
    requires TypedValue(k, b)
    decreases k
  {
    match k
    case Str(_) => 0 !in b.bs
    case CbStrings => 0 !in b.bs && b.bs != []
    case Sub(d) => Clean(d, b.m)
    case CbMessages(d) => Clean(d, b.m) && EncMessage(d, b.m) != Some([])
    case _ => true
  }

  lemma {:induction false} CStringWhole(bs: seq<byte>)
    ensures CString(bs) == bs <==> 0 !in bs
  {
    if bs != [] {
      CStringWhole(bs[1..]);
      assert bs == [bs[0]] + bs[1..];
    }
  }

  /** Merging into an empty structure restores the message, exactly when it is clean. */
  lemma {:induction false} MergedIntoEmpty(d: Desc, a: Message, b: Message)
    requires WellFormed(d) && Typed(d, a) && Empty(d, a) && Typed(d, b)
    ensures Restored(d, b, Merged(d, a, b), a) <==> Clean(d, b)
    decreases d, 3, 0
  {
    var r := Merged(d, a, b);
    forall i | 0 <= i < |b|
      ensures RestoredSlot(d.fields[i], b[i], r[i], a[i]) <==> CleanSlot(d.fields[i], b[i])
    {
      assert d.fields[i] in d.fields && EmptySlot(d.fields[i], a[i]);
      MergedIntoEmptySlot(d.fields[i], a[i], b[i]);
    }
  }

  lemma {:induction false} MergedIntoEmptySlot(f: Field, a: Slot, b: Slot)
    requires WellFormedKind(f.kind) && TypedSlot(f, a) && EmptySlot(f, a) && TypedSlot(f, b)
    ensures RestoredSlot(f, b, MergedSlot(f, a, b), a) <==> CleanSlot(f, b)
    decreases f, 2, 0
  {
    match b
    case Req(v) => MergedIntoEmptyValue(f.kind, a.v, v);
    case Opt(has, v) => if has { MergedIntoEmptyValue(f.kind, a.v, v); }
    case Rep(vs) =>
      ArrivingRestores(f.kind, vs);
      assert a.vs + Arriving(f.kind, vs) == Arriving(f.kind, vs);
  }

  lemma {:induction false} MergedIntoEmptyValue(k: Kind, a: Value, b: Value)
    requires WellFormedKind(k) && TypedValue(k, a) && EmptyValue(k, a) && TypedValue(k, b)
    requires !k.CbStrings? && !k.CbMessages?
    ensures RestoredValue(k, b, MergedValue(k, a, b), a) <==> CleanValue(k, b)
    decreases k, 1, 0
  {
    if k.Sub? {
      MergedIntoEmpty(k.d, a.m, b.m);
    } else if k.Str? {
      CStringWhole(b.bs);
    }
  }

  /** All items arrive, each as it was. */
  predicate AllRestored(k: Kind, vs: seq<Value>, ws: seq<Value>)
    requires forall v | v in vs :: TypedValue(k, v)
    requires forall w | w in ws :: TypedValue(k, w)
  {
    |ws| == |vs| && forall i | 0 <= i < |vs| :: RestoredItem(k, vs[i], ws[i])
  }

  lemma {:induction false} ArrivingRestores(k: Kind, vs: seq<Value>)
    requires WellFormedKind(k)
    requires forall v | v in vs :: TypedValue(k, v)
    ensures |Arriving(k, vs)| <= |vs|
    ensures AllRestored(k, vs, Arriving(k, vs)) <==> forall v | v in vs :: CleanValue(k, v)
    decreases k, 2, |vs|
  {
    if vs != [] {
      ItemRestores(k, vs[0]);
      ArrivingRestores(k, vs[1..]);
      hide RestoredItem, CleanValue, ArrivingItem, WellFormedKind, TypedValue, AllRestored;
      FirstAndRest(k, vs, ArrivingItem(k, vs[0]), Arriving(k, vs[1..]));
      assert vs == [vs[0]] + vs[1..];
    } else {
      assert AllRestored(k, [], []);
    }
  }

  lemma FirstAndRest(k: Kind, vs: seq<Value>, first: seq<Value>, rest: seq<Value>)
    requires vs != [] && |first| <= 1 && |rest| <= |vs| - 1
    requires forall v | v in vs :: TypedValue(k, v)
    requires (forall w | w in first :: TypedValue(k, w)) && forall w | w in rest :: TypedValue(k, w)
    ensures AllRestored(k, vs, first + rest)
       <==> (|first| == 1 && RestoredItem(k, vs[0], first[0])) && AllRestored(k, vs[1..], rest)
  {
    hide RestoredItem, TypedValue;
    var ws := first + rest;
    if |first| == 1 {
      assert forall i | 1 <= i < |ws| :: ws[i] == rest[i - 1];
      if AllRestored(k, vs, ws) {
        forall i | 0 <= i < |vs| - 1
          ensures RestoredItem(k, vs[1..][i], rest[i])
        {
          assert RestoredItem(k, vs[i + 1], ws[i + 1]);
        }
      }
    }
  }

  lemma {:induction false} ItemRestores(k: Kind, v: Value)
    requires WellFormedKind(k) && TypedValue(k, v)
    ensures var ws := ArrivingItem(k, v);
            |ws| <= 1 && (|ws| == 1 && RestoredItem(k, v, ws[0]) <==> CleanValue(k, v))
    decreases k, 1, 0
  {
    match k
    case Sub(d) => MergedIntoEmpty(d, Fresh(d), v.m);
    case CbMessages(d) => MergedIntoEmpty(d, Fresh(d), v.m);
    case Str(_) => CStringWhole(v.bs);
    case CbStrings => CStringWhole(v.bs);
    case _ =>
  }

  /** A message within its field sizes can be encoded. */
  lemma {:induction false} FitsEncodes(d: Desc, m: Message)
    requires Typed(d, m) && Fits(d, m)
    ensures EncMessage(d, m).Some?
    decreases d, 1, 0
  {
    FitsEncodesFrom(d, m, 0);
  }

  lemma {:induction false} FitsEncodesFrom(d: Desc, m: Message, i: nat)
    requires Typed(d, m) && Fits(d, m) && i <= |m|
    ensures EncFrom(d, m, i).Some?
    decreases d, 0, |m| - i
  {
    if i < |m| {
      FitsEncodesFrom(d, m, i + 1);
      assert FitsSlot(d.fields[i], m[i]);
      FitsEncodesSlot(d.fields[i], m[i]);
    }
  }

  lemma {:induction false} FitsEncodesSlot(f: Field, sl: Slot)
    requires TypedSlot(f, sl) && FitsSlot(f, sl)
    ensures EncSlot(f, sl).Some?
    decreases f, 1, 0
  {
    match sl
    case Req(v) => FitsEncodesValue(f.kind, v);
    case Opt(_, v) => FitsEncodesValue(f.kind, v);
    case Rep(vs) => FitsEncodesItems(f, vs);
  }

  lemma {:induction false} FitsEncodesItems(f: Field, vs: seq<Value>)
    requires forall v | v in vs :: TypedValue(f.kind, v) && FitsValue(f.kind, v)
    ensures EncItems(f, vs).Some?
    decreases f, 0, |vs|
  {
    if vs != [] {
      assert TypedValue(f.kind, vs[0]) && FitsValue(f.kind, vs[0]);
      FitsEncodesValue(f.kind, vs[0]);
      FitsEncodesItems(f, vs[1..]);
    }
  }

  lemma {:induction false} FitsEncodesValue(k: Kind, v: Value)
    requires TypedValue(k, v) && FitsValue(k, v)
    ensures EncValue(k, v).Some?
    decreases k, 0, 0
  {
    match k
    case Sub(d) => FitsEncodes(d, v.m);
    case CbMessages(d) => FitsEncodes(d, v.m);
    case _ =>
  }

  // ---------------------------------------------------------------- the theorems

  /**
   Round trip: any message within its field sizes encodes. Decoding the bytes into a structure
   with any old contents succeeds if and only if no required callback member was left without an
   item. It then gives the message back, absent fields in their initial state, if and only if the
   message is clean; any other is cut at its zeros and loses the items that write nothing.
   */
  lemma RoundTrip(d: Desc, dest: Message, b: Message)
    requires WellFormed(d)
    requires Typed(d, dest) && Idle(d, dest)
    requires Typed(d, b) && Fits(d, b)
    ensures EncMessage(d, b).Some?
    ensures |EncMessage(d, b).value| < TWO32 ==>
              var r := DecMessage(d, dest, true, EncMessage(d, b).value);
              && (r.Some? <==> Complete(d, b))
              && (r.Some? ==> r.value == Merged(d, Fresh(d), b))
              && (r.Some? ==> (Restored(d, b, r.value, Fresh(d)) <==> Clean(d, b)))
  {
    FitsEncodes(d, b);
    if |EncMessage(d, b).value| < TWO32 {
      hide Idle, Fits, Clean, Restored, Complete, Empty, WellFormed, DecMessage, EncMessage, SetDefaults, Merged, Typed;
      DecodeForgets(d, dest, EncMessage(d, b).value);
      DecodeFresh(d, b);
      MergedIntoEmpty(d, Fresh(d), b);
    }
  }

  lemma RunBoth(d: Desc, a: Message, b: Message)
    requires WellFormed(d)
    requires Typed(d, a) && Fits(d, a) && Typed(d, b) && Fits(d, b)
    requires EncMessage(d, a).Some? && |EncMessage(d, a).value| < TWO32
    requires EncMessage(d, b).Some? && |EncMessage(d, b).value| < TWO32
    ensures Run(d, State(Fresh(d), {}), EncMessage(d, a).value + EncMessage(d, b).value)
         == if Inner(d, a, 0) && Room(d, Merged(d, Fresh(d), a), b) && Inner(d, b, 0)
            then Some(State(Merged(d, Merged(d, Fresh(d), a), b), WrittenFrom(d, a, 0) + WrittenFrom(d, b, 0)))
            else None
  {
    hide Run, Fits, Room, Inner, RequiredIndex, WellFormed, WrittenFrom, EncMessage;
    EmptyHasRoomFresh(d, a);
    RunWhole(d, State(Fresh(d), {}), a, EncMessage(d, b).value);
    assert {} + WrittenFrom(d, a, 0) == WrittenFrom(d, a, 0);
    RunWhole(d, State(Merged(d, Fresh(d), a), WrittenFrom(d, a, 0)), b, []);
    RunNothing(d, State(Merged(d, Merged(d, Fresh(d), a), b), WrittenFrom(d, a, 0) + WrittenFrom(d, b, 0)));
    assert EncMessage(d, b).value + [] == EncMessage(d, b).value;
  }

  lemma RunNothing(d: Desc, st: State)
    requires Typed(d, st.m)
    ensures Run(d, st, []) == Some(st)
  {
  }

  /** A whole encoding, and then the rest. */
  lemma RunWhole(d: Desc, st: State, b: Message, rest: seq<byte>)
    requires WellFormed(d) && Typed(d, st.m) && Typed(d, b) && Fits(d, b)
    requires EncMessage(d, b).Some? && |EncMessage(d, b).value| < TWO32
    ensures Run(d, st, EncMessage(d, b).value + rest)
         == if Room(d, st.m, b) && Inner(d, b, 0)
            then Run(d, State(Merged(d, st.m, b), st.seen + WrittenFrom(d, b, 0)), rest) else None
  {
    hide Run, Fits, Room, Inner, TakesFrom, RequiredIndex, WellFormed, WrittenFrom;
    TakesAll(d, st.m, b);
    RunOnFields(d, st, b, 0, rest);
    assert MergedFrom(d, st.m, b, 0) == Merged(d, st.m, b);
  }

  lemma EmptyHasRoomFresh(d: Desc, a: Message)
    requires WellFormed(d) && Typed(d, a) && Fits(d, a)
    ensures Room(d, Fresh(d), a)
  {
    EmptyHasRoom(d, Fresh(d), a);
  }

  /**
   Two encodings in a row decode to the merge of the second into the first. This fails exactly
   when some array cannot hold the items of both, a message below either is incomplete,
       or a tracked required callback member has no item in either.
   */
  lemma ConcatenationMerges(d: Desc, dest: Message, a: Message, b: Message)
    requires WellFormed(d)
    requires Typed(d, dest) && Idle(d, dest)
    requires Typed(d, a) && Fits(d, a)
    requires Typed(d, b) && Fits(d, b)
    requires EncMessage(d, a).Some? && |EncMessage(d, a).value| < TWO32
    requires EncMessage(d, b).Some? && |EncMessage(d, b).value| < TWO32
    ensures DecMessage(d, dest, true, EncMessage(d, a).value + EncMessage(d, b).value)
         == if Inner(d, a, 0) && Room(d, Merged(d, Fresh(d), a), b) && Inner(d, b, 0)
               && forall i | 0 <= i < |b| :: OwnSlotWritten(d, a, i) || OwnSlotWritten(d, b, i)
            then Some(Merged(d, Merged(d, Fresh(d), a), b)) else None
  {
    DecodeForgets(d, dest, EncMessage(d, a).value + EncMessage(d, b).value);
    RunBoth(d, a, b);
    BitmapCheck(d, a, b);
  }
}
