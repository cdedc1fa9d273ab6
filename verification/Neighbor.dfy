/** The neighbor-list messages: what goes in, and what comes back. */
module Neighbor {
  import opened Prelude
  import opened Wire
  import opened Schema
  import opened Codec
  import opened Merge
  import opened RoundTrip

  type Text = s: seq<byte> | 0 !in s

  /** A neighbor as the application holds it; a null pointer is `None`. */
  datatype Neighbor = Neighbor(
    apName: Option<Text>, apInstance: Option<Text>, aeName: Option<Text>, aeInstance: Option<Text>,
    address: Option<nat>, supportingDifs: seq<Text>)

  const NAME_SIZE := 20
  const ENROLLMENT_MSG_SIZE := 1500

  /** `rina.messages.neighbor_t` */
  const NEIGHBOR := Desc([
    Field(1, Optional, Str(NAME_SIZE)),
    Field(2, Optional, Str(NAME_SIZE)),
    Field(3, Optional, Str(NAME_SIZE)),
    Field(4, Optional, Str(NAME_SIZE)),
    Field(5, Optional, Num(UInt(8))),
    Field(6, Repeated(0), CbStrings)], [])

  /** `rina.messages.neighbors_t` */
  const NEIGHBORS := Desc([Field(1, Repeated(0), CbMessages(NEIGHBOR))], [])

  lemma NeighborWellFormed()
    ensures WellFormed(NEIGHBOR)
  {
    PlainNeighbor();
    NeighborTags();
    hide SetDefaults, Empty, Fresh;
  }

  lemma NeighborTags()
    ensures forall i | 0 <= i < |NEIGHBOR.fields| :: NEIGHBOR.fields[i].tag == i + 1
    ensures forall f | f in NEIGHBOR.fields :: WellFormedKind(f.kind)
  {
  }

  lemma PlainNeighbor()
    ensures SetDefaults(NEIGHBOR, ZeroMessage(NEIGHBOR)).Some? && Empty(NEIGHBOR, Fresh(NEIGHBOR))
  {
    ZeroIsIdle(NEIGHBOR);
    PlainInit(NEIGHBOR, ZeroMessage(NEIGHBOR));
  }

  lemma NeighborsWellFormed()
    ensures WellFormed(NEIGHBORS)
  {
    NeighborWellFormed();
    NeighborTags();
    assert SizesOk(NEIGHBOR);
    assert WellFormedKind(CbMessages(NEIGHBOR));
    hide WellFormed;
    PlainNeighbors();
  }

  lemma PlainNeighbors()
    ensures SetDefaults(NEIGHBORS, ZeroMessage(NEIGHBORS)).Some? && Empty(NEIGHBORS, Fresh(NEIGHBORS))
  {
    ZeroIsIdle(NEIGHBORS);
    PlainInit(NEIGHBORS, ZeroMessage(NEIGHBORS));
  }

  // ---------------------------------------------------------------- the structures that are encoded

  /** `strncpy` into a char array of 20: a longer name fills it and leaves no terminator. */
  function CopyName(name: Text): seq<byte> {
    if |name| < NAME_SIZE then name else name[..NAME_SIZE]
  }

  function NameSlot(name: Option<Text>): Slot {
    match name
    case None => Opt(false, Blob([]))
    case Some(x) => Opt(true, Blob(CopyName(x)))
  }

  function Blobs(ts: seq<Text>): (vs: seq<Value>)
    ensures |vs| == |ts|
  {
    seq(|ts|, i requires 0 <= i < |ts| => Blob(ts[i]))
  }

  /** The structure for one neighbor. The address is left out. */
  function ToMessage(n: Neighbor): (m: Message)
    ensures Typed(NEIGHBOR, m)
  {
    var m := [NameSlot(n.apName), NameSlot(n.apInstance), NameSlot(n.aeName), NameSlot(n.aeInstance),
              Opt(false, Number(0)), Rep(Blobs(n.supportingDifs))];
    assert |m| == |NEIGHBOR.fields|;
    m
  }

  const NOBODY := Neighbor(None, None, None, None, None, [])

  function OrElse(name: Option<Text>, previous: Option<Text>): Option<Text> {
    if name.Some? then name else previous
  }

  /** One structure serves all neighbors in turn: a name that is null keeps the one before it. */
  function Inherited(previous: Neighbor, n: Neighbor): Neighbor {
    Neighbor(OrElse(n.apName, previous.apName), OrElse(n.apInstance, previous.apInstance),
             OrElse(n.aeName, previous.aeName), OrElse(n.aeInstance, previous.aeInstance), None, n.supportingDifs)
  }

  function InheritAll(previous: Neighbor, nbs: seq<Neighbor>): (ns: seq<Neighbor>)
    ensures |ns| == |nbs|
    decreases |nbs|
  {
    if nbs == [] then []
    else
      var n := Inherited(previous, nbs[0]);
      [n] + InheritAll(n, nbs[1..])
  }

  function Messages(ns: seq<Neighbor>): (vs: seq<Value>)
    ensures |vs| == |ns| && forall v | v in vs :: TypedValue(CbMessages(NEIGHBOR), v)
  {
    seq(|ns|, i requires 0 <= i < |ns| => Msg(ToMessage(ns[i])))
  }

  function ListMessage(ns: seq<Neighbor>): (m: Message)
    ensures Typed(NEIGHBORS, m)
  {
    [Rep(Messages(ns))]
  }

  function ListEncoded(nbs: seq<Neighbor>): Option<seq<byte>> {
    EncMessage(NEIGHBORS, ListMessage(InheritAll(NOBODY, nbs)))
  }

  // ---------------------------------------------------------------- the structures that come back

  lemma {:induction false} CStringIsText(bs: seq<byte>)
    ensures 0 !in CString(bs)
  {
    if bs != [] && bs[0] != 0 {
      CStringIsText(bs[1..]);
    }
  }

  function TextOf(bs: seq<byte>): Text {
    CStringIsText(bs);
    CString(bs)
  }

  function NameOf(sl: Slot): Option<Text>
    requires sl.Opt? && sl.v.Blob?
  {
    if sl.has then Some(TextOf(sl.v.bs)) else None
  }

  function Texts(vs: seq<Value>): (ts: seq<Text>)
    requires forall v | v in vs :: v.Blob?
    ensures |ts| == |vs|
  {
    seq(|vs|, i requires 0 <= i < |vs| => TextOf(vs[i].bs))
  }

  lemma TypedNeighbor(m: Message)
    requires Typed(NEIGHBOR, m)
    ensures |m| == 6 && (forall i | 0 <= i < 4 :: m[i].Opt? && m[i].v.Blob?)
    ensures m[4].Opt? && m[4].v.Number?
    ensures m[5].Rep? && forall v | v in m[5].vs :: v.Blob?
  {
    forall i | 0 <= i < 4 ensures m[i].Opt? && m[i].v.Blob? {
      assert TypedSlot(NEIGHBOR.fields[i], m[i]);
    }
    assert TypedSlot(NEIGHBOR.fields[4], m[4]) && TypedSlot(NEIGHBOR.fields[5], m[5]);
  }

  function FromMessage(m: Message): Neighbor
    requires Typed(NEIGHBOR, m)
  {
    TypedNeighbor(m);
    Neighbor(NameOf(m[0]), NameOf(m[1]), NameOf(m[2]), NameOf(m[3]),
             if m[4].has && m[4].v.n >= 0 then Some(m[4].v.n) else None, Texts(m[5].vs))
  }

  function FromMessages(vs: seq<Value>): (ns: seq<Neighbor>)
    requires forall v | v in vs :: TypedValue(CbMessages(NEIGHBOR), v)
    ensures |ns| == |vs|
  {
    seq(|vs|, i requires 0 <= i < |vs| =>
      assert TypedValue(CbMessages(NEIGHBOR), vs[i]); FromMessage(vs[i].m))
  }

  lemma TypedNeighbors(m: Message)
    requires Typed(NEIGHBORS, m)
    ensures |m| == 1 && m[0].Rep? && forall v | v in m[0].vs :: TypedValue(CbMessages(NEIGHBOR), v)
  {
    assert TypedSlot(NEIGHBORS.fields[0], m[0]);
  }

  /** The list decoded from `s`. */
  function ListDecoded(s: seq<byte>): Option<seq<Neighbor>> {
    var m :- DecMessage(NEIGHBORS, ZeroMessage(NEIGHBORS), true, s);
    TypedNeighbors(m);
    Some(FromMessages(m[0].vs))
  }

  // ---------------------------------------------------------------- what gets across

  predicate NameFits(name: Option<Text>) {
    name.Some? ==> |name.value| < NAME_SIZE
  }

  predicate NamesFit(n: Neighbor) {
    NameFits(n.apName) && NameFits(n.apInstance) && NameFits(n.aeName) && NameFits(n.aeInstance)
  }

  /** Nothing to write at all. */
  predicate Blank(n: Neighbor) {
    n.apName.None? && n.apInstance.None? && n.aeName.None? && n.aeInstance.None? && n.supportingDifs == []
  }

  function NonEmpty(ts: seq<Text>): seq<Text> {
    if ts == [] then [] else (if ts[0] == [] then [] else [ts[0]]) + NonEmpty(ts[1..])
  }

  /** Empty DIF names are dropped, and the address is never sent. */
  function Arrived(n: Neighbor): Neighbor {
    n.(address := None, supportingDifs := NonEmpty(n.supportingDifs))
  }

  /** A neighbor with an empty encoding does not arrive. */
  function Delivered(ns: seq<Neighbor>): (ds: seq<Neighbor>)
    ensures |ds| <= |ns|
  {
    if ns == [] then [] else (if Blank(ns[0]) then [] else [Arrived(ns[0])]) + Delivered(ns[1..])
  }

  lemma NameEncodes(f: Field, name: Option<Text>)
    requires f.rule.Optional? && f.kind == Str(NAME_SIZE)
    ensures TypedSlot(f, NameSlot(name))
    ensures EncSlot(f, NameSlot(name)).Some? <==> NameFits(name)
    ensures EncSlot(f, NameSlot(name)) == Some([]) <==> name.None?
  {
    if name.Some? {
      var v := Blob(CopyName(name.value));
      CStringWhole(v.bs);
      assert EncSlot(f, NameSlot(name)) == EncItem(f, v);
      assert EncValue(f.kind, v).Some? <==> NameFits(name);
    } else {
      assert EncSlot(f, NameSlot(name)) == Some([]);
    }
  }

  lemma {:induction false} DifsEncode(f: Field, ts: seq<Text>)
    requires f.kind.CbStrings?
    ensures EncItems(f, Blobs(ts)).Some?
    ensures EncItems(f, Blobs(ts)) == Some([]) <==> ts == []
    decreases |ts|
  {
    if ts != [] {
      var vs := Blobs(ts);
      DifsEncode(f, ts[1..]);
      assert vs[1..] == Blobs(ts[1..]);
      assert EncValue(f.kind, vs[0]) == Some(LenPrefixed(CString(ts[0])));
      assert EncItem(f, vs[0]).Some? && EncItem(f, vs[0]).value != [];
    }
  }

  ghost predicate SlotEncodes(d: Desc, m: Message, j: nat)
    requires Typed(d, m) && j < |m|
  {
    EncSlot(d.fields[j], m[j]).Some?
  }

  ghost predicate SlotIsEmpty(d: Desc, m: Message, j: nat)
    requires Typed(d, m) && j < |m|
  {
    EncSlot(d.fields[j], m[j]) == Some([])
  }

  lemma {:induction false} SlotBySlot(d: Desc, m: Message, i: nat)
    requires Typed(d, m) && i <= |m|
    ensures EncFrom(d, m, i).Some? <==> forall j | i <= j < |m| :: SlotEncodes(d, m, j)
    ensures EncFrom(d, m, i) == Some([]) <==> forall j | i <= j < |m| :: SlotIsEmpty(d, m, j)
    decreases |m| - i
  {
    hide EncSlot;
    if i < |m| {
      SlotBySlot(d, m, i + 1);
      var s, t := EncSlot(d.fields[i], m[i]), EncFrom(d, m, i + 1);
      assert s.Some? <==> SlotEncodes(d, m, i);
      assert s == Some([]) <==> SlotIsEmpty(d, m, i);
      if s.Some? && t.Some? {
        assert EncFrom(d, m, i) == Some(s.value + t.value) && |s.value + t.value| == |s.value| + |t.value|;
      }
    }
  }

  /** A neighbor can be encoded exactly when its names leave room for a terminator. */
  lemma NeighborEncodes(n: Neighbor)
    ensures EncMessage(NEIGHBOR, ToMessage(n)).Some? <==> NamesFit(n)
    ensures EncMessage(NEIGHBOR, ToMessage(n)) == Some([]) <==> Blank(n)
  {
    var m := ToMessage(n);
    SlotBySlot(NEIGHBOR, m, 0);
    SlotsOf(n);
    hide EncSlot, EncFrom, SlotEncodes, SlotIsEmpty;
    assert |m| == 6;
  }

  lemma SlotsOf(n: Neighbor)
    ensures var m := ToMessage(n);
      && (SlotEncodes(NEIGHBOR, m, 0) <==> NameFits(n.apName)) && (SlotIsEmpty(NEIGHBOR, m, 0) <==> n.apName.None?)
      && (SlotEncodes(NEIGHBOR, m, 1) <==> NameFits(n.apInstance))
          && (SlotIsEmpty(NEIGHBOR, m, 1) <==> n.apInstance.None?)
      && (SlotEncodes(NEIGHBOR, m, 2) <==> NameFits(n.aeName)) && (SlotIsEmpty(NEIGHBOR, m, 2) <==> n.aeName.None?)
      && (SlotEncodes(NEIGHBOR, m, 3) <==> NameFits(n.aeInstance))
          && (SlotIsEmpty(NEIGHBOR, m, 3) <==> n.aeInstance.None?)
      && SlotEncodes(NEIGHBOR, m, 4) && SlotIsEmpty(NEIGHBOR, m, 4)
      && SlotEncodes(NEIGHBOR, m, 5) && (SlotIsEmpty(NEIGHBOR, m, 5) <==> n.supportingDifs == [])
  {
    var m := ToMessage(n);
    NameEncodes(NEIGHBOR.fields[0], n.apName);
    NameEncodes(NEIGHBOR.fields[1], n.apInstance);
    NameEncodes(NEIGHBOR.fields[2], n.aeName);
    NameEncodes(NEIGHBOR.fields[3], n.aeInstance);
    DifsEncode(NEIGHBOR.fields[5], n.supportingDifs);
    assert EncSlot(NEIGHBOR.fields[4], m[4]) == Some([]);
    assert EncSlot(NEIGHBOR.fields[5], m[5]) == EncItems(NEIGHBOR.fields[5], m[5].vs);
    hide EncSlot, EncItems;
  }

  predicate AllNamesFit(ns: seq<Neighbor>) {
    forall n | n in ns :: NamesFit(n)
  }

  lemma {:induction false} ItemsEncode(f: Field, ns: seq<Neighbor>)
    requires f.kind == CbMessages(NEIGHBOR)
    ensures EncItems(f, Messages(ns)).Some? <==> AllNamesFit(ns)
    decreases |ns|
  {
    if ns != [] {
      var vs := Messages(ns);
      assert vs[0] == Msg(ToMessage(ns[0])) && vs[1..] == Messages(ns[1..]);
      NeighborEncodes(ns[0]);
      ItemsEncode(f, ns[1..]);
      hide NamesFit, EncMessage;
      FirstAndRest(ns);
      assert EncItem(f, vs[0]).Some? <==> EncMessage(NEIGHBOR, ToMessage(ns[0])).Some?;
    }
  }

  lemma FirstAndRest(ns: seq<Neighbor>)
    requires ns != []
    ensures AllNamesFit(ns) <==> NamesFit(ns[0]) && AllNamesFit(ns[1..])
  {
    hide NamesFit;
    assert ns == [ns[0]] + ns[1..];
  }

  /** A list can be encoded exactly when every name in it is shorter than its array. */
  lemma ListEncodes(ns: seq<Neighbor>)
    ensures EncMessage(NEIGHBORS, ListMessage(ns)).Some? <==> AllNamesFit(ns)
  {
    var m := ListMessage(ns);
    ItemsEncode(NEIGHBORS.fields[0], ns);
    SlotBySlot(NEIGHBORS, m, 0);
    assert SlotEncodes(NEIGHBORS, m, 0) <==> EncItems(NEIGHBORS.fields[0], Messages(ns)).Some?;
    hide EncSlot, EncFrom, SlotEncodes, EncItems;
  }

  lemma NeighborFits(n: Neighbor)
    requires NamesFit(n)
    ensures Fits(NEIGHBOR, ToMessage(n))
  {
    var m := ToMessage(n);
    assert FitsSlot(NEIGHBOR.fields[0], m[0]);
    assert FitsSlot(NEIGHBOR.fields[1], m[1]);
    assert FitsSlot(NEIGHBOR.fields[2], m[2]);
    assert FitsSlot(NEIGHBOR.fields[3], m[3]);
    assert FitsSlot(NEIGHBOR.fields[4], m[4]);
    assert FitsSlot(NEIGHBOR.fields[5], m[5]);
  }

  lemma ListFits(ns: seq<Neighbor>)
    requires AllNamesFit(ns)
    ensures Fits(NEIGHBORS, ListMessage(ns))
  {
    forall v | v in Messages(ns) ensures FitsValue(CbMessages(NEIGHBOR), v) {
      var i :| 0 <= i < |ns| && v == Messages(ns)[i];
      NeighborFits(ns[i]);
    }
  }

  /** No field of either message is required, so nothing can be missing. */
  lemma NothingRequired(ns: seq<Neighbor>)
    ensures Complete(NEIGHBORS, ListMessage(ns))
  {
    forall v | v in Messages(ns) ensures CompleteValue(CbMessages(NEIGHBOR), v) {
      NeighborComplete(v.m);
    }
  }

  lemma NeighborComplete(m: Message)
    requires Typed(NEIGHBOR, m)
    ensures Complete(NEIGHBOR, m)
  {
    TypedNeighbor(m);
    forall i | 0 <= i < |m| ensures InnerSlot(NEIGHBOR.fields[i], m[i]) {
    }
  }

  lemma {:induction false} DifsArrive(ts: seq<Text>)
    ensures Texts(Arriving(CbStrings, Blobs(ts))) == NonEmpty(ts)
    decreases |ts|
  {
    if ts != [] {
      var vs := Blobs(ts);
      DifsArrive(ts[1..]);
      assert vs[1..] == Blobs(ts[1..]);
      DifArrives(ts[0]);
      TextsConcat(ArrivingItem(CbStrings, vs[0]), Arriving(CbStrings, vs[1..]));
    }
  }

  lemma DifArrives(t: Text)
    ensures Texts(ArrivingItem(CbStrings, Blob(t))) == if t == [] then [] else [t]
  {
    CStringWhole(t);
  }

  lemma TextsConcat(a: seq<Value>, b: seq<Value>)
    requires (forall v | v in a :: v.Blob?) && forall v | v in b :: v.Blob?
    ensures Texts(a + b) == Texts(a) + Texts(b)
  {
  }

  lemma NameArrives(f: Field, name: Option<Text>, a: Slot)
    requires f.rule.Optional? && f.kind == Str(NAME_SIZE) && NameFits(name)
    requires TypedSlot(f, a) && EmptySlot(f, a)
    ensures TypedSlot(f, NameSlot(name))
    ensures var r := MergedSlot(f, a, NameSlot(name)); r.Opt? && r.v.Blob? && NameOf(r) == name
  {
    if name.Some? {
      CStringWhole(name.value);
    }
  }

  /** What becomes of one neighbor whose encoding is not empty. */
  lemma NeighborArrives(n: Neighbor)
    requires NamesFit(n)
    ensures FromMessage(Merged(NEIGHBOR, Fresh(NEIGHBOR), ToMessage(n))) == Arrived(n)
  {
    PlainNeighbor();
    var a, b := Fresh(NEIGHBOR), ToMessage(n);
    EmptySlots(a);
    NameArrives(NEIGHBOR.fields[0], n.apName, a[0]);
    NameArrives(NEIGHBOR.fields[1], n.apInstance, a[1]);
    NameArrives(NEIGHBOR.fields[2], n.aeName, a[2]);
    NameArrives(NEIGHBOR.fields[3], n.aeInstance, a[3]);
    hide SetDefaults, Fresh, EmptySlot;
    DifsArrive(n.supportingDifs);
    assert a[5].vs + Arriving(CbStrings, b[5].vs) == Arriving(CbStrings, b[5].vs);
  }

  lemma EmptySlots(a: Message)
    requires Typed(NEIGHBOR, a) && Empty(NEIGHBOR, a)
    ensures |a| == 6 && a[5] == Rep([])
    ensures forall i | 0 <= i < 6 :: TypedSlot(NEIGHBOR.fields[i], a[i]) && EmptySlot(NEIGHBOR.fields[i], a[i])
  {
    assert TypedSlot(NEIGHBOR.fields[5], a[5]) && EmptySlot(NEIGHBOR.fields[5], a[5]);
  }

  lemma FromMessagesConcat(a: seq<Value>, b: seq<Value>)
    requires forall v | v in a + b :: TypedValue(CbMessages(NEIGHBOR), v)
    ensures forall v | v in a :: TypedValue(CbMessages(NEIGHBOR), v)
    ensures forall v | v in b :: TypedValue(CbMessages(NEIGHBOR), v)
    ensures FromMessages(a + b) == FromMessages(a) + FromMessages(b)
  {
    hide FromMessage, TypedValue;
    forall v | v in a ensures TypedValue(CbMessages(NEIGHBOR), v) {
      assert v in a + b;
    }
    forall v | v in b ensures TypedValue(CbMessages(NEIGHBOR), v) {
      assert v in a + b;
    }
  }

  lemma {:induction false} AllArrive(ns: seq<Neighbor>)
    requires AllNamesFit(ns)
    ensures FromMessages(Arriving(CbMessages(NEIGHBOR), Messages(ns))) == Delivered(ns)
    decreases |ns|
  {
    var k := CbMessages(NEIGHBOR);
    if ns != [] {
      var vs := Messages(ns);
      assert vs[0] == Msg(ToMessage(ns[0])) && vs[1..] == Messages(ns[1..]);
      FirstAndRest(ns);
      OneArrives(ns[0]);
      AllArrive(ns[1..]);
      hide NamesFit, ArrivingItem, FromMessages, Blank, Arrived;
      FromMessagesConcat(ArrivingItem(k, vs[0]), Arriving(k, vs[1..]));
    }
  }

  lemma OneArrives(n: Neighbor)
    requires NamesFit(n)
    ensures FromMessages(ArrivingItem(CbMessages(NEIGHBOR), Msg(ToMessage(n)))) == if Blank(n) then [] else [Arrived(n)]
  {
    NeighborEncodes(n);
    NeighborArrives(n);
    hide NamesFit, EncMessage, Merged, FromMessage, Fresh, ToMessage, Blank, Arrived;
  }

  // ---------------------------------------------------------------- the theorems

  /**
   The neighbor list codec on any list: encoding succeeds exactly when all names, those carried
   over from earlier neighbors included, are shorter than 20. Decoding the bytes then gives the
   neighbors with inherited names, without addresses and empty DIF names, and without the
   neighbors that had nothing to write.
   */
  lemma ListRoundTrip(nbs: seq<Neighbor>)
    ensures var sent := InheritAll(NOBODY, nbs);
      && (ListEncoded(nbs).Some? <==> AllNamesFit(sent))
      && (ListEncoded(nbs).Some? && |ListEncoded(nbs).value| < TWO32 ==>
            ListDecoded(ListEncoded(nbs).value) == Some(Delivered(sent)))
  {
    var sent := InheritAll(NOBODY, nbs);
    ListEncodes(sent);
    if ListEncoded(nbs).Some? && |ListEncoded(nbs).value| < TWO32 {
      ListArrives(sent);
    }
  }

  lemma ListArrives(ns: seq<Neighbor>)
    requires AllNamesFit(ns)
    requires EncMessage(NEIGHBORS, ListMessage(ns)).Some? && |EncMessage(NEIGHBORS, ListMessage(ns)).value| < TWO32
    ensures ListDecoded(EncMessage(NEIGHBORS, ListMessage(ns)).value) == Some(Delivered(ns))
  {
    var b := ListMessage(ns);
    NeighborsWellFormed();
    ListFits(ns);
    NothingRequired(ns);
    DecodeFresh(NEIGHBORS, b);
    AllArrive(ns);
    var a := Fresh(NEIGHBORS);
    assert EmptySlot(NEIGHBORS.fields[0], a[0]);
    hide WellFormed, Fits, Complete, EncMessage, DecMessage, Fresh, Delivered, AllNamesFit;
    assert Merged(NEIGHBORS, a, b)[0] == Rep(a[0].vs + Arriving(CbMessages(NEIGHBOR), Messages(ns)));
    assert [] + Arriving(CbMessages(NEIGHBOR), Messages(ns)) == Arriving(CbMessages(NEIGHBOR), Messages(ns));
  }

  // ---------------------------------------------------------------- when a list comes back whole

  /** `n` takes no name over from `previous`. */
  predicate TakesNothing(previous: Neighbor, n: Neighbor) {
    && (n.apName.None? ==> previous.apName.None?)
    && (n.apInstance.None? ==> previous.apInstance.None?)
    && (n.aeName.None? ==> previous.aeName.None?)
    && (n.aeInstance.None? ==> previous.aeInstance.None?)
  }

  function WithoutAddresses(nbs: seq<Neighbor>): (ns: seq<Neighbor>)
    ensures |ns| == |nbs|
  {
    seq(|nbs|, i requires 0 <= i < |nbs| => nbs[i].(address := None))
  }

  lemma InheritedSame(previous: Neighbor, n: Neighbor)
    ensures Inherited(previous, n) == n.(address := None) <==> TakesNothing(previous, n)
  {
  }

  /** No neighbor of the list takes over a name. */
  predicate NothingTaken(previous: Neighbor, nbs: seq<Neighbor>)
    decreases |nbs|
  {
    nbs == [] || (TakesNothing(previous, nbs[0]) && NothingTaken(nbs[0], nbs[1..]))
  }

  lemma {:induction false} NothingInherited(previous: Neighbor, nbs: seq<Neighbor>)
    ensures InheritAll(previous, nbs) == WithoutAddresses(nbs) <==> NothingTaken(previous, nbs)
    decreases |nbs|
  {
    if nbs != [] {
      var n, rest := Inherited(previous, nbs[0]), nbs[1..];
      InheritedSame(previous, nbs[0]);
      NothingInherited(n, rest);
      assert WithoutAddresses(nbs) == [nbs[0].(address := None)] + WithoutAddresses(rest);
      assert InheritAll(previous, nbs) == [n] + InheritAll(n, rest);
      SplitEqual(n, InheritAll(n, rest), nbs[0].(address := None), WithoutAddresses(rest));
      if TakesNothing(previous, nbs[0]) {
        assert NothingTaken(n, rest) == NothingTaken(nbs[0], rest);
      }
    }
  }

  lemma SplitEqual(a: Neighbor, s: seq<Neighbor>, b: Neighbor, t: seq<Neighbor>)
    ensures [a] + s == [b] + t <==> a == b && s == t
  {
    if [a] + s == [b] + t {
      assert ([a] + s)[0] == ([b] + t)[0];
      assert ([a] + s)[1..] == s && ([b] + t)[1..] == t;
    }
  }

  lemma {:induction false} NonEmptySame(ts: seq<Text>)
    ensures |NonEmpty(ts)| <= |ts|
    ensures NonEmpty(ts) == ts <==> [] !in ts
  {
    if ts != [] {
      NonEmptySame(ts[1..]);
    }
  }

  lemma {:induction false} DeliveredWhole(ns: seq<Neighbor>, xs: seq<Neighbor>)
    requires |ns| == |xs|
    ensures Delivered(ns) == xs <==> forall i | 0 <= i < |ns| :: !Blank(ns[i]) && Arrived(ns[i]) == xs[i]
    decreases |ns|
  {
    hide Blank, Arrived;
    if ns != [] {
      DeliveredWhole(ns[1..], xs[1..]);
      if !Blank(ns[0]) {
        assert Delivered(ns) == [Arrived(ns[0])] + Delivered(ns[1..]);
        assert xs == [xs[0]] + xs[1..];
        forall i | 0 < i < |ns| ensures ns[i] == ns[1..][i - 1] && xs[i] == xs[1..][i - 1] {
        }
      }
    }
  }

  /**
   A list comes back as it was, addresses aside, exactly when no neighbor lacks a name that the
   one before it has, none has an empty DIF name, and none is blank.
   */
  lemma ListReturned(nbs: seq<Neighbor>)
    ensures Delivered(InheritAll(NOBODY, nbs)) == WithoutAddresses(nbs)
       <==> NothingTaken(NOBODY, nbs) && forall n | n in nbs :: [] !in n.supportingDifs && !Blank(n)
  {
    var sent, back := InheritAll(NOBODY, nbs), WithoutAddresses(nbs);
    NothingInherited(NOBODY, nbs);
    DeliveredWhole(sent, back);
    forall j | 0 <= j < |nbs|
      ensures !Blank(sent[j]) && Arrived(sent[j]) == back[j]
         <==> sent[j] == back[j] && [] !in nbs[j].supportingDifs && !Blank(nbs[j])
    {
      OneReturned(nbs, j);
    }
    hide InheritAll, WithoutAddresses, Delivered, Blank, Arrived;
    if sent == back && forall n | n in nbs :: [] !in n.supportingDifs && !Blank(n) {
      forall j | 0 <= j < |nbs| ensures !Blank(sent[j]) && Arrived(sent[j]) == back[j] {
        assert nbs[j] in nbs;
      }
    }
  }

  lemma OneReturned(nbs: seq<Neighbor>, j: nat)
    requires j < |nbs|
    ensures var sent, back := InheritAll(NOBODY, nbs), WithoutAddresses(nbs);
            !Blank(sent[j]) && Arrived(sent[j]) == back[j]
            <==> sent[j] == back[j] && [] !in nbs[j].supportingDifs && !Blank(nbs[j])
  {
    SameDifs(NOBODY, nbs, j);
    SentWithoutAddress(NOBODY, nbs, j);
    NonEmptySame(nbs[j].supportingDifs);
    hide InheritAll, NonEmpty;
  }

  lemma {:induction false} SameDifs(previous: Neighbor, nbs: seq<Neighbor>, j: nat)
    requires j < |nbs|
    ensures InheritAll(previous, nbs)[j].supportingDifs == nbs[j].supportingDifs
    decreases |nbs|
  {
    if j > 0 {
      SameDifs(Inherited(previous, nbs[0]), nbs[1..], j - 1);
    }
  }

  lemma {:induction false} SentWithoutAddress(previous: Neighbor, nbs: seq<Neighbor>, j: nat)
    requires j < |nbs|
    ensures InheritAll(previous, nbs)[j].address == None
    decreases |nbs|
  {
    if j > 0 {
      SentWithoutAddress(Inherited(previous, nbs[0]), nbs[1..], j - 1);
    }
  }

  /** A null name comes back as the name of the neighbor before. */
  lemma NullNameIsInherited(name: Text)
    requires name != [] && |name| < NAME_SIZE
    ensures var first := NOBODY.(apName := Some(name), supportingDifs := []);
      && AllNamesFit(InheritAll(NOBODY, [first, NOBODY]))
      && Delivered(InheritAll(NOBODY, [first, NOBODY])) == [first, first]
  {
    var first := NOBODY.(apName := Some(name));
    assert [first, NOBODY][1..] == [NOBODY];
    assert InheritAll(first, [NOBODY]) == [first];
    assert Delivered([first]) == [first];
    assert [first, first][1..] == [first];
  }

  // ---------------------------------------------------------------- lists from other encoders

  /** The text of a present string member. */
  ghost predicate NameIs(sl: Slot, name: Option<Text>)
    requires sl.Opt? && sl.v.Blob?
  {
    (name.Some? <==> sl.has) && (sl.has ==> name.value == sl.v.bs)
  }

  /** The record has, member by member, what the message has. */
  ghost predicate SlotsAre(m: Message, n: Neighbor)
    requires Typed(NEIGHBOR, m)
  {
    TypedNeighbor(m);
    && NameIs(m[0], n.apName) && NameIs(m[1], n.apInstance) && NameIs(m[2], n.aeName) && NameIs(m[3], n.aeInstance)
    && (n.address.Some? <==> m[4].has) && (m[4].has ==> n.address.value == m[4].v.n)
    && |n.supportingDifs| == |m[5].vs| && forall k | 0 <= k < |m[5].vs| :: n.supportingDifs[k] == m[5].vs[k].bs
  }

  function AsItems(ms: seq<Message>): (vs: seq<Value>)
    ensures |vs| == |ms| && forall i | 0 <= i < |ms| :: vs[i] == Msg(ms[i])
  {
    seq(|ms|, i requires 0 <= i < |ms| => Msg(ms[i]))
  }

  lemma TextIsWhole(bs: seq<byte>)
    requires 0 !in bs
    ensures TextOf(bs) == bs
  {
    CStringWhole(bs);
  }

  lemma RecordOf(m: Message, r: Message, base: Message)
    requires Typed(NEIGHBOR, m) && Typed(NEIGHBOR, r) && Typed(NEIGHBOR, base)
    requires Fits(NEIGHBOR, m) && Clean(NEIGHBOR, m) && Restored(NEIGHBOR, m, r, base)
    ensures SlotsAre(m, FromMessage(r))
  {
    TypedNeighbor(m);
    TypedNeighbor(r);
    forall i | 0 <= i < 6
      ensures FitsSlot(NEIGHBOR.fields[i], m[i]) && CleanSlot(NEIGHBOR.fields[i], m[i])
      ensures RestoredSlot(NEIGHBOR.fields[i], m[i], r[i], base[i])
    {
    }
    forall i | 0 <= i < 4
      ensures NameIs(m[i], NameOf(r[i]))
    {
      if m[i].has {
        TextIsWhole(m[i].v.bs);
      }
    }
    forall k | 0 <= k < |m[5].vs|
      ensures Texts(r[5].vs)[k] == m[5].vs[k].bs
    {
      assert RestoredItem(CbStrings, m[5].vs[k], r[5].vs[k]) && CleanValue(CbStrings, m[5].vs[k]);
      TextIsWhole(m[5].vs[k].bs);
    }
    assert m[4].has ==> FitsValue(Num(UInt(8)), m[4].v);
  }

  /** Whatever the bytes, a record has a name or an address exactly when the message has it. */
  lemma RecordsAsDecoded(s: seq<byte>)
    ensures var o, m := ListDecoded(s), DecMessage(NEIGHBORS, ZeroMessage(NEIGHBORS), true, s);
            && (o.Some? <==> m.Some?)
            && (o.Some? ==>
                  && |m.value| == 1 && m.value[0].Rep? && |o.value| == |m.value[0].vs|
                  && forall i | 0 <= i < |o.value| ::
                       && m.value[0].vs[i].Msg? && Typed(NEIGHBOR, m.value[0].vs[i].m)
                       && HasAs(m.value[0].vs[i].m, o.value[i]))
  {
    var m := DecMessage(NEIGHBORS, ZeroMessage(NEIGHBORS), true, s);
    if m.Some? {
      TypedNeighbors(m.value);
      NeighborsFit(s);
      hide DecMessage;
      var vs := m.value[0].vs;
      forall i | 0 <= i < |vs|
        ensures vs[i].Msg? && Typed(NEIGHBOR, vs[i].m) && HasAs(vs[i].m, FromMessages(vs)[i])
      {
        assert vs[i] in vs && TypedValue(CbMessages(NEIGHBOR), vs[i]) && FitsValue(CbMessages(NEIGHBOR), vs[i]);
        FitsAddress(vs[i].m);
      }
    }
  }

  ghost predicate HasAs(m: Message, n: Neighbor)
    requires Typed(NEIGHBOR, m)
  {
    TypedNeighbor(m);
    && (n.apName.Some? <==> m[0].has) && (n.apInstance.Some? <==> m[1].has)
    && (n.aeName.Some? <==> m[2].has) && (n.aeInstance.Some? <==> m[3].has)
    && (n.address.Some? <==> m[4].has) && (m[4].has ==> n.address.value == m[4].v.n)
    && |n.supportingDifs| == |m[5].vs|
  }

  lemma FitsAddress(m: Message)
    requires Typed(NEIGHBOR, m) && Fits(NEIGHBOR, m)
    ensures m[4].Opt? && m[4].v.Number? && (m[4].has ==> m[4].v.n >= 0)
  {
    TypedNeighbor(m);
    assert FitsSlot(NEIGHBOR.fields[4], m[4]);
  }

  lemma NeighborsFit(s: seq<byte>)
    requires DecMessage(NEIGHBORS, ZeroMessage(NEIGHBORS), true, s).Some?
    ensures Fits(NEIGHBORS, DecMessage(NEIGHBORS, ZeroMessage(NEIGHBORS), true, s).value)
    ensures var m := DecMessage(NEIGHBORS, ZeroMessage(NEIGHBORS), true, s).value;
            m[0].Rep? && forall v | v in m[0].vs :: FitsValue(CbMessages(NEIGHBOR), v)
  {
    ZeroIsIdle(NEIGHBORS);
    NeighborTags();
    assert SizesOk(NEIGHBOR);
    DecodedFitsAfresh(NEIGHBORS, ZeroMessage(NEIGHBORS), s);
    hide DecMessage, Fits, SizesOk;
    var m := DecMessage(NEIGHBORS, ZeroMessage(NEIGHBORS), true, s).value;
    TypedNeighbors(m);
    ListItemsFit(m);
  }

  lemma ListItemsFit(m: Message)
    requires Typed(NEIGHBORS, m) && Fits(NEIGHBORS, m)
    ensures m[0].Rep? && forall v | v in m[0].vs :: FitsValue(CbMessages(NEIGHBOR), v)
  {
    TypedNeighbors(m);
    assert FitsSlot(NEIGHBORS.fields[0], m[0]);
  }

  /**
   A list that any encoder wrote, addresses included: the records have exactly the names, addresses
   and DIF names of the messages, in order.
   */
  lemma ListOfMessages(ms: seq<Message>)
    requires forall i | 0 <= i < |ms| :: Typed(NEIGHBOR, ms[i]) && Fits(NEIGHBOR, ms[i]) && Clean(NEIGHBOR, ms[i])
    requires forall i | 0 <= i < |ms| :: EncMessage(NEIGHBOR, ms[i]) != Some([])
    ensures var b := [Rep(AsItems(ms))];
            && Typed(NEIGHBORS, b) && EncMessage(NEIGHBORS, b).Some?
            && (|EncMessage(NEIGHBORS, b).value| < TWO32 ==>
                  var o := ListDecoded(EncMessage(NEIGHBORS, b).value);
                  o.Some? && |o.value| == |ms| && forall i | 0 <= i < |ms| :: SlotsAre(ms[i], o.value[i]))
  {
    var b := [Rep(AsItems(ms))];
    ItemsTyped(ms);
    NeighborsWellFormed();
    ZeroIsIdle(NEIGHBORS);
    hide WellFormed, Fits, Clean, Idle, EncMessage, DecMessage, Complete, SlotsAre, FromMessage;
    RoundTrip.RoundTrip(NEIGHBORS, ZeroMessage(NEIGHBORS), b);
    if |EncMessage(NEIGHBORS, b).value| < TWO32 {
      var r := DecMessage(NEIGHBORS, ZeroMessage(NEIGHBORS), true, EncMessage(NEIGHBORS, b).value).value;
      TypedNeighbors(r);
      assert RestoredSlot(NEIGHBORS.fields[0], b[0], r[0], Fresh(NEIGHBORS)[0]);
      forall i | 0 <= i < |ms|
        ensures SlotsAre(ms[i], FromMessages(r[0].vs)[i])
      {
        assert RestoredItem(CbMessages(NEIGHBOR), b[0].vs[i], r[0].vs[i]);
        assert r[0].vs[i] in r[0].vs && TypedValue(CbMessages(NEIGHBOR), r[0].vs[i]);
        RecordOf(ms[i], r[0].vs[i].m, Fresh(NEIGHBOR));
      }
    }
  }

  lemma ItemsTyped(ms: seq<Message>)
    requires forall i | 0 <= i < |ms| :: Typed(NEIGHBOR, ms[i]) && Fits(NEIGHBOR, ms[i]) && Clean(NEIGHBOR, ms[i])
    requires forall i | 0 <= i < |ms| :: EncMessage(NEIGHBOR, ms[i]) != Some([])
    ensures var b := [Rep(AsItems(ms))];
            Typed(NEIGHBORS, b) && Fits(NEIGHBORS, b) && Clean(NEIGHBORS, b) && Complete(NEIGHBORS, b)
  {
    var b := [Rep(AsItems(ms))];
    forall v | v in AsItems(ms)
      ensures TypedValue(CbMessages(NEIGHBOR), v) && FitsValue(CbMessages(NEIGHBOR), v)
      ensures CleanValue(CbMessages(NEIGHBOR), v) && CompleteValue(CbMessages(NEIGHBOR), v)
    {
      NeighborComplete(v.m);
    }
    assert TypedSlot(NEIGHBORS.fields[0], b[0]);
  }
}
