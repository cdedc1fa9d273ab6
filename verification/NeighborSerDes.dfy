/**
 Encoding neighbors into a buffer of fixed size, and packing decoded neighbors into records whose
 size is counted beforehand, so that the counting and the packing pass agree to the byte.
 */
module NeighborSerDes {
  import opened Prelude
  import opened Schema
  import opened Codec
  import opened CodecLaws
  import opened Tables
  import opened InStream
  import opened Neighbor
  import opened DataPacker
  import ArrayList
  import Encoder
  import Decoder

  // ---------------------------------------------------------------- encoding

  /** The message structure for the next neighbor; `m` still holds the one before. */
  method EncodePrepare(m: Message, n: Neighbor, ghost previous: Neighbor) returns (r: Message)
    requires m == ToMessage(previous)
    ensures r == ToMessage(Inherited(previous, n))
  {
    r := m;
    r := r[5 := Rep(Blobs(n.supportingDifs))];
    if n.aeInstance.Some? {
      r := r[3 := NameSlot(n.aeInstance)];
    }
    if n.aeName.Some? {
      r := r[2 := NameSlot(n.aeName)];
    }
    if n.apInstance.Some? {
      r := r[1 := NameSlot(n.apInstance)];
    }
    if n.apName.Some? {
      r := r[0 := NameSlot(n.apName)];
    }
  }

  lemma {:induction false} InheritSplit(previous: Neighbor, nbs: seq<Neighbor>, i: nat)
    requires i < |nbs|
    ensures InheritAll(previous, nbs[..i + 1])
         == InheritAll(previous, nbs[..i])
            + [Inherited(if i == 0 then previous else InheritAll(previous, nbs[..i])[i - 1], nbs[i])]
    decreases |nbs|
  {
    if i == 0 {
      assert nbs[..1] == [nbs[0]] && nbs[..0] == [];
      assert [nbs[0]][1..] == [];
    } else {
      var n, rest := Inherited(previous, nbs[0]), nbs[1..];
      InheritSplit(n, rest, i - 1);
      assert nbs[..i + 1][1..] == rest[..i] && nbs[..i][1..] == rest[..i - 1];
    }
  }

  /** One structure is reused for the whole list. */
  method BuildList(nbs: seq<Neighbor>) returns (m: Message)
    ensures m == ListMessage(InheritAll(NOBODY, nbs))
  {
    var vs: seq<Value> := [];
    var current := ToMessage(NOBODY);
    var i := 0;
    ghost var previous := NOBODY;
    while i < |nbs|
      invariant i <= |nbs| && vs == Messages(InheritAll(NOBODY, nbs[..i]))
      invariant current == ToMessage(previous)
      invariant previous == if i == 0 then NOBODY else InheritAll(NOBODY, nbs[..i])[i - 1]
    {
      current := EncodePrepare(current, nbs[i], previous);
      InheritSplit(NOBODY, nbs, i);
      previous := Inherited(previous, nbs[i]);
      vs := vs + [Msg(current)];
      i := i + 1;
    }
    assert nbs[..|nbs|] == nbs;
    m := [Rep(vs)];
  }

  /** Into a buffer of 1500 bytes: it succeeds exactly when all names and the whole fit. */
  method NeighborListEncode(layout: Layout, nbs: seq<Neighbor>, buf: array<byte>) returns (ok: bool, serLength: nat)
    requires LaidOut(layout, NEIGHBORS) && buf.Length >= ENROLLMENT_MSG_SIZE
    requires Encoder.InMemory(NEIGHBORS, ListMessage(InheritAll(NOBODY, nbs)))
    modifies buf
    ensures ok <==> ListEncoded(nbs).Some? && |ListEncoded(nbs).value| <= ENROLLMENT_MSG_SIZE
    ensures ListEncoded(nbs).Some? <==> AllNamesFit(InheritAll(NOBODY, nbs))
    ensures ok ==> serLength <= buf.Length && buf[..serLength] == ListEncoded(nbs).value
  {
    ListRoundTrip(nbs);
    hide LaidOut, AllNamesFit, InheritAll, ListMessage;
    var m := BuildList(nbs);
    ok, serLength := Encoder.EncodeToBuffer(layout, buf, ENROLLMENT_MSG_SIZE, NEIGHBORS, m);
  }

  // ---------------------------------------------------------------- records

  function OneText(name: Option<Text>): seq<Text> {
    if name.Some? then [name.value] else []
  }

  /** The strings of a record, in packing order. */
  function AllTexts(n: Neighbor): seq<Text> {
    OneText(n.apName) + OneText(n.apInstance) + OneText(n.aeName) + OneText(n.aeInstance) + n.supportingDifs
  }

  /** Sizes of the fixed part of a record and of a pointer. */
  datatype Sizes = Sizes(header: nat, pointer: nat)

  function NameSize(name: Option<Text>): nat {
    if name.Some? then |name.value| + 1 else 0
  }

  /** All names of a neighbor, without its DIFs. */
  function NamesOf(n: Neighbor): seq<Text> {
    OneText(n.apName) + OneText(n.apInstance) + OneText(n.aeName) + OneText(n.aeInstance)
  }

  /** Bytes taken by the names and the first `k` DIF names. */
  function SizeUpTo(n: Neighbor, k: nat): nat
    requires k <= |n.supportingDifs|
  {
    |Packed(NamesOf(n) + n.supportingDifs[..k])|
  }

  lemma OneDifMore(n: Neighbor, k: nat)
    requires k < |n.supportingDifs|
    ensures SizeUpTo(n, k + 1) == SizeUpTo(n, k) + |n.supportingDifs[k]| + 1
  {
    var t := n.supportingDifs[k];
    assert NamesOf(n) + n.supportingDifs[..k + 1] == NamesOf(n) + n.supportingDifs[..k] + [t];
    PackedConcat(NamesOf(n) + n.supportingDifs[..k], [t]);
    PackedOne(t);
  }

  lemma AllCounted(n: Neighbor)
    ensures SizeUpTo(n, 0) == |Packed(NamesOf(n))|
    ensures SizeUpTo(n, |n.supportingDifs|) == |Packed(AllTexts(n))|
  {
    assert NamesOf(n) + n.supportingDifs[..0] == NamesOf(n);
    assert n.supportingDifs[..|n.supportingDifs|] == n.supportingDifs;
  }

  /** The counting pass. */
  method GetNeighborAllocSize(n: Neighbor, sizes: Sizes) returns (sz: nat)
    ensures sz == |Packed(AllTexts(n))| + sizes.pointer * |n.supportingDifs|
  {
    sz := NameSize(n.apName) + NameSize(n.apInstance) + NameSize(n.aeName) + NameSize(n.aeInstance);
    NamesPacked(n);
    AllCounted(n);
    hide Packed, AllTexts, SizeUpTo, NameSize;
    var k := 0;
    while k < |n.supportingDifs|
      invariant k <= |n.supportingDifs| && sz == SizeUpTo(n, k)
    {
      OneDifMore(n, k);
      sz := sz + |n.supportingDifs[k]| + 1;
      k := k + 1;
    }
    sz := sz + sizes.pointer * |n.supportingDifs|;
  }

  lemma NamePacked(name: Option<Text>)
    ensures |Packed(OneText(name))| == NameSize(name)
  {
    if name.Some? {
      PackedOne(name.value);
    }
  }

  lemma NamesPacked(n: Neighbor)
    ensures |Packed(NamesOf(n))|
         == NameSize(n.apName) + NameSize(n.apInstance) + NameSize(n.aeName) + NameSize(n.aeInstance)
  {
    NamePacked(n.apName);
    NamePacked(n.apInstance);
    NamePacked(n.aeName);
    NamePacked(n.aeInstance);
    PackedConcat(OneText(n.apName), OneText(n.apInstance));
    PackedConcat(OneText(n.apName) + OneText(n.apInstance), OneText(n.aeName));
    PackedConcat(OneText(n.apName) + OneText(n.apInstance) + OneText(n.aeName), OneText(n.aeInstance));
  }

  /** A record: pointers, as positions in its own memory block. */
  datatype Record = Record(
    apName: Option<nat>, apInstance: Option<nat>, aeName: Option<nat>, aeInstance: Option<nat>,
    address: Option<nat>, supportingDifs: seq<nat>)

  /** The string at a pointer. */
  ghost predicate PointsTo(area: seq<byte>, p: Option<nat>, name: Option<Text>) {
    if name.None? then p.None? else p.Some? && p.value <= |area| && CString(area[p.value..]) == name.value
  }

  /** The record reads as `n`. */
  ghost predicate Reads(area: seq<byte>, r: Record, n: Neighbor) {
    && PointsTo(area, r.apName, n.apName) && PointsTo(area, r.apInstance, n.apInstance)
    && PointsTo(area, r.aeName, n.aeName) && PointsTo(area, r.aeInstance, n.aeInstance)
    && r.address == n.address && |r.supportingDifs| == |n.supportingDifs|
    && forall k | 0 <= k < |r.supportingDifs| :: PointsTo(area, Some(r.supportingDifs[k]), Some(n.supportingDifs[k]))
  }

  /** `done` has been packed from `offset` on, and nothing else has been touched. */
  ghost predicate PackedSoFar(pk: Packer, offset: nat, head: seq<byte>, done: seq<Text>)
    reads pk, pk.base
  {
    && pk.Valid() && |head| == offset <= pk.base.Length
    && pk.next == offset + |Packed(done)|
    && pk.base[..][..offset] == head
    && pk.base[..][offset..pk.next] == Packed(done)
  }

  method PackText(pk: Packer, t: Text, ghost offset: nat, ghost head: seq<byte>, ghost done: seq<Text>,
      ghost after: seq<Text>)
    returns (p: nat)
    requires PackedSoFar(pk, offset, head, done) && offset + |Packed(done + [t] + after)| <= pk.maxSz
    modifies pk, pk.base
    ensures PackedSoFar(pk, offset, head, done + [t]) && p == offset + |Packed(done)|
  {
    p := pk.next;
    RoomFor(done, [t], after);
    PackedConcat(done, [t]);
    PackedOne(t);
    pk.WriteStr(t);
    Extended(old(pk.base[..]), pk.base[..], offset, old(pk.next), t + [0]);
  }

  lemma Extended(before: seq<byte>, after: seq<byte>, offset: nat, next: nat, q: seq<byte>)
    requires offset <= next && next + |q| <= |before| == |after|
    requires after == before[..next] + q + before[next + |q|..]
    ensures after[..offset] == before[..offset]
    ensures after[offset..next + |q|] == before[offset..next] + q
  {
  }

  method PackName(pk: Packer, name: Option<Text>, ghost offset: nat, ghost head: seq<byte>, ghost done: seq<Text>,
      ghost after: seq<Text>)
    returns (p: Option<nat>)
    requires PackedSoFar(pk, offset, head, done) && offset + |Packed(done + OneText(name) + after)| <= pk.maxSz
    modifies pk, pk.base
    ensures PackedSoFar(pk, offset, head, done + OneText(name))
    ensures p == Placed(offset, done, name)
  {
    if name.Some? {
      var q := PackText(pk, name.value, offset, head, done, after);
      p := Some(q);
    } else {
      assert done + [] == done;
      p := None;
    }
  }

  lemma RoomFor(before: seq<Text>, x: seq<Text>, after: seq<Text>)
    ensures |Packed(before + x + after)| == |Packed(before)| + |Packed(x)| + |Packed(after)|
  {
    PackedConcat(before + x, after);
    PackedConcat(before, x);
  }

  lemma DifSplit(n: Neighbor, k: nat)
    requires k < |n.supportingDifs|
    ensures AllTexts(n) == NamesOf(n) + n.supportingDifs[..k] + [n.supportingDifs[k]] + n.supportingDifs[k + 1..]
  {
    var difs := n.supportingDifs;
    assert difs == difs[..k] + [difs[k]] + difs[k + 1..];
    Regroup(NamesOf(n), difs[..k], [difs[k]], difs[k + 1..]);
  }

  lemma Regroup(a: seq<Text>, b: seq<Text>, c: seq<Text>, d: seq<Text>)
    ensures a + (b + c + d) == a + b + c + d
  {
  }

  /** The pointer to DIF name `k`. */
  function DifPlace(offset: nat, n: Neighbor, k: nat): nat
    requires k <= |n.supportingDifs|
  {
    offset + |Packed(NamesOf(n) + n.supportingDifs[..k])|
  }

  method PackDif(pk: Packer, n: Neighbor, k: nat, ghost offset: nat, ghost head: seq<byte>) returns (p: nat)
    requires k < |n.supportingDifs| && PackedSoFar(pk, offset, head, NamesOf(n) + n.supportingDifs[..k])
    requires offset + |Packed(AllTexts(n))| <= pk.maxSz
    modifies pk, pk.base
    ensures PackedSoFar(pk, offset, head, NamesOf(n) + n.supportingDifs[..k + 1])
    ensures p == DifPlace(offset, n, k)
  {
    ghost var done, t := NamesOf(n) + n.supportingDifs[..k], n.supportingDifs[k];
    DifSplit(n, k);
    assert done + [t] == NamesOf(n) + n.supportingDifs[..k + 1];
    hide Packed, PackedSoFar, NamesOf, AllTexts;
    p := PackText(pk, n.supportingDifs[k], offset, head, done, n.supportingDifs[k + 1..]);
  }

  method PackDifs(pk: Packer, n: Neighbor, ghost offset: nat, ghost head: seq<byte>) returns (difs: seq<nat>)
    requires PackedSoFar(pk, offset, head, NamesOf(n)) && offset + |Packed(AllTexts(n))| <= pk.maxSz
    modifies pk, pk.base
    ensures PackedSoFar(pk, offset, head, AllTexts(n))
    ensures |difs| == |n.supportingDifs|
    ensures forall k | 0 <= k < |difs| :: difs[k] == DifPlace(offset, n, k)
  {
    difs := [];
    var k := 0;
    assert NamesOf(n) + n.supportingDifs[..0] == NamesOf(n);
    assert NamesOf(n) + n.supportingDifs[..|n.supportingDifs|] == AllTexts(n);
    hide Packed, PackedSoFar, NamesOf, AllTexts, DifPlace;
    while k < |n.supportingDifs|
      invariant k <= |n.supportingDifs| && |difs| == k
      invariant PackedSoFar(pk, offset, head, NamesOf(n) + n.supportingDifs[..k])
      invariant forall j | 0 <= j < k :: difs[j] == DifPlace(offset, n, j)
    {
      var p := PackDif(pk, n, k, offset, head);
      difs := difs + [p];
      k := k + 1;
    }
  }

  /** The pointer to a string packed behind `before`. */
  function Placed(offset: nat, before: seq<Text>, name: Option<Text>): Option<nat> {
    if name.Some? then Some(offset + |Packed(before)|) else None
  }

  /** The texts around each name. */
  lemma Around(n: Neighbor)
    ensures var a, b, c, d, e := OneText(n.apName), OneText(n.apInstance), OneText(n.aeName), OneText(n.aeInstance),
            n.supportingDifs;
      && AllTexts(n) == [] + a + (b + c + d + e) && [] + a == a
      && AllTexts(n) == a + b + (c + d + e)
      && AllTexts(n) == a + b + c + (d + e)
      && AllTexts(n) == a + b + c + d + e
      && NamesOf(n) == a + b + c + d
  {
    hide OneText;
    Regroup5(OneText(n.apName), OneText(n.apInstance), OneText(n.aeName), OneText(n.aeInstance), n.supportingDifs);
  }

  lemma Regroup5(a: seq<Text>, b: seq<Text>, c: seq<Text>, d: seq<Text>, e: seq<Text>)
    ensures [] + a == a
    ensures a + b + c + d + e == a + (b + c + d + e)
    ensures a + b + c + d + e == a + b + (c + d + e)
    ensures a + b + c + d + e == a + b + c + (d + e)
  {
    Regroup(a, b, c, d);
    Regroup(a, b, c + d, e);
    Regroup(a, b + c, d, e);
    Regroup(b, c, d, e);
  }

  /** The four names, in order. */
  method PackNames(pk: Packer, n: Neighbor, ghost offset: nat, ghost head: seq<byte>)
    returns (apName: Option<nat>, apInstance: Option<nat>, aeName: Option<nat>, aeInstance: Option<nat>)
    requires PackedSoFar(pk, offset, head, []) && offset + |Packed(AllTexts(n))| <= pk.maxSz
    modifies pk, pk.base
    ensures PackedSoFar(pk, offset, head, NamesOf(n))
    ensures apName == Placed(offset, [], n.apName)
    ensures apInstance == Placed(offset, OneText(n.apName), n.apInstance)
    ensures aeName == Placed(offset, OneText(n.apName) + OneText(n.apInstance), n.aeName)
    ensures aeInstance == Placed(offset, OneText(n.apName) + OneText(n.apInstance) + OneText(n.aeName), n.aeInstance)
  {
    ghost var a, b, c, d, e := OneText(n.apName), OneText(n.apInstance), OneText(n.aeName), OneText(n.aeInstance),
        n.supportingDifs;
    Around(n);
    hide Packed, PackedSoFar, AllTexts, NamesOf, OneText, Placed;
    apName := PackName(pk, n.apName, offset, head, [], b + c + d + e);
    apInstance := PackName(pk, n.apInstance, offset, head, a, c + d + e);
    aeName := PackName(pk, n.aeName, offset, head, a + b, d + e);
    aeInstance := PackName(pk, n.aeInstance, offset, head, a + b + c, e);
  }

  lemma PlacedReads(area: seq<byte>, offset: nat, before: seq<Text>, name: Option<Text>, after: seq<Text>)
    requires offset <= |area| && area[offset..] == Packed(before + OneText(name) + after)
    ensures PointsTo(area, Placed(offset, before, name), name)
  {
    if name.Some? {
      ReadsBack(area, offset, before, name.value, after);
    }
  }

  lemma DifReads(area: seq<byte>, offset: nat, n: Neighbor, k: nat)
    requires offset <= |area| && area[offset..] == Packed(AllTexts(n)) && k < |n.supportingDifs|
    ensures PointsTo(area, Some(DifPlace(offset, n, k)), Some(n.supportingDifs[k]))
  {
    var t := n.supportingDifs[k];
    DifSplit(n, k);
    ReadsBack(area, offset, NamesOf(n) + n.supportingDifs[..k], t, n.supportingDifs[k + 1..]);
  }

  lemma NamesRead(area: seq<byte>, offset: nat, n: Neighbor)
    requires offset <= |area| && area[offset..] == Packed(AllTexts(n))
    ensures PointsTo(area, Placed(offset, [], n.apName), n.apName)
    ensures PointsTo(area, Placed(offset, OneText(n.apName), n.apInstance), n.apInstance)
    ensures PointsTo(area, Placed(offset, OneText(n.apName) + OneText(n.apInstance), n.aeName), n.aeName)
    ensures PointsTo(area, Placed(offset, OneText(n.apName) + OneText(n.apInstance) + OneText(n.aeName), n.aeInstance),
                     n.aeInstance)
  {
    var a, b, c, d, e := OneText(n.apName), OneText(n.apInstance), OneText(n.aeName), OneText(n.aeInstance),
        n.supportingDifs;
    Around(n);
    hide Packed, Placed, PointsTo, OneText, AllTexts;
    PlacedReads(area, offset, [], n.apName, b + c + d + e);
    PlacedReads(area, offset, a, n.apInstance, c + d + e);
    PlacedReads(area, offset, a + b, n.aeName, d + e);
    PlacedReads(area, offset, a + b + c, n.aeInstance, e);
  }

  /**
   The packing pass, into a block of exactly the counted size: the strings fill it to the last
   byte, the fixed part stays untouched, and the record reads as the neighbor.
   */
  method ToNeighborMessage(n: Neighbor, block: array<byte>, sizes: Sizes, maxSz: nat) returns (r: Record)
    requires block.Length == maxSz == sizes.header + |Packed(AllTexts(n))| + sizes.pointer * |n.supportingDifs|
    modifies block
    ensures var offset := sizes.header + sizes.pointer * |n.supportingDifs|;
      && offset <= block.Length
      && block[..offset] == old(block[..offset])
      && block[offset..] == Packed(AllTexts(n))
    ensures Reads(block[..], r, n)
  {
    var offset := sizes.header + |n.supportingDifs| * sizes.pointer;
    ghost var head := block[..][..offset];
    var pk := new Packer(block, offset, maxSz);
    assert block[..][offset..offset] == Packed([]);
    var apName, apInstance, aeName, aeInstance := PackNames(pk, n, offset, head);
    var difs := PackDifs(pk, n, offset, head);
    r := Record(apName, apInstance, aeName, aeInstance, n.address, difs);
    assert block[..][offset..] == Packed(AllTexts(n));
    hide Packed, AllTexts, PointsTo, DifPlace, Placed, OneText;
    NamesRead(block[..], offset, n);
    forall k | 0 <= k < |difs| ensures PointsTo(block[..], Some(difs[k]), Some(n.supportingDifs[k])) {
      DifReads(block[..], offset, n, k);
    }
  }

  // ---------------------------------------------------------------- decoding

  /** A decoded neighbor: its record and the memory block that the record points into. */
  class NeighborBlock {
    const block: array<byte>
    const record: Record

    constructor (block: array<byte>, record: Record)
      ensures this.block == block && this.record == record
    {
      this.block := block;
      this.record := record;
    }
  }

  /** The record reads as `n`, and its block has exactly the counted size. */
  ghost predicate Holds(nb: NeighborBlock, n: Neighbor, sizes: Sizes)
    reads nb.block
  {
    && Reads(nb.block[..], nb.record, n)
    && nb.block.Length == sizes.header + |Packed(AllTexts(n))| + sizes.pointer * |n.supportingDifs|
  }

  lemma SizesAreOk()
    ensures SizesOk(NEIGHBORS)
  {
    assert forall f | f in NEIGHBOR.fields :: KindOk(f.kind);
    assert SizesOk(NEIGHBOR);
  }

  /** Count, allocate, pack. */
  method PackNeighbor(n: Neighbor, sizes: Sizes) returns (nb: NeighborBlock)
    ensures fresh(nb) && fresh(nb.block) && Holds(nb, n, sizes)
  {
    hide Reads, Packed, AllTexts;
    var sz := GetNeighborAllocSize(n, sizes);
    var block := new byte[sizes.header + sz];
    var record := ToNeighborMessage(n, block, sizes, sizes.header + sz);
    nb := new NeighborBlock(block, record);
  }

  /** The items of an array list, one by one. */
  method Collect(list: ArrayList.ArrayList<NeighborBlock?>) returns (nbs: seq<NeighborBlock>)
    requires list.Valid() && forall k | 0 <= k < |list.Contents()| :: list.Contents()[k] != null
    ensures |nbs| == |list.Contents()| && forall k | 0 <= k < |nbs| :: nbs[k] == list.Contents()[k]
  {
    nbs := [];
    var k := 0;
    while k < list.Count()
      invariant k <= list.Count() && |nbs| == k
      invariant forall j | 0 <= j < k :: nbs[j] == list.Contents()[j]
    {
      var got := list.Get(k);
      nbs := nbs + [got.item];
      k := k + 1;
    }
  }

  /** Every decoded neighbor becomes a record; the records are gathered in an array list. */
  method PackAll(ns: seq<Neighbor>, sizes: Sizes) returns (nbs: seq<NeighborBlock>)
    ensures |nbs| == |ns| && forall k | 0 <= k < |nbs| :: Holds(nbs[k], ns[k], sizes)
  {
    hide Holds;
    var list := new ArrayList.ArrayList<NeighborBlock?>(10, null);
    ghost var blocks: seq<NeighborBlock> := [];
    var i := 0;
    while i < |ns|
      invariant i <= |ns| && fresh(list) && list.Valid() && fresh(list.items)
      invariant |blocks| == i && list.Contents() == blocks
      invariant forall k | 0 <= k < i :: Holds(blocks[k], ns[k], sizes)
    {
      var nb := PackNeighbor(ns[i], sizes);
      list.Add(nb);
      blocks := blocks + [nb];
      i := i + 1;
    }
    nbs := Collect(list);
    assert nbs == blocks;
  }

  /** The whole list: decoded, then packed neighbor by neighbor. */
  method NeighborListDecode(layout: Layout, buffer: seq<byte>, sizes: Sizes) returns (ok: bool, nbs: seq<NeighborBlock>)
    requires LaidOut(layout, NEIGHBORS)
    ensures ok <==> ListDecoded(buffer).Some?
    ensures ok ==> |nbs| == |ListDecoded(buffer).value|
    ensures ok ==> forall k | 0 <= k < |nbs| :: Holds(nbs[k], ListDecoded(buffer).value[k], sizes)
  {
    SizesAreOk();
    hide LaidOut, SizesOk, DecMessage, Holds;
    nbs := [];
    var stream := new IStream.FromBuffer(buffer, |buffer|);
    var m;
    ok, m := Decoder.DecodeInner(layout, stream, NEIGHBORS, ZeroMessage(NEIGHBORS), true);
    if ok {
      TypedNeighbors(m);
      nbs := PackAll(FromMessages(m[0].vs), sizes);
    }
  }
}
