/** Which packed table stands for which message type. */
module Tables {
  import opened Prelude
  import opened Schema
  import opened FieldTable
  import opened FieldIter

  /** The type byte of a field: storage in bits 6 and 7, repetition in bits 4 and 5, wire type below. */
  function TypeByte(f: Field): bv32 {
    (if f.IsCallback() then 0x40 else 0x00) | RuleBits(f.rule) | KindBits(f.kind)
  }

  function RuleBits(rule: Rule): bv32 {
    match rule
    case Required => 0x00
    case Optional => 0x10
    case Repeated(_) => 0x20
  }

  function KindBits(k: Kind): bv32 {
    match k
    case Num(Bool) => 0x00
    case Num(Int(_)) => 0x01
    case Num(UInt(_)) => 0x02
    case Num(SInt(_)) => 0x03
    case Num(Fixed32) => 0x04
    case Num(Fixed64) => 0x05
    case Bytes(_) | CbNone => 0x06
    case Str(_) | CbStrings => 0x07
    case Sub(_) | CbMessages(_) => 0x08
    case FixedBytes(_) => 0x0B
  }

  lemma TypeBits(f: Field)
    ensures TypeByte(f) < 0x100
    ensures IsRequired(TypeByte(f)) <==> f.rule.Required?
    ensures IsSubmessage(TypeByte(f)) <==> HasDesc(f.kind)
    ensures !IsExtension(TypeByte(f))
  {
  }

  predicate HasDesc(k: Kind) {
    k.Sub? || k.CbMessages?
  }

  /** The submessage types of the fields, in order. */
  function SubDescs(fields: seq<Field>): seq<Desc> {
    if fields == [] then []
    else
      var k := fields[|fields| - 1].kind;
      SubDescs(fields[..|fields| - 1]) + if HasDesc(k) then [k.d] else []
  }

  /** The rows carry the tags and the types of the fields; layout and widths are free. */
  predicate Describes(fs: seq<FieldInfo>, d: Desc) {
    && |fs| == |d.fields|
    && AllFit(fs)
    && Searchable(fs)
    && (forall i | 0 <= i < |fs| :: fs[i].tag == d.fields[i].tag)
    && (forall i | 0 <= i < |fs| :: fs[i].ftype == TypeByte(d.fields[i]))
  }

  /** The rows of every message type in use. */
  type Layout = Desc -> seq<FieldInfo>

  function Rows(layout: Layout, d: Desc): seq<FieldInfo> {
    layout(d)
  }

  ghost predicate LaidOut(layout: Layout, d: Desc)
    decreases d
  {
    Describes(Rows(layout, d), d) && forall f | f in d.fields :: LaidOutKind(layout, f.kind)
  }

  ghost predicate LaidOutKind(layout: Layout, k: Kind)
    decreases k
  {
    match k
    case Sub(d) => LaidOut(layout, d)
    case CbMessages(d) => LaidOut(layout, d)
    case _ => true
  }

  function DescriptorOf(layout: Layout, d: Desc): Descriptor<Desc> {
    Compile(Rows(layout, d), SubDescs(d.fields))
  }

  lemma {:induction false} SubDescCount(fs: seq<FieldInfo>, d: Desc, i: nat)
    requires Describes(fs, d) && i <= |fs|
    ensures |SubDescs(d.fields[..i])| == SubmessagesBefore(fs, i)
  {
    hide FitsRow, Searchable, AllFit, TypeByte, IsSubmessage;
    if i > 0 {
      SubDescCount(fs, d, i - 1);
      TypeBits(d.fields[i - 1]);
      assert d.fields[..i][..i - 1] == d.fields[..i - 1];
    }
  }

  lemma {:induction false} SubDescsPrefix(fields: seq<Field>, i: nat)
    requires i <= |fields|
    ensures SubDescs(fields[..i]) <= SubDescs(fields)
  {
    if i < |fields| {
      var shorter := fields[..|fields| - 1];
      SubDescsPrefix(shorter, i);
      assert shorter[..i] == fields[..i];
    } else {
      assert fields[..i] == fields;
    }
  }

  lemma SubDescOf(fields: seq<Field>, i: nat)
    requires i < |fields| && HasDesc(fields[i].kind)
    ensures |SubDescs(fields[..i])| < |SubDescs(fields)|
    ensures SubDescs(fields)[|SubDescs(fields[..i])|] == fields[i].kind.d
  {
    SubDescsPrefix(fields, i + 1);
    assert fields[..i + 1][..i] == fields[..i];
    assert SubDescs(fields[..i + 1]) == SubDescs(fields[..i]) + [fields[i].kind.d];
  }

  /** The submessage index of a row leads to the type of that field. */
  lemma SubDescAt(fs: seq<FieldInfo>, d: Desc, i: nat)
    requires Describes(fs, d) && i < |fs| && HasDesc(d.fields[i].kind)
    ensures IsSubmessage(fs[i].ftype)
    ensures SubmessagesBefore(fs, i) < |SubDescs(d.fields)|
    ensures SubDescs(d.fields)[SubmessagesBefore(fs, i)] == d.fields[i].kind.d
  {
    TypeBits(d.fields[i]);
    SubDescCount(fs, d, i);
    SubDescOf(d.fields, i);
    hide TypeByte, AllFit, Searchable, SubmessagesBefore, SubDescs, IsSubmessage;
  }

  lemma {:induction false} RequiredAgree(fs: seq<FieldInfo>, d: Desc, i: nat)
    requires Describes(fs, d) && i <= |fs|
    ensures RequiredBefore(fs, i) == RequiredIndex(d, i)
  {
    if i > 0 {
      RequiredAgree(fs, d, i - 1);
      TypeBits(d.fields[i - 1]);
    }
  }

  /** What an iterator needs to know of the table, and what it will find there. */
  lemma DescriptorFits(layout: Layout, d: Desc)
    requires LaidOut(layout, d)
    ensures AllFit(Rows(layout, d)) && Searchable(Rows(layout, d))
    ensures DescriptorOf(layout, d) == Compile(Rows(layout, d), DescriptorOf(layout, d).submsgInfo)
    ensures |DescriptorOf(layout, d).submsgInfo| == SubmessagesBefore(Rows(layout, d), |Rows(layout, d)|)
    ensures |Rows(layout, d)| == |d.fields|
    ensures DescriptorOf(layout, d).requiredFieldCount == RequiredCount(d)
  {
    SubDescCount(Rows(layout, d), d, |Rows(layout, d)|);
    assert d.fields[..|Rows(layout, d)|] == d.fields;
    RequiredAgree(Rows(layout, d), d, |Rows(layout, d)|);
  }

  /** A search in the packed table is a linear search in the message type. */
  lemma SearchAgrees(fs: seq<FieldInfo>, d: Desc, tag: nat)
    requires Describes(fs, d)
    ensures HasTag(fs, tag) <==> FindTag(d, tag).Some?
    ensures forall i | 0 <= i < |fs| && fs[i].tag == tag :: FindTag(d, tag) == Some(i)
  {
  }

  // ---------------------------------------------------------------- going through a table

  /** The iterator is over the table of `d`; it stands on field `i`, or has been once round. */
  ghost predicate Stands(iter: FieldIter<Desc>, layout: Layout, d: Desc, i: nat, more: bool)
    reads iter
  {
    && iter.Coherent()
    && iter.fs == Rows(layout, d)
    && iter.descriptor == DescriptorOf(layout, d)
    && |iter.fs| == |d.fields|
    && (if more then i == iter.index < |d.fields| else i == |d.fields|)
  }

  method StartWalk(layout: Layout, d: Desc) returns (iter: FieldIter<Desc>, more: bool)
    requires LaidOut(layout, d)
    ensures fresh(iter) && Stands(iter, layout, d, 0, more)
    ensures more <==> |d.fields| > 0
  {
    DescriptorFits(layout, d);
    hide Rows, DescriptorOf, LaidOut, AllFit, Searchable, PackAll, LargestTag;
    iter := new FieldIter<Desc>(Rows(layout, d), DescriptorOf(layout, d));
    more := iter.Begin();
  }

  method WalkOn(iter: FieldIter<Desc>, layout: Layout, d: Desc, ghost i: nat) returns (more: bool)
    requires Stands(iter, layout, d, i, true)
    modifies iter
    ensures Stands(iter, layout, d, i + 1, more)
    ensures i + 1 <= |d.fields| && (more <==> i + 1 < |d.fields|)
  {
    hide Rows, DescriptorOf, AllFit, Searchable, PackAll, WordIndex, RequiredBefore, SubmessagesBefore, LargestTag;
    more := iter.Next();
  }

  lemma StandsInside(iter: FieldIter<Desc>, layout: Layout, d: Desc, i: nat, more: bool)
    requires Stands(iter, layout, d, i, more)
    ensures if more then i < |d.fields| else i == |d.fields|
  {
  }

  /** What the table says about the field that the iterator stands on. */
  lemma FieldInUse(iter: FieldIter<Desc>, layout: Layout, d: Desc, i: nat)
    requires LaidOut(layout, d) && Stands(iter, layout, d, i, true)
    ensures var f := d.fields[i];
      && f in d.fields && f.tag < 0x1_0000 && LaidOutKind(layout, f.kind)
      && (HasDesc(f.kind) ==> iter.submsgDesc == Some(f.kind.d))
      && iter.requiredFieldIndex == RequiredIndex(d, i)
      && (IsRequired(iter.ftype) <==> f.rule.Required?)
      && iter.tag == f.tag
  {
    var f := d.fields[iter.index];
    assert f in d.fields && iter.fs[i] in iter.fs && FitsRow(iter.fs[i]);
    hide Rows, PackAll, WordIndex, LargestTag, Searchable, AllFit;
    TypeBits(f);
    RequiredAgree(Rows(layout, d), d, i);
    if HasDesc(f.kind) {
      SubDescAt(Rows(layout, d), d, iter.index);
    }
  }
}
