/** The cyclic iterator over a packed descriptor table, with its running sums. */
module FieldIter {
  import opened Prelude
  import opened FieldTable
  import opened Words

  /** What the generator emits for a message type; `D` stands for a reference to a submessage's own. */
  datatype Descriptor<D> = Descriptor(
    fieldInfo: seq<bv32>, submsgInfo: seq<D>, fieldCount: nat, requiredFieldCount: nat, largestTag: nat)

  /** The generator's output for these rows: the last tag is the largest. */
  function Compile<D>(fs: seq<FieldInfo>, submsgs: seq<D>): Descriptor<D> {
    Descriptor(PackAll(fs), submsgs, |fs|, RequiredBefore(fs, |fs|), LargestTag(fs))
  }

  function LargestTag(fs: seq<FieldInfo>): nat {
    if fs == [] then 0 else fs[|fs| - 1].tag
  }

  /** Tags rise from row to row. */
  predicate Rising(fs: seq<FieldInfo>) {
    && (forall i | 0 <= i < |fs| :: fs[i].tag != 0)
    && (forall i, j | 0 <= i < j < |fs| :: fs[i].tag < fs[j].tag)
  }

  /** And there is no extension placeholder. */
  predicate Searchable(fs: seq<FieldInfo>) {
    Rising(fs) && forall i | 0 <= i < |fs| :: !IsExtension(fs[i].ftype)
  }

  class FieldIter<D> {
    const descriptor: Descriptor<D>
    ghost const fs: seq<FieldInfo>

    // Where the iterator stands.
    var index: nat
    var fieldInfoIndex: nat
    var requiredFieldIndex: nat
    var submessageIndex: nat

    // The row loaded last.
    var tag: nat
    var ftype: bv32
    var dataOffset: bv32
    var dataSize: bv32
    var sizeOffset: bv32
    var arraySize: bv32
    var submsgDesc: Option<D>

    /** The table is one that the generator emits. */
    ghost predicate Built() {
      && AllFit(fs)
      && descriptor.fieldInfo == PackAll(fs)
      && descriptor.fieldCount == |fs|
      && descriptor.largestTag == LargestTag(fs)
      && |descriptor.submsgInfo| == SubmessagesBefore(fs, |fs|)
    }

    /** The four indices agree on one row: each is the sum over the rows before it. */
    ghost predicate AtRow()
      reads this
    {
      && index < |fs|
      && fieldInfoIndex == WordIndex(fs, index)
      && requiredFieldIndex == RequiredBefore(fs, index)
      && submessageIndex == SubmessagesBefore(fs, index)
    }

    /** The loaded values are those of row `i`. */
    ghost predicate Loaded(i: nat)
      reads this
      requires i < |fs|
    {
      && tag == fs[i].tag
      && ftype == fs[i].ftype
      && dataOffset == fs[i].dataOffset
      && dataSize == fs[i].dataSize
      && sizeOffset == fs[i].sizeOffset
      && arraySize == fs[i].arraySize
      && submsgDesc == (
           if IsSubmessage(fs[i].ftype) && SubmessagesBefore(fs, i) < |descriptor.submsgInfo|
           then Some(descriptor.submsgInfo[SubmessagesBefore(fs, i)]) else None)
    }

    /** On a row and loaded with it; on an empty table, at rest. */
    ghost predicate Coherent()
      reads this
    {
      && Built()
      && if |fs| == 0 then index == 0 && fieldInfoIndex == 0 && requiredFieldIndex == 0 && submessageIndex == 0
          && tag == 0 && ftype == 0
         else AtRow() && Loaded(index)
    }

    constructor (ghost rows: seq<FieldInfo>, desc: Descriptor<D>)
      requires AllFit(rows) && desc == Compile(rows, desc.submsgInfo)
      requires |desc.submsgInfo| == SubmessagesBefore(rows, |rows|)
      ensures Built() && fs == rows && descriptor == desc
    {
      descriptor := desc;
      fs := rows;
    }

    method LoadDescriptorValues() returns (ok: bool)
      requires Built() && (index < |fs| ==> AtRow())
      modifies this`tag, this`ftype, this`dataOffset, this`dataSize, this`sizeOffset, this`arraySize, this`submsgDesc
      ensures ok <==> index < |fs|
      ensures if ok then Loaded(index) else
                tag == old(tag) && ftype == old(ftype) && submsgDesc == old(submsgDesc)
    {
      hide Word, Number, PackAll, Pack, Unpack, Word0, RowWords, RowType, TagBits, FitsRow, AllFit, IsSubmessage;
      hide IsRequired, IsExtension, WordIndex, RequiredBefore, SubmessagesBefore, LargestTag;
      if index >= descriptor.fieldCount {
        return false;
      }
      RowFacts(fs, index);
      var ws := descriptor.fieldInfo[fieldInfoIndex..];
      var word0 := ws[0];
      ftype := RowType(word0);
      var row := Unpack(ws);
      tag, dataOffset, dataSize, sizeOffset, arraySize := row.tag, row.dataOffset, row.dataSize, row.sizeOffset,
          row.arraySize;
      if IsSubmessage(ftype) {
        submsgDesc := Some(descriptor.submsgInfo[submessageIndex]);
      } else {
        submsgDesc := None;
      }
      return true;
    }

    method AdvanceIterator()
      requires Built()
      requires index == |fs| || AtRow()
      modifies this`index, this`fieldInfoIndex, this`requiredFieldIndex, this`submessageIndex
      ensures |fs| > 0 ==> AtRow()
      ensures |fs| == 0 ==> fieldInfoIndex == 0 && requiredFieldIndex == 0 && submessageIndex == 0
      ensures index == if old(index) + 1 >= |fs| then 0 else old(index) + 1
    {
      hide Word, Number, PackAll, Pack, Unpack, Word0, RowWords, RowType, TagBits, FitsRow, AllFit, IsSubmessage;
      hide IsRequired, IsExtension;
      ghost var i := index;
      index := index + 1;
      if index >= descriptor.fieldCount {
        index := 0;
        fieldInfoIndex := 0;
        submessageIndex := 0;
        requiredFieldIndex := 0;
      } else {
        RowFacts(fs, i);
        var previous := descriptor.fieldInfo[fieldInfoIndex];
        var prevType := RowType(previous);
        fieldInfoIndex := fieldInfoIndex + RowWords(previous);
        requiredFieldIndex := requiredFieldIndex + if IsRequired(prevType) then 1 else 0;
        submessageIndex := submessageIndex + if IsSubmessage(prevType) then 1 else 0;
      }
    }

    method Begin() returns (ok: bool)
      requires Built()
      modifies this
      ensures Coherent() && index == 0
      ensures ok <==> |fs| > 0
    {
      hide Word, Number, PackAll, Pack, Unpack, Word0, RowWords, RowType, TagBits, FitsRow, IsSubmessage, IsRequired;
      hide IsExtension;
      index, fieldInfoIndex, requiredFieldIndex, submessageIndex := 0, 0, 0, 0;
      tag, ftype, dataOffset, dataSize, sizeOffset, arraySize, submsgDesc := 0, 0, 0, 0, 0, 0, None;
      ok := LoadDescriptorValues();
    }

    /** One row on; false when that wraps to the first. */
    method Next() returns (more: bool)
      requires Coherent() && |fs| > 0
      modifies this
      ensures Coherent()
      ensures index == if old(index) + 1 == |fs| then 0 else old(index) + 1
      ensures more <==> old(index) + 1 < |fs|
    {
      AdvanceIterator();
      var _ := LoadDescriptorValues();
      return index != 0;
    }

    /**
     The search succeeds exactly when the tag is in the table, placeholders apart, on that row, or
     when the iterator stands on the tag to begin with; otherwise it is back where it was.
     */
    method Find(wanted: nat) returns (found: bool)
      requires Coherent() && Rising(fs)
      modifies this
      ensures Coherent()
      ensures found <==> old(tag) == wanted || HasTag(fs, wanted)
      ensures found && old(tag) != wanted ==> index < |fs| && Hit(fs[index], wanted)
      ensures !found || old(tag) == wanted ==> index == old(index)
    {
      hide Rising, Searched, HasTag, Hit, AllFit, PackAll, WordIndex, RequiredBefore, SubmessagesBefore;
      if tag == wanted {
        return true;
      }
      if wanted > descriptor.largestTag {
        BeyondLargest(fs, wanted);
        return false;
      }
      var start := index;
      assert |fs| > 0;
      SearchBegun(fs, wanted, start);
      if wanted < tag {
        index := descriptor.fieldCount;
      }
      while true
        invariant Built() && start < |fs| && fs[start].tag != wanted
        invariant index == |fs| || AtRow()
        invariant Searched(fs, wanted, start, index)
        decreases if index < start then start - index else |fs| - index + start + 1
      {
        ghost var before := index;
        AdvanceIterator();
        found := Matches(wanted);
        if found {
          HasTagAt(fs, index, wanted);
          return;
        }
        OneMore(fs, wanted, start, before, index);
        if index == start {
          break;
        }
      }
      var _ := LoadDescriptorValues();
    }

    /** Compare six bits of the tag, and load the row for the full comparison only if they agree. */
    method Matches(wanted: nat) returns (hit: bool)
      requires Built() && AtRow()
      modifies this`tag, this`ftype, this`dataOffset, this`dataSize, this`sizeOffset, this`arraySize, this`submsgDesc
      ensures hit <==> Hit(fs[index], wanted)
      ensures hit ==> Loaded(index)
    {
      RowFacts(fs, index);
      hide Word, Number, PackAll, Pack, Unpack, Word0, RowWords, RowType, TagBits, FitsRow, AllFit, IsSubmessage;
      hide IsRequired, IsExtension, WordIndex, RequiredBefore, SubmessagesBefore, LargestTag;
      var fieldInfo := descriptor.fieldInfo[fieldInfoIndex];
      if TagBits(fieldInfo) == Word(wanted) & 0x3F {
        var _ := LoadDescriptorValues();
        return tag == wanted && !IsExtension(ftype);
      }
      return false;
    }

    /** Finds an extension placeholder wherever it is in the table, if there is one. */
    method FindExtension() returns (found: bool)
      requires Coherent()
      modifies this
      ensures Coherent()
      ensures found <==> HasExtension(fs)
      ensures found ==> IsExtension(ftype)
      ensures !found ==> index == old(index)
    {
      hide Word, Number, PackAll, Pack, Unpack, Word0, RowWords, RowType, TagBits, FitsRow, AllFit, IsSubmessage;
      hide IsRequired;
      if IsExtension(ftype) {
        return true;
      }
      var start := index;
      while true
        invariant Built() && (|fs| > 0 ==> start < |fs| && AtRow() && !IsExtension(fs[start].ftype))
        invariant |fs| == 0 ==> Coherent() && start == 0
        invariant Skipped(fs, start, index)
        decreases if index < start then start - index else |fs| - index + start + 1
      {
        AdvanceIterator();
        FirstWordOf(fs, index);
        var fieldInfo := descriptor.fieldInfo[fieldInfoIndex];
        if IsExtension(RowType(fieldInfo)) {
          found := LoadDescriptorValues();
          return;
        }
        if index == start {
          break;
        }
      }
      var _ := LoadDescriptorValues();
      return false;
    }
  }

  ghost predicate HasExtension(fs: seq<FieldInfo>) {
    exists i :: 0 <= i < |fs| && IsExtension(fs[i].ftype)
  }

  /** No placeholder after `start` up to `index`, going round the end of the table. */
  ghost predicate Skipped(fs: seq<FieldInfo>, start: nat, index: nat) {
    forall j | 0 <= j < |fs| && (if start <= index then start < j <= index else start < j || j <= index) ::
      !IsExtension(fs[j].ftype)
  }

  /** An empty table still has its closing word, which is no extension. */
  lemma FirstWordOf(fs: seq<FieldInfo>, i: nat)
    requires AllFit(fs) && if fs == [] then i == 0 else i < |fs|
    ensures WordIndex(fs, i) < |PackAll(fs)|
    ensures IsExtension(RowType(PackAll(fs)[WordIndex(fs, i)])) <==> fs != [] && IsExtension(fs[i].ftype)
  {
    if fs != [] {
      RowFacts(fs, i);
    }
  }

  /** What the search looks for: the tag, on a row that is no placeholder. */
  predicate Hit(f: FieldInfo, wanted: nat) {
    f.tag == wanted && !IsExtension(f.ftype)
  }

  ghost predicate HasTag(fs: seq<FieldInfo>, wanted: nat) {
    exists i :: 0 <= i < |fs| && Hit(fs[i], wanted)
  }

  /**
   Rows already ruled out: going up from `start` to `index`, then, after the wrap (for which
   `index` stands at the end when the search starts below), from the bottom.
   */
  ghost predicate Searched(fs: seq<FieldInfo>, wanted: nat, start: nat, index: nat) {
    forall j | 0 <= j < |fs| && RuledOut(|fs|, start, index, j) :: !Hit(fs[j], wanted)
  }

  predicate RuledOut(count: nat, start: nat, index: nat, j: nat) {
    if start <= index < count then start < j <= index else start < j || j <= index < count
  }

  lemma OneMore(fs: seq<FieldInfo>, wanted: nat, start: nat, index: nat, next: nat)
    requires start < |fs| && index <= |fs| && Searched(fs, wanted, start, index)
    requires next == if index + 1 >= |fs| then 0 else index + 1
    requires !Hit(fs[next], wanted)
    ensures Searched(fs, wanted, start, next)
    ensures next == start && fs[start].tag != wanted ==> !HasTag(fs, wanted)
  {
    assert forall j | 0 <= j < |fs| && RuledOut(|fs|, start, next, j) :: RuledOut(|fs|, start, index, j) || j == next;
  }

  lemma HasTagAt(fs: seq<FieldInfo>, i: nat, wanted: nat)
    requires i < |fs| && Hit(fs[i], wanted)
    ensures HasTag(fs, wanted)
  {
  }

  /** From the end of the table nothing above `start` needs to be looked at: tags rise. */
  lemma SearchBegun(fs: seq<FieldInfo>, wanted: nat, start: nat)
    requires Rising(fs) && start < |fs|
    ensures Searched(fs, wanted, start, start)
    ensures wanted < fs[start].tag ==> Searched(fs, wanted, start, |fs|)
  {
  }

  lemma BeyondLargest(fs: seq<FieldInfo>, wanted: nat)
    requires Rising(fs) && wanted > LargestTag(fs)
    ensures !HasTag(fs, wanted)
  {
    assert forall i | 0 <= i < |fs| - 1 :: fs[i].tag < fs[|fs| - 1].tag;
  }

  /** What the words at row `i` say. */
  lemma RowFacts(fs: seq<FieldInfo>, i: nat)
    requires AllFit(fs) && i < |fs|
    ensures var ws, at := PackAll(fs), WordIndex(fs, i);
            && at < |ws|
            && at + RowWords(ws[at]) < |ws|
            && Unpack(ws[at..]) == fs[i]
            && RowType(ws[at]) == fs[i].ftype
            && TagBits(ws[at]) == Word(fs[i].tag) & 0x3F
            && WordIndex(fs, i + 1) == at + RowWords(ws[at])
    ensures IsSubmessage(fs[i].ftype) ==> SubmessagesBefore(fs, i) < SubmessagesBefore(fs, |fs|)
  {
    hide Word, Number, PackAll, Pack, Unpack, Word0, RowWords, RowType, TagBits, FitsRow;
    assert fs[i] in fs;
    ReadRow(fs, i);
    FirstWord(fs[i]);
    SubmessagesMonotone(fs, i + 1, |fs|);
  }
}
