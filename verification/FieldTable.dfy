/** The packed descriptor table: one field takes 1, 2, 4 or 8 words of 32 bits. */
module FieldTable {
  import opened Words

  /** One row as the generator writes it; `words` is the chosen width. */
  datatype FieldInfo = FieldInfo(
    words: nat, tag: nat, ftype: bv32, dataOffset: bv32, dataSize: bv32, sizeOffset: bv32, arraySize: bv32)

  const HTYPE_MASK: bv32 := 0x30
  const HTYPE_REQUIRED: bv32 := 0x00
  const LTYPE_MASK: bv32 := 0x0F
  const LTYPE_SUBMESSAGE: bv32 := 0x08
  const LTYPE_SUBMSG_W_CB: bv32 := 0x09
  const LTYPE_EXTENSION: bv32 := 0x0A

  predicate IsRequired(ftype: bv32) {
    ftype & HTYPE_MASK == HTYPE_REQUIRED
  }

  predicate IsSubmessage(ftype: bv32) {
    ftype & LTYPE_MASK == LTYPE_SUBMESSAGE || ftype & LTYPE_MASK == LTYPE_SUBMSG_W_CB
  }

  predicate IsExtension(ftype: bv32) {
    ftype & LTYPE_MASK == LTYPE_EXTENSION
  }

  /** The static assertions on a row, for 16-bit sizes. The 1-word form has no array size: it is 1. */
  predicate FitsRow(f: FieldInfo) {
    && f.ftype < 0x100
    && f.arraySize >= 1
    && f.sizeOffset <= 127
    && match f.words
       case 1 => f.tag < 0x40 && f.dataOffset < 0x100 && f.sizeOffset < 0x10 && f.dataSize < 0x10 && f.arraySize < 2
       case 2 => f.tag < 0x400 && f.dataOffset < 0x1_0000 && f.sizeOffset < 0x10 && f.dataSize < 0x1000
           && f.arraySize < 0x1000
       case 4 => f.tag < 0x1_0000 && f.dataOffset < 0x1_0000 && f.dataSize < 0x1_0000 && f.arraySize < 0x1_0000
       case 8 => f.tag < 0x1_0000 && f.dataOffset < 0x1_0000 && f.dataSize < 0x1_0000 && f.arraySize < 0x1_0000
       case _ => false
  }

  // ---------------------------------------------------------------- packing

  function Word0(f: FieldInfo): bv32 {
    match f.words
    case 1 =>
      0 | ((Word(f.tag) << 2) & 0xFF) | (f.ftype << 8) | ((f.dataOffset & 0xFF) << 16)
      | ((f.sizeOffset & 0x0F) << 24) | ((f.dataSize & 0x0F) << 28)
    case 2 =>
      1 | ((Word(f.tag) << 2) & 0xFF) | (f.ftype << 8) | ((f.arraySize & 0xFFF) << 16) | ((f.sizeOffset & 0x0F) << 28)
    case 4 =>
      2 | ((Word(f.tag) << 2) & 0xFF) | (f.ftype << 8) | ((f.arraySize & 0xFFFF) << 16)
    case _ =>
      3 | ((Word(f.tag) << 2) & 0xFF) | (f.ftype << 8)
  }

  function Pack(f: FieldInfo): (ws: seq<bv32>)
    ensures |ws| > 0 && ws[0] == Word0(f)
    ensures FitsRow(f) ==> |ws| == f.words
  {
    match f.words
    case 1 => [Word0(f)]
    case 2 =>
      [Word0(f), (f.dataOffset & 0xFFFF) | ((f.dataSize & 0xFFF) << 16) | ((Word(f.tag) & 0x3C0) << 22)]
    case 4 =>
      [Word0(f), f.sizeOffset | ((Word(f.tag) << 2) & 0xFFFF_FF00), f.dataOffset, f.dataSize]
    case _ =>
      [Word0(f), f.sizeOffset | ((Word(f.tag) << 2) & 0xFFFF_FF00), f.dataOffset, f.dataSize, f.arraySize, 0, 0, 0]
  }

  // ---------------------------------------------------------------- unpacking

  /** Number of words, from the two lowest bits of the first. */
  function RowWords(w0: bv32): (n: nat)
    ensures n == 1 || n == 2 || n == 4 || n == 8
  {
    match w0 & 3
    case 0 => 1
    case 1 => 2
    case 2 => 4
    case _ => 8
  }

  function RowType(w0: bv32): bv32 {
    (w0 >> 8) & 0xFF
  }

  /** The six tag bits that every first word carries. */
  function TagBits(w0: bv32): bv32 {
    (w0 >> 2) & 0x3F
  }

  /** The row at the front of `ws`. */
  function Unpack(ws: seq<bv32>): FieldInfo
    requires |ws| > 0 && |ws| >= RowWords(ws[0])
  {
    var w0 := ws[0];
    match RowWords(w0)
    case 1 =>
      FieldInfo(1, Number(TagBits(w0), 16), RowType(w0), (w0 >> 16) & 0xFF, (w0 >> 28) & 0x0F, (w0 >> 24) & 0x0F, 1)
    case 2 =>
      FieldInfo(2, Number(TagBits(w0) | ((ws[1] >> 28) << 6), 16), RowType(w0),
                ws[1] & 0xFFFF, (ws[1] >> 16) & 0x0FFF, (w0 >> 28) & 0x0F, (w0 >> 16) & 0x0FFF)
    case 4 =>
      FieldInfo(4, Number(TagBits(w0) | ((ws[1] >> 8) << 6), 16), RowType(w0),
                ws[2], ws[3] & 0xFFFF, ws[1] & 0xFF, (w0 >> 16) & 0xFFFF)
    case _ =>
      FieldInfo(8, Number(TagBits(w0) | ((ws[1] >> 8) << 6), 16), RowType(w0),
                ws[2], ws[3] & 0xFFFF, ws[1] & 0xFF, ws[4] & 0xFFFF)
  }

  /** The first word alone tells the width, the type and six bits of the tag. */
  lemma FirstWord(f: FieldInfo)
    requires FitsRow(f)
    ensures RowWords(Word0(f)) == f.words
    ensures RowType(Word0(f)) == f.ftype
    ensures TagBits(Word0(f)) == Word(f.tag) & 0x3F
  {
  }

  lemma OneWordBits(f: FieldInfo)
    requires FitsRow(f) && f.words == 1
    ensures (Word0(f) >> 16) & 0xFF == f.dataOffset
    ensures (Word0(f) >> 28) & 0x0F == f.dataSize
    ensures (Word0(f) >> 24) & 0x0F == f.sizeOffset
  {
  }

  lemma TwoWordBits(f: FieldInfo)
    requires FitsRow(f) && f.words == 2
    ensures (Word0(f) >> 28) & 0x0F == f.sizeOffset
    ensures (Word0(f) >> 16) & 0x0FFF == f.arraySize
  {
  }

  lemma TwoWordOffsets(tag: bv32, dataOffset: bv32, dataSize: bv32)
    requires dataOffset < 0x1_0000 && dataSize < 0x1000
    ensures ((dataOffset & 0xFFFF) | ((dataSize & 0xFFF) << 16) | ((tag & 0x3C0) << 22)) & 0xFFFF == dataOffset
    ensures (((dataOffset & 0xFFFF) | ((dataSize & 0xFFF) << 16) | ((tag & 0x3C0) << 22)) >> 16) & 0x0FFF == dataSize
  {
  }

  lemma TwoWordTag(tag: bv32, dataOffset: bv32, dataSize: bv32)
    requires tag >> 10 == 0
    ensures var w := (dataOffset & 0xFFFF) | ((dataSize & 0xFFF) << 16) | ((tag & 0x3C0) << 22);
            (tag & 0x3F) | ((w >> 28) << 6) == tag
  {
  }

  /** The 4-word and 8-word forms share their second word. */
  lemma SecondWord(tag: bv32, sizeOffset: bv32)
    requires tag >> 16 == 0 && sizeOffset <= 127
    ensures (sizeOffset | ((tag << 2) & 0xFFFF_FF00)) & 0xFF == sizeOffset
    ensures (tag & 0x3F) | (((sizeOffset | ((tag << 2) & 0xFFFF_FF00)) >> 8) << 6) == tag
  {
  }

  /** The tag bits beyond the width of the row are clear, and the tag can be read back from its word. */
  lemma TagFits(f: FieldInfo)
    requires FitsRow(f)
    ensures f.words == 1 ==> Word(f.tag) >> 6 == 0
    ensures f.words == 2 ==> Word(f.tag) >> 10 == 0
    ensures f.words >= 4 ==> Word(f.tag) >> 16 == 0
    ensures Number(Word(f.tag), 16) == f.tag
  {
    Powers2();
    WordBound(f.tag, if f.words == 1 then 6 else if f.words == 2 then 10 else 16);
    NumberOfWord(f.tag, 16);
  }

  lemma LowHalf(x: bv32)
    requires x < 0x1_0000
    ensures x & 0xFFFF == x
  {
  }

  lemma LowSix(x: bv32)
    requires x >> 6 == 0
    ensures x & 0x3F == x
  {
  }

  lemma FourWordBits(tag: bv32, ftype: bv32, arraySize: bv32)
    requires ftype < 0x100 && arraySize < 0x1_0000
    ensures ((2 | ((tag << 2) & 0xFF) | (ftype << 8) | ((arraySize & 0xFFFF) << 16)) >> 16) & 0xFFFF == arraySize
  {
  }

  lemma {:induction false} OneWordRoundTrip(f: FieldInfo, ws: seq<bv32>)
    requires FitsRow(f) && f.words == 1 && |ws| >= 1 && ws[0] == Word0(f)
    ensures RowWords(ws[0]) == 1 && Unpack(ws) == f
  {
    TagFits(f);
    FirstWord(f);
    OneWordBits(f);
    LowSix(Word(f.tag));
    assert f.arraySize == 1;
    hide Word, Number, Word0, TagBits, RowType, RowWords;
  }

  lemma TwoWordRoundTrip(f: FieldInfo, ws: seq<bv32>)
    requires FitsRow(f) && f.words == 2 && |ws| >= 2 && ws[..2] == Pack(f)
    ensures RowWords(ws[0]) == 2 && Unpack(ws) == f
  {
    TagFits(f);
    FirstWord(f);
    TwoWordBits(f);
    TwoWordOffsets(Word(f.tag), f.dataOffset, f.dataSize);
    TwoWordTag(Word(f.tag), f.dataOffset, f.dataSize);
    assert ws[0] == Pack(f)[0] && ws[1] == Pack(f)[1];
    hide Word, Number, Word0, TagBits, RowType, RowWords;
  }

  lemma FourWordRoundTrip(f: FieldInfo, ws: seq<bv32>)
    requires FitsRow(f) && f.words == 4 && |ws| >= 4 && ws[..4] == Pack(f)
    ensures RowWords(ws[0]) == 4 && Unpack(ws) == f
  {
    TagFits(f);
    FirstWord(f);
    SecondWord(Word(f.tag), f.sizeOffset);
    FourWordBits(Word(f.tag), f.ftype, f.arraySize);
    LowHalf(f.dataSize);
    assert ws[0] == Pack(f)[0] && ws[1] == Pack(f)[1] && ws[2] == Pack(f)[2] && ws[3] == Pack(f)[3];
    hide Word, Number, TagBits, RowType, RowWords;
  }

  lemma EightWords(f: FieldInfo, ws: seq<bv32>)
    requires FitsRow(f) && f.words == 8 && |ws| >= 8 && ws[..8] == Pack(f)
    ensures forall k | 0 <= k < 8 :: ws[k] == Pack(f)[k]
  {
    assert forall k | 0 <= k < 8 :: ws[..8][k] == ws[k];
  }

  lemma EightWordRoundTrip(f: FieldInfo, ws: seq<bv32>)
    requires FitsRow(f) && f.words == 8 && |ws| >= 8 && ws[..8] == Pack(f)
    ensures RowWords(ws[0]) == 8 && Unpack(ws) == f
  {
    TagFits(f);
    FirstWord(f);
    SecondWord(Word(f.tag), f.sizeOffset);
    LowHalf(f.dataSize);
    LowHalf(f.arraySize);
    EightWords(f, ws);
    assert ws[0] == Pack(f)[0] && ws[1] == Pack(f)[1] && ws[2] == Pack(f)[2] && ws[3] == Pack(f)[3]
        && ws[4] == Pack(f)[4];
    hide Word, Number, Word0, TagBits, RowType, RowWords;
  }

  /** A row read back is the row packed, whatever words follow. */
  lemma PackRoundTrip(f: FieldInfo, ws: seq<bv32>)
    requires FitsRow(f) && |ws| >= f.words && ws[..f.words] == Pack(f)
    ensures RowWords(ws[0]) == f.words && Unpack(ws) == f
  {
    hide RowWords, Unpack, Word0;
    assert ws[0] == Pack(f)[0];
    match f.words
    case 1 => OneWordRoundTrip(f, ws);
    case 2 => TwoWordRoundTrip(f, ws);
    case 4 => FourWordRoundTrip(f, ws);
    case 8 => EightWordRoundTrip(f, ws);
  }

  // ---------------------------------------------------------------- whole tables

  /** Row after row, and a closing zero word. */
  function PackAll(fs: seq<FieldInfo>): (ws: seq<bv32>)
    ensures |ws| > 0
  {
    if fs == [] then [0] else Pack(fs[0]) + PackAll(fs[1..])
  }

  /** Where row `i` starts. */
  function WordIndex(fs: seq<FieldInfo>, i: nat): nat
    requires i <= |fs|
  {
    if i == 0 then 0 else WordIndex(fs, i - 1) + fs[i - 1].words
  }

  /** How many of the first `i` rows are required fields. */
  function RequiredBefore(fs: seq<FieldInfo>, i: nat): (n: nat)
    requires i <= |fs|
    ensures n <= i
  {
    if i == 0 then 0 else RequiredBefore(fs, i - 1) + if IsRequired(fs[i - 1].ftype) then 1 else 0
  }

  /** How many of the first `i` rows are submessage fields. */
  function SubmessagesBefore(fs: seq<FieldInfo>, i: nat): (n: nat)
    requires i <= |fs|
    ensures n <= i
  {
    if i == 0 then 0 else SubmessagesBefore(fs, i - 1) + if IsSubmessage(fs[i - 1].ftype) then 1 else 0
  }

  predicate AllFit(fs: seq<FieldInfo>) {
    forall f | f in fs :: FitsRow(f)
  }

  lemma {:induction false} WordIndexTail(fs: seq<FieldInfo>, i: nat)
    requires 0 < i <= |fs|
    ensures WordIndex(fs, i) == fs[0].words + WordIndex(fs[1..], i - 1)
  {
    if i > 1 {
      WordIndexTail(fs, i - 1);
      assert fs[1..][i - 2] == fs[i - 1];
    }
  }

  lemma {:induction false} SubmessagesMonotone(fs: seq<FieldInfo>, i: nat, j: nat)
    requires i <= j <= |fs|
    ensures SubmessagesBefore(fs, i) <= SubmessagesBefore(fs, j)
  {
    if i < j {
      SubmessagesMonotone(fs, i, j - 1);
    }
  }

  /** Row `i` can be read back at its word index. */
  lemma {:induction false} RowAt(fs: seq<FieldInfo>, i: nat)
    requires AllFit(fs) && i < |fs|
    ensures var ws, at := PackAll(fs), WordIndex(fs, i);
            && at + fs[i].words < |ws|
            && ws[at..at + fs[i].words] == Pack(fs[i])
  {
    hide Pack, FitsRow;
    assert fs[0] in fs;
    PackedLength(fs[0]);
    if i == 0 {
      assert Pack(fs[0]) == PackAll(fs)[..fs[0].words];
    } else {
      RowAt(fs[1..], i - 1);
      WordIndexTail(fs, i);
      SliceBehind(Pack(fs[0]), PackAll(fs[1..]), WordIndex(fs[1..], i - 1), fs[i].words);
    }
  }

  lemma SliceBehind(p: seq<bv32>, q: seq<bv32>, at: nat, n: nat)
    requires at + n <= |q|
    ensures (p + q)[|p| + at..|p| + at + n] == q[at..at + n]
  {
  }

  lemma PackedLength(f: FieldInfo)
    requires FitsRow(f)
    ensures |Pack(f)| == f.words > 0
  {
  }

  /** The two words-of-one-row facts that the iterator works with. */
  lemma ReadRow(fs: seq<FieldInfo>, i: nat)
    requires AllFit(fs) && i < |fs|
    ensures var ws, at := PackAll(fs), WordIndex(fs, i);
            && at < |ws|
            && ws[at] == Word0(fs[i])
            && RowWords(ws[at]) == fs[i].words
            && at + RowWords(ws[at]) < |ws|
            && Unpack(ws[at..]) == fs[i]
  {
    hide Pack, Unpack, Word0, RowWords;
    RowAt(fs, i);
    assert fs[i] in fs;
    PackedLength(fs[i]);
    var ws, at := PackAll(fs), WordIndex(fs, i);
    assert ws[at..][..fs[i].words] == Pack(fs[i]);
    PackRoundTrip(fs[i], ws[at..]);
    assert ws[at] == Pack(fs[i])[0];
  }
}
