/**
 Message types and message contents: what a generated descriptor table says about a message,
 and the value of the C structure that such a table describes.
 */
module Schema {
  import opened Prelude

  /** Size in bytes of an integer member. */
  type Width = w: nat | w == 1 || w == 2 || w == 4 || w == 8 witness 4

  /** The packable types. */
  datatype Scalar = Bool | Int(w: Width) | UInt(w: Width) | SInt(w: Width) | Fixed32 | Fixed64

  /**
   How one item of a field is laid out. `Bytes(cap)` holds up to `cap` bytes beside its length,
   `Str(size)` is a char array with room for a terminator. The last three are callback fields:
   without a user callback, with the string-list callbacks, and with the message-list callbacks.
   */
  datatype Kind =
    | Num(sc: Scalar)
    | Bytes(cap: nat)
    | Str(size: nat)
    | FixedBytes(len: nat)
    | Sub(d: Desc)
    | CbNone
    | CbStrings
    | CbMessages(d: Desc)

  datatype Rule = Required | Optional | Repeated(max: nat)

  datatype Field = Field(tag: nat, rule: Rule, kind: Kind) {

    predicate IsCallback() {
      kind.CbNone? || kind.CbStrings? || kind.CbMessages?
    }

    predicate IsPackable() {
      kind.Num?
    }
  }

  /** A message type: its fields in tag order, and the encoded default values of the table. */
  datatype Desc = Desc(fields: seq<Field>, defaults: seq<byte>)

  datatype Value = Number(n: int) | Blob(bs: seq<byte>) | Msg(m: Message)

  /** One member of the structure, with its has-flag or its count. */
  datatype Slot = Req(v: Value) | Opt(has: bool, v: Value) | Rep(vs: seq<Value>)

  type Message = seq<Slot>

  // ---------------------------------------------------------------- shape and range

  /** The structure has the members that the table names. */
  predicate Typed(d: Desc, m: Message)
    decreases d
  {
    |m| == |d.fields| && forall i | 0 <= i < |m| :: TypedSlot(d.fields[i], m[i])
  }

  predicate TypedSlot(f: Field, sl: Slot)
    decreases f
  {
    if f.IsCallback() || f.rule.Repeated? then
      sl.Rep? && forall v | v in sl.vs :: TypedValue(f.kind, v)
    else if f.rule.Required? then
      sl.Req? && TypedValue(f.kind, sl.v)
    else
      sl.Opt? && TypedValue(f.kind, sl.v)
  }

  predicate TypedValue(k: Kind, v: Value)
    decreases k
  {
    match k
    case Num(_) => v.Number?
    case Bytes(_) | Str(_) | CbStrings => v.Blob?
    case FixedBytes(n) => v.Blob? && |v.bs| == n
    case Sub(d) => v.Msg? && Typed(d, v.m)
    case CbMessages(d) => v.Msg? && Typed(d, v.m)
    case CbNone => false
  }

  /** How many values an integer member of width `w` has. */
  function Bits(w: Width): (n: nat)
    ensures n > 0 && n % 2 == 0
  {
    match w
    case 1 => 0x100
    case 2 => 0x1_0000
    case 4 => 0x1_0000_0000
    case 8 => 0x1_0000_0000_0000_0000
  }

  predicate ScalarFits(sc: Scalar, n: int) {
    match sc
    case Bool => 0 <= n <= 1
    case Int(w) => -(Bits(w) / 2) <= n < Bits(w) / 2
    case UInt(w) => 0 <= n < Bits(w)
    case SInt(w) => -(Bits(w) / 2) <= n < Bits(w) / 2
    case Fixed32 => 0 <= n < 0x1_0000_0000
    case Fixed64 => 0 <= n < 0x1_0000_0000_0000_0000
  }

  /** Every member holds what its C type can hold, and no array is fuller than its capacity. */
  predicate Fits(d: Desc, m: Message)
    decreases d
  {
    |m| == |d.fields| && forall i | 0 <= i < |m| :: FitsSlot(d.fields[i], m[i])
  }

  predicate FitsSlot(f: Field, sl: Slot)
    decreases f
  {
    if f.IsCallback() then
      sl.Rep? && forall v | v in sl.vs :: FitsValue(f.kind, v)
    else if f.rule.Repeated? then
      sl.Rep? && |sl.vs| <= f.rule.max && forall v | v in sl.vs :: FitsValue(f.kind, v)
    else if f.rule.Required? then
      sl.Req? && FitsValue(f.kind, sl.v)
    else
      sl.Opt? && FitsValue(f.kind, sl.v)
  }

  predicate FitsValue(k: Kind, v: Value)
    decreases k
  {
    match k
    case Num(sc) => v.Number? && ScalarFits(sc, v.n)
    case Bytes(cap) => v.Blob? && |v.bs| <= cap
    case Str(size) => v.Blob? && |v.bs| < size
    case FixedBytes(n) => v.Blob? && |v.bs| == n
    case Sub(d) => v.Msg? && Fits(d, v.m)
    case CbStrings => v.Blob?
    case CbMessages(d) => v.Msg? && Fits(d, v.m)
    case CbNone => false
  }

  /** Array bounds and text sizes that a table may carry. */
  predicate SizesOk(d: Desc)
    decreases d
  {
    forall f | f in d.fields :: KindOk(f.kind)
  }

  predicate KindOk(k: Kind)
    decreases k
  {
    match k
    case Str(size) => 0 < size < 0x1_0000
    case Bytes(cap) => cap < 0x1_0000
    case FixedBytes(n) => 0 < n < 0x1_0000
    case Sub(d) => SizesOk(d)
    case CbMessages(d) => SizesOk(d)
    case _ => true
  }

  lemma {:induction false} FitsIsTyped(d: Desc, m: Message)
    requires Fits(d, m)
    ensures Typed(d, m)
    decreases d
  {
    forall i | 0 <= i < |m| ensures TypedSlot(d.fields[i], m[i]) {
      FitsSlotIsTyped(d.fields[i], m[i]);
    }
  }

  lemma {:induction false} FitsSlotIsTyped(f: Field, sl: Slot)
    requires FitsSlot(f, sl)
    ensures TypedSlot(f, sl)
    decreases f
  {
    match sl
    case Rep(vs) =>
      forall v | v in vs ensures TypedValue(f.kind, v) {
        FitsValueIsTyped(f.kind, v);
      }
    case Req(v) => FitsValueIsTyped(f.kind, v);
    case Opt(_, v) => FitsValueIsTyped(f.kind, v);
  }

  lemma {:induction false} FitsValueIsTyped(k: Kind, v: Value)
    requires FitsValue(k, v)
    ensures TypedValue(k, v)
    decreases k
  {
    match k
    case Sub(d) => FitsIsTyped(d, v.m);
    case CbMessages(d) => FitsIsTyped(d, v.m);
    case _ =>
  }

  // ---------------------------------------------------------------- all-zero structures

  function Zeros(n: nat): (s: seq<byte>)
    ensures |s| == n
  {
    seq(n, _ => 0)
  }

  function ZeroMessage(d: Desc): (m: Message)
    ensures Typed(d, m)
    decreases d
  {
    seq(|d.fields|, i requires 0 <= i < |d.fields| => ZeroSlot(d.fields[i]))
  }

  function ZeroSlot(f: Field): (sl: Slot)
    ensures TypedSlot(f, sl)
    decreases f, 1
  {
    if f.IsCallback() || f.rule.Repeated? then Rep([])
    else if f.rule.Required? then Req(ZeroValue(f.kind))
    else Opt(false, ZeroValue(f.kind))
  }

  function ZeroValue(k: Kind): (v: Value)
    ensures !k.CbNone? ==> TypedValue(k, v)
    decreases k
  {
    match k
    case Num(_) | CbNone => Number(0)
    case Bytes(_) | Str(_) | CbStrings => Blob([])
    case FixedBytes(n) => Blob(Zeros(n))
    case Sub(d) => Msg(ZeroMessage(d))
    case CbMessages(d) => Msg(ZeroMessage(d))
  }

  /** Position of the field with this number. */
  function FindTag(d: Desc, tag: nat): (r: Option<nat>)
    ensures r.Some? ==> r.value < |d.fields| && d.fields[r.value].tag == tag
    ensures r.None? ==> forall i | 0 <= i < |d.fields| :: d.fields[i].tag != tag
  {
    FindFrom(d, tag, 0)
  }

  function FindFrom(d: Desc, tag: nat, i: nat): (r: Option<nat>)
    requires i <= |d.fields|
    ensures r.Some? ==> i <= r.value < |d.fields| && d.fields[r.value].tag == tag
    ensures r.None? ==> forall j | i <= j < |d.fields| :: d.fields[j].tag != tag
    decreases |d.fields| - i
  {
    if i == |d.fields| then None
    else if d.fields[i].tag == tag then Some(i)
    else FindFrom(d, tag, i + 1)
  }

  /** How many of the first `i` fields are required: the index of a field in the seen bitmap. */
  function RequiredIndex(d: Desc, i: nat): (n: nat)
    requires i <= |d.fields|
    ensures n <= i
  {
    if i == 0 then 0
    else RequiredIndex(d, i - 1) + if d.fields[i - 1].rule.Required? then 1 else 0
  }

  lemma {:induction false} RequiredIndexRises(d: Desc, i: nat, j: nat)
    requires i < j <= |d.fields|
    ensures RequiredIndex(d, i) + (if d.fields[i].rule.Required? then 1 else 0) <= RequiredIndex(d, j)
    decreases j
  {
    if i < j - 1 {
      RequiredIndexRises(d, i, j - 1);
    }
  }

  function RequiredCount(d: Desc): nat {
    RequiredIndex(d, |d.fields|)
  }
}
