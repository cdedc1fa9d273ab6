/** From protocol addresses to hardware addresses. */
module ArpCache {
  import opened Prelude
  import opened ProtocolAddress

  datatype HwKind = Mac8023 | OtherHw

  datatype Hw = Hw(kind: HwKind, bytes: seq<byte>)

  /** `pa` and `ha` are the row's own copies. A row all of zeros is free. */
  datatype Row = Row(pa: Option<seq<byte>>, ha: Option<Hw>, age: nat, valid: bool)

  datatype Lookup = Hit | Miss | CantSendPacket

  const FREE: Row := Row(None, None, 0, false)

  function Used(pa: seq<byte>, ha: Hw): Row {
    Row(Some(pa), Some(ha), 1, true)
  }

  predicate RowOk(r: Row) {
    r == FREE || (r.pa.Some? && r.pa.value != [] && r.ha.Some? && r == Used(r.pa.value, r.ha.value))
  }

  predicate RowsOk(rows: seq<Row>) {
    forall i | 0 <= i < |rows| :: RowOk(rows[i])
  }

  predicate Matches(r: Row, a: seq<byte>) {
    r.valid && r.pa.Some? && Same(r.pa.value, a)
  }

  /** The first row for the address. */
  function Find(rows: seq<Row>, a: seq<byte>): (k: nat)
    ensures k <= |rows| && (k < |rows| ==> Matches(rows[k], a))
    ensures forall i | 0 <= i < k :: !Matches(rows[i], a)
  {
    if rows == [] || Matches(rows[0], a) then 0 else 1 + Find(rows[1..], a)
  }

  function FirstFree(rows: seq<Row>): (k: nat)
    ensures k <= |rows| && (k < |rows| ==> !rows[k].valid)
    ensures forall i | 0 <= i < k :: rows[i].valid
  {
    if rows == [] || !rows[0].valid then 0 else 1 + FirstFree(rows[1..])
  }

  function Answer(rows: seq<Row>, a: seq<byte>): Option<Hw> {
    var k := Find(rows, a);
    if k < |rows| then rows[k].ha else None
  }

  /** An add keeps a trimmed copy of the address in the first free row, if there is one. */
  function Added(rows: seq<Row>, a: seq<byte>, h: Hw): seq<Row> {
    var k := FirstFree(rows);
    if a != [] && h.kind == Mac8023 && k < |rows| then rows[k := Used(Trimmed(a, 0), h)] else rows
  }

  function RemoveAll(rows: seq<Row>, a: seq<byte>): (r: seq<Row>)
    ensures |r| == |rows|
    ensures forall i | 0 <= i < |rows| :: r[i] == if Matches(rows[i], a) then FREE else rows[i]
  {
    seq(|rows|, i requires 0 <= i < |rows| => if Matches(rows[i], a) then FREE else rows[i])
  }

  // ---------------------------------------------------------------- what lookups answer

  lemma FindIs(rows: seq<Row>, a: seq<byte>, k: nat)
    requires k <= |rows| && (k < |rows| ==> Matches(rows[k], a)) && forall i | 0 <= i < k :: !Matches(rows[i], a)
    ensures Find(rows, a) == k
  {
  }

  lemma SameRows(rows: seq<Row>, a: seq<byte>, b: seq<byte>)
    requires Same(a, b)
    ensures Find(rows, a) == Find(rows, b)
  {
    forall i | 0 <= i < |rows|
      ensures Matches(rows[i], a) <==> Matches(rows[i], b)
    {
      if rows[i].pa.Some? {
        SameIsEquivalence(rows[i].pa.value, a, b);
        SameIsEquivalence(rows[i].pa.value, b, a);
        SameIsEquivalence(a, b, a);
      }
    }
    FindIs(rows, a, Find(rows, b));
  }

  lemma TrimSafe(a: seq<byte>)
    requires a != [] && TrimScan(a, 0, |a|).Stopped?
    ensures Trimmed(a, 0) != [] && Same(a, Trimmed(a, 0))
  {
    ScanStops(a, 0);
    TrimKeeps(a);
  }

  /**
   After an add to a table with room, every form of the address finds the new hardware address
   exactly when no earlier row has that address already; other addresses find what they did.
   */
  lemma AddAnswers(rows: seq<Row>, a: seq<byte>, h: Hw, b: seq<byte>)
    requires a != [] && InBuffer(Put(a, h)) && h.kind == Mac8023 && FirstFree(rows) < |rows|
    ensures var now := Answer(Added(rows, a, h), b);
            if !Same(a, b) then now == Answer(rows, b)
            else if Find(rows, a) < FirstFree(rows) then now == Answer(rows, a)
            else now == Some(h)
  {
    TrimSafe(a);
    var k, new_ := FirstFree(rows), Added(rows, a, h);
    var t := Trimmed(a, 0);
    assert Same(t, b) <==> Same(a, b) by {
      SameIsEquivalence(a, t, b);
      SameIsEquivalence(t, a, b);
    }
    assert forall i | 0 <= i < |rows| && i != k :: new_[i] == rows[i];
    if Same(a, b) {
      SameRows(rows, a, b);
      var f := Find(rows, b);
      FindIs(new_, b, if f < k then f else k);
    } else {
      FindIs(new_, b, Find(rows, b));
    }
  }

  /** An add fills the first row that is not in use, with the address less its trailing zeros, and no other. */
  lemma AddedRow(rows: seq<Row>, a: seq<byte>, h: Hw, k: nat)
    requires a != [] && InBuffer(Put(a, h)) && h.kind == Mac8023
    requires k < |rows| && !rows[k].valid && forall i | 0 <= i < k :: rows[i].valid
    ensures var now := Added(rows, a, h);
            && |now| == |rows| && now[..k] == rows[..k] && now[k + 1..] == rows[k + 1..]
            && now[k].valid && now[k].age == 1 && now[k].ha == Some(h) && now[k].pa.Some?
            && var p := now[k].pa.value;
               && p != [] && p[|p| - 1] != 0 && |p| <= |a| && a[..|p|] == p
               && forall i | |p| <= i < |a| :: a[i] == 0
  {
    assert FirstFree(rows) == k;
    ScanStops(a, 0);
    ScanFrom(a, 0, |a|);
  }

  /** A table without such a row stays as it is, and so does one that is given no address or no MAC address. */
  lemma NotAdded(rows: seq<Row>, a: seq<byte>, h: Hw)
    requires a == [] || h.kind != Mac8023 || forall i | 0 <= i < |rows| :: rows[i].valid
    ensures Added(rows, a, h) == rows
  {
  }

  /** After a remove every form of the address misses; other addresses find what they did. */
  lemma RemoveAnswers(rows: seq<Row>, a: seq<byte>, b: seq<byte>)
    requires a != []
    ensures Answer(RemoveAll(rows, a), b) == if Same(a, b) then None else Answer(rows, b)
  {
    var r := RemoveAll(rows, a);
    forall i | 0 <= i < |rows|
      ensures Matches(r[i], b) <==> Matches(rows[i], b) && !Same(a, b)
    {
      if Matches(rows[i], b) {
        SameIsEquivalence(rows[i].pa.value, a, b);
        SameIsEquivalence(a, rows[i].pa.value, b);
        SameIsEquivalence(rows[i].pa.value, b, a);
        SameIsEquivalence(b, a, b);
      }
    }
    FindIs(r, b, if Same(a, b) then |rows| else Find(rows, b));
  }

  // ---------------------------------------------------------------- runs against a dictionary

  datatype Op = Put(a: seq<byte>, h: Hw) | Drop(a: seq<byte>)

  type Dictionary = map<seq<byte>, Hw>

  /** What the table is for: one hardware address a key, in a table of `n`. */
  function Apply(m: Dictionary, n: nat, op: Op): Dictionary {
    match op
    case Put(a, h) => if a != [] && h.kind == Mac8023 && |m| < n then m[Key(a) := h] else m
    case Drop(a) => if a == [] then m else m - {Key(a)}
  }

  function Step(rows: seq<Row>, op: Op): (r: seq<Row>)
    ensures |r| == |rows|
  {
    match op
    case Put(a, h) => Added(rows, a, h)
    case Drop(a) => if a == [] then rows else RemoveAll(rows, a)
  }

  /** The copy of the address does not take the scan for fillers out of its buffer. */
  predicate InBuffer(op: Op) {
    op.Put? && op.a != [] ==> TrimScan(op.a, 0, |op.a|).Stopped?
  }

  /** And the address is not added while it is in the table. */
  predicate Allowed(m: Dictionary, op: Op) {
    InBuffer(op) && (op.Put? ==> Key(op.a) !in m)
  }

  function Count(rows: seq<Row>): nat {
    if rows == [] then 0 else (if rows[0].valid then 1 else 0) + Count(rows[1..])
  }

  function Lookups(m: Dictionary, b: seq<byte>): Option<Hw> {
    if Key(b) in m then Some(m[Key(b)]) else None
  }

  predicate Unique(rows: seq<Row>) {
    forall i, j | 0 <= i < j < |rows| && rows[i].valid && rows[j].pa.Some? :: !Matches(rows[i], rows[j].pa.value)
  }

  /** The table answers as the dictionary does, and has a row in use for each entry. */
  ghost predicate Refines(rows: seq<Row>, m: Dictionary) {
    && RowsOk(rows) && Unique(rows) && Count(rows) == |m|
    && forall b | b != [] :: Answer(rows, b) == Lookups(m, b)
  }

  lemma {:induction false} CountAt(rows: seq<Row>, k: nat, r: Row)
    requires k < |rows|
    ensures Count(rows[k := r]) == Count(rows) - (if rows[k].valid then 1 else 0) + (if r.valid then 1 else 0)
  {
    if k == 0 {
      assert rows[k := r][1..] == rows[1..];
    } else {
      CountAt(rows[1..], k - 1, r);
      assert rows[k := r][1..] == rows[1..][k - 1 := r];
    }
  }

  lemma {:induction false} FullIsCount(rows: seq<Row>)
    ensures Count(rows) <= |rows|
    ensures FirstFree(rows) < |rows| <==> Count(rows) < |rows|
  {
    if rows != [] {
      FullIsCount(rows[1..]);
    }
  }

  /** No two rows match, so a remove clears one row at most. */
  lemma RemoveIsOne(rows: seq<Row>, a: seq<byte>)
    requires RowsOk(rows) && Unique(rows)
    ensures var k := Find(rows, a); RemoveAll(rows, a) == if k < |rows| then rows[k := FREE] else rows
  {
    var k := Find(rows, a);
    forall i | k < i < |rows|
      ensures !Matches(rows[i], a)
    {
      if Matches(rows[i], a) {
        assert !Matches(rows[k], rows[i].pa.value);
        SameIsEquivalence(rows[k].pa.value, a, rows[i].pa.value);
        SameIsEquivalence(rows[i].pa.value, a, a);
        assert false;
      }
    }
  }

  lemma PutRefines(rows: seq<Row>, m: Dictionary, a: seq<byte>, h: Hw)
    requires Refines(rows, m) && Allowed(m, Put(a, h))
    ensures Refines(Added(rows, a, h), Apply(m, |rows|, Put(a, h)))
  {
    var k, now := FirstFree(rows), Added(rows, a, h);
    FullIsCount(rows);
    if a != [] && h.kind == Mac8023 && k < |rows| {
      TrimSafe(a);
      var t := Trimmed(a, 0);
      CountAt(rows, k, Used(t, h));
      assert Answer(rows, a) == None;
      NotThere(rows, a);
      forall i, j | 0 <= i < j < |rows| && now[i].valid && now[j].pa.Some?
        ensures !Matches(now[i], now[j].pa.value)
      {
        if i == k {
          assert !Matches(rows[j], a) && RowOk(rows[j]);
        } else {
          assert !Matches(rows[i], a);
        }
      }
      forall b | b != []
        ensures Answer(now, b) == Lookups(m[Key(a) := h], b)
      {
        AddAnswers(rows, a, h, b);
      }
    }
  }

  lemma NotThere(rows: seq<Row>, a: seq<byte>)
    requires RowsOk(rows) && Answer(rows, a) == None
    ensures forall i | 0 <= i < |rows| :: !Matches(rows[i], a)
  {
    assert forall i | 0 <= i < |rows| && rows[i].valid :: RowOk(rows[i]) && rows[i].ha.Some?;
    assert Find(rows, a) == |rows|;
  }

  lemma DropRefines(rows: seq<Row>, m: Dictionary, a: seq<byte>)
    requires Refines(rows, m) && a != []
    ensures Refines(RemoveAll(rows, a), m - {Key(a)})
  {
    DropCount(rows, m, a);
    forall b | b != []
      ensures Answer(RemoveAll(rows, a), b) == Lookups(m - {Key(a)}, b)
    {
      RemoveAnswers(rows, a, b);
    }
  }

  lemma DropCount(rows: seq<Row>, m: Dictionary, a: seq<byte>)
    requires RowsOk(rows) && Unique(rows) && Count(rows) == |m| && Answer(rows, a) == Lookups(m, a)
    ensures Count(RemoveAll(rows, a)) == |m - {Key(a)}|
  {
    hide Key, Same;
    var k := Find(rows, a);
    RemoveIsOne(rows, a);
    if k < |rows| {
      assert RowOk(rows[k]);
      CountAt(rows, k, FREE);
      SizeLess(m, Key(a));
    } else {
      assert m - {Key(a)} == m;
    }
  }

  lemma SizeLess(m: Dictionary, key: seq<byte>)
    requires key in m
    ensures |m - {key}| == |m| - 1
  {
    assert m == (m - {key})[key := m[key]];
  }

  lemma StepRefines(rows: seq<Row>, m: Dictionary, op: Op)
    requires Refines(rows, m) && Allowed(m, op)
    ensures Refines(Step(rows, op), Apply(m, |rows|, op))
  {
    hide Refines, Key;
    match op
    case Put(a, h) => PutRefines(rows, m, a, h);
    case Drop(a) =>
      if a != [] {
        DropRefines(rows, m, a);
      }
  }

  // ---------------------------------------------------------------- whole runs

  function Run(rows: seq<Row>, ops: seq<Op>): (r: seq<Row>)
    ensures |r| == |rows|
    decreases |ops|
  {
    if ops == [] then rows else Run(Step(rows, ops[0]), ops[1..])
  }

  function RunAll(m: Dictionary, n: nat, ops: seq<Op>): Dictionary
    decreases |ops|
  {
    if ops == [] then m else RunAll(Apply(m, n, ops[0]), n, ops[1..])
  }

  predicate AllowedAll(m: Dictionary, n: nat, ops: seq<Op>)
    decreases |ops|
  {
    ops == [] || (Allowed(m, ops[0]) && AllowedAll(Apply(m, n, ops[0]), n, ops[1..]))
  }

  /** Over every run the table answers as a dictionary of at most as many entries as it has rows. */
  lemma {:induction false} RunRefines(rows: seq<Row>, m: Dictionary, ops: seq<Op>)
    requires Refines(rows, m) && AllowedAll(m, |rows|, ops)
    ensures Refines(Run(rows, ops), RunAll(m, |rows|, ops))
    decreases |ops|
  {
    hide Refines, Allowed, Step, Apply;
    if ops != [] {
      StepRefines(rows, m, ops[0]);
      RunRefines(Step(rows, ops[0]), Apply(m, |rows|, ops[0]), ops[1..]);
    }
  }

  lemma {:induction false} EmptyRefines(n: nat)
    ensures Refines(seq(n, _ => FREE), map[])
  {
    var rows := seq(n, _ => FREE);
    assert forall i | 0 <= i < n :: rows[i] == FREE;
    NoneUsed(rows);
    forall b | b != []
      ensures Answer(rows, b) == None
    {
      FindIs(rows, b, n);
    }
  }

  lemma {:induction false} NoneUsed(rows: seq<Row>)
    requires forall i | 0 <= i < |rows| :: rows[i] == FREE
    ensures Count(rows) == 0
  {
    if rows != [] {
      NoneUsed(rows[1..]);
    }
  }

  // ---------------------------------------------------------------- every run

  /** What a row is good for: a key and its hardware address, or nothing. */
  datatype Entry = Entry(key: seq<byte>, ha: Hw)

  function EntryOf(r: Row): Option<Entry> {
    if r.valid && r.pa.Some? && r.ha.Some? then Some(Entry(Key(r.pa.value), r.ha.value)) else None
  }

  function Entries(rows: seq<Row>): (es: seq<Option<Entry>>)
    ensures |es| == |rows| && forall i | 0 <= i < |rows| :: es[i] == EntryOf(rows[i])
  {
    seq(|rows|, i requires 0 <= i < |rows| => EntryOf(rows[i]))
  }

  function FirstNone(es: seq<Option<Entry>>): (k: nat)
    ensures k <= |es| && (k < |es| ==> es[k] == None)
    ensures forall i | 0 <= i < k :: es[i].Some?
  {
    if es == [] || es[0] == None then 0 else 1 + FirstNone(es[1..])
  }

  /** The table by entries: a new one goes to the first gap, and all of a key go together. */
  function StepEntries(es: seq<Option<Entry>>, op: Op): (r: seq<Option<Entry>>)
    ensures |r| == |es|
  {
    match op
    case Put(a, h) =>
      var k := FirstNone(es);
      if a != [] && h.kind == Mac8023 && k < |es| then es[k := Some(Entry(Key(a), h))] else es
    case Drop(a) =>
      if a == [] then es
      else seq(|es|, i requires 0 <= i < |es| => if es[i].Some? && es[i].value.key == Key(a) then None else es[i])
  }

  function RunEntries(es: seq<Option<Entry>>, ops: seq<Op>): seq<Option<Entry>>
    decreases |ops|
  {
    if ops == [] then es else RunEntries(StepEntries(es, ops[0]), ops[1..])
  }

  /** The earliest entry of a key answers. */
  function EntryAnswer(es: seq<Option<Entry>>, key: seq<byte>): Option<Hw> {
    if es == [] then None
    else if es[0].Some? && es[0].value.key == key then Some(es[0].value.ha)
    else EntryAnswer(es[1..], key)
  }

  lemma {:induction false} AnswersAsEntries(rows: seq<Row>, b: seq<byte>)
    requires RowsOk(rows) && b != []
    ensures Answer(rows, b) == EntryAnswer(Entries(rows), Key(b))
  {
    if rows != [] {
      assert RowOk(rows[0]);
      AnswersAsEntries(rows[1..], b);
      assert Entries(rows)[1..] == Entries(rows[1..]);
    }
  }

  lemma FirstGap(rows: seq<Row>)
    requires RowsOk(rows)
    ensures FirstNone(Entries(rows)) == FirstFree(rows)
  {
    forall i | 0 <= i < |rows|
      ensures Entries(rows)[i].Some? <==> rows[i].valid
    {
      assert RowOk(rows[i]);
    }
  }

  lemma StepAsEntries(rows: seq<Row>, op: Op)
    requires RowsOk(rows) && InBuffer(op)
    ensures RowsOk(Step(rows, op)) && Entries(Step(rows, op)) == StepEntries(Entries(rows), op)
  {
    match op
    case Put(a, h) =>
      FirstGap(rows);
      if a != [] {
        TrimSafe(a);
      }
    case Drop(a) =>
      forall i | 0 <= i < |rows|
        ensures a != [] ==> (Matches(rows[i], a) <==> EntryOf(rows[i]).Some? && EntryOf(rows[i]).value.key == Key(a))
      {
        assert RowOk(rows[i]);
      }
  }

  /**
   Over every run, adds of addresses that are there already included, the table does what the list
   of entries does, and answers as it does.
   */
  lemma {:induction false} RunAsEntries(rows: seq<Row>, ops: seq<Op>)
    requires RowsOk(rows) && forall op | op in ops :: InBuffer(op)
    ensures RowsOk(Run(rows, ops)) && Entries(Run(rows, ops)) == RunEntries(Entries(rows), ops)
    ensures forall b | b != [] :: Answer(Run(rows, ops), b) == EntryAnswer(RunEntries(Entries(rows), ops), Key(b))
    decreases |ops|
  {
    if ops == [] {
      forall b | b != []
        ensures Answer(rows, b) == EntryAnswer(Entries(rows), Key(b))
      {
        AnswersAsEntries(rows, b);
      }
    } else {
      StepAsEntries(rows, ops[0]);
      RunAsEntries(Step(rows, ops[0]), ops[1..]);
    }
  }

  // ---------------------------------------------------------------- handles

  /** What an add answers, and the caller takes for the handle of the row. */
  function AddHandle(rows: seq<Row>, a: seq<byte>, h: Hw): int {
    if a == [] || h.kind != Mac8023 then -1 else if FirstFree(rows) < |rows| then 1 else 0
  }

  /** Clears the row of that number; `None` when that is memory in front of the table. */
  function RemoveAt(rows: seq<Row>, handle: int): Option<seq<Row>> {
    if handle >= |rows| then Some(rows) else if handle < 0 then None else Some(rows[handle := FREE])
  }

  /**
   Removing by what an add answered takes the add back exactly when the copies could be made and
   the row was row 1, or there are no rows at all. After a failed copy it leaves the table.
   */
  lemma HandleIsRowOne(rows: seq<Row>, a: seq<byte>, h: Hw)
    requires RowsOk(rows)
    ensures var r := RemoveAt(Added(rows, a, h), AddHandle(rows, a, h));
            && (r == None <==> a == [] || h.kind != Mac8023)
            && (r == Some(rows) <==> a != [] && h.kind == Mac8023 && (rows == [] || FirstFree(rows) == 1 < |rows|))
  {
    if a != [] && h.kind == Mac8023 && rows != [] {
      HandleOfCopied(rows, a, h);
    }
  }

  lemma HandleOfCopied(rows: seq<Row>, a: seq<byte>, h: Hw)
    requires RowsOk(rows) && a != [] && h.kind == Mac8023 && rows != []
    ensures var r := RemoveAt(Added(rows, a, h), AddHandle(rows, a, h));
            r.Some? && (r.value == rows <==> FirstFree(rows) == 1 < |rows|)
  {
    var k, row := FirstFree(rows), Used(Trimmed(a, 0), h);
    hide Trimmed;
    if k == |rows| {
      assert rows[0 := FREE][0] != rows[0];
    } else {
      assert RowOk(rows[k]) && rows[k] == FREE;
      var now := rows[k := row];
      if k == 1 {
        assert now[1 := FREE] == rows;
      } else if |rows| == 1 {
        assert now[k] != rows[k];
      } else {
        assert now[1 := FREE][k] == row != rows[k];
      }
    }
  }

  // ---------------------------------------------------------------- the table

  class Cache {
    const rows: array<Row>

    ghost predicate Valid()
      reads rows
    {
      RowsOk(rows[..])
    }

    constructor (n: nat)
      ensures Valid() && fresh(rows) && rows[..] == seq(n, _ => FREE)
    {
      rows := new Row[n](_ => FREE);
    }

    /** `inside` is false when copying the address went out of its buffer; nothing is said of the rest then. */
    method Add(a: Gpa?, h: Hw) returns (handle: int, inside: bool)
      requires Valid() && (a != null ==> a.Valid())
      modifies rows
      ensures Valid()
      ensures inside <==> (a != null && a.IsOk() ==> InBuffer(Put(a.Bytes(), h)))
      ensures a == null || !a.IsOk() ==> handle == -1 && rows[..] == old(rows[..])
      ensures inside && a != null && a.IsOk() ==>
                && handle == AddHandle(old(rows[..]), a.Bytes(), h)
                && (handle == -1 <==> h.kind != Mac8023)
                && (handle == 1 <==> h.kind == Mac8023 && exists i :: 0 <= i < rows.Length && !old(rows[i]).valid)
                && (handle == 0 <==> h.kind == Mac8023 && forall i | 0 <= i < rows.Length :: old(rows[i]).valid)
                && rows[..] == Added(old(rows[..]), a.Bytes(), h)
    {
      if a == null {
        return -1, true;
      }
      var copy;
      copy, inside := a.Dup(true, 0);
      if copy == null {
        return -1, inside;
      }
      if h.kind != Mac8023 {
        return -1, true;
      }
      TrimSafe(a.Bytes());
      for i := 0 to rows.Length
        invariant rows[..] == old(rows[..])
        invariant forall k | 0 <= k < i :: rows[k].valid
      {
        if !rows[i].valid {
          assert FirstFree(rows[..]) == i;
          rows[i] := Used(copy.address[..copy.length], h);
          return 1, true;
        }
      }
      assert FirstFree(rows[..]) == rows.Length;
      handle := 0;
    }

    /** Clears every row for the address. */
    method Remove(a: Gpa?) returns (ok: bool)
      requires Valid() && (a != null ==> a.Valid())
      modifies rows
      ensures Valid() && ok == (a != null && a.IsOk())
      ensures rows[..] == if ok then RemoveAll(old(rows[..]), a.Bytes()) else old(rows[..])
    {
      if a == null || !a.IsOk() {
        return false;
      }
      for i := 0 to rows.Length
        invariant forall k | 0 <= k < i :: rows[k] == if Matches(old(rows[k]), a.Bytes()) then FREE else old(rows[k])
        invariant forall k | i <= k < rows.Length :: rows[k] == old(rows[k])
      {
        if rows[i].valid {
          var same := CmpRow(rows[i].pa, a);
          if same {
            rows[i] := FREE;
          }
        }
      }
      ok := true;
    }

    /** `inside` is false when the row to clear would lie in front of the table. */
    method RemoveHandle(handle: int) returns (inside: bool)
      requires Valid()
      modifies rows
      ensures Valid() && inside == RemoveAt(old(rows[..]), handle).Some?
      ensures rows[..] == if inside then RemoveAt(old(rows[..]), handle).value else old(rows[..])
      ensures inside <==> handle >= 0
      ensures rows[..] == if 0 <= handle < rows.Length then old(rows[..])[handle := FREE] else old(rows[..])
    {
      inside := true;
      if handle < rows.Length {
        if handle < 0 {
          return false;
        }
        rows[handle] := FREE;
      }
    }

    /** Never `CantSendPacket`: no row waits for an answer. */
    method LookupGpa(a: Gpa?) returns (result: Lookup, ha: Option<Hw>)
      requires Valid() && (a != null ==> a.Valid())
      ensures a != null && a.IsOk() ==> ha == Answer(rows[..], a.Bytes())
      ensures a == null || !a.IsOk() ==> ha == None
      ensures result == if ha == None then Miss else Hit
    {
      for x := 0 to rows.Length
        invariant a != null && a.IsOk() ==> forall k | 0 <= k < x :: !Matches(rows[k], a.Bytes())
      {
        if rows[x].age != 0 {
          var same := CmpRow(rows[x].pa, a);
          if same {
            assert RowOk(rows[x]);
            FindIs(rows[..], a.Bytes(), x);
            if !rows[x].valid {
              assert false;
            }
            return Hit, rows[x].ha;
          }
        }
      }
      if a != null && a.IsOk() {
        FindIs(rows[..], a.Bytes(), rows.Length);
      }
      return Miss, None;
    }

    method LookupGha(a: Gpa?) returns (ha: Option<Hw>)
      requires Valid() && (a != null ==> a.Valid())
      ensures ha == if a != null && a.IsOk() then Answer(rows[..], a.Bytes()) else None
    {
      if a == null || !a.IsOk() {
        return None;
      }
      for x := 0 to rows.Length
        invariant forall k | 0 <= k < x :: !Matches(rows[k], a.Bytes())
      {
        if rows[x].age > 0 {
          var same := CmpRow(rows[x].pa, a);
          if same {
            FindIs(rows[..], a.Bytes(), x);
            return rows[x].ha;
          }
        }
      }
      FindIs(rows[..], a.Bytes(), rows.Length);
      ha := None;
    }
  }

  /** Compares a row's copy with an address. */
  method CmpRow(pa: Option<seq<byte>>, a: Gpa?) returns (same: bool)
    requires a != null ==> a.Valid()
    ensures same <==> pa.Some? && a != null && a.IsOk() && Same(pa.value, a.Bytes())
  {
    if pa.None? {
      return false;
    }
    var copy := new byte[|pa.value|](i requires 0 <= i < |pa.value| => pa.value[i]);
    assert copy[..] == pa.value;
    var g := new Gpa(copy, |pa.value|);
    assert g.Bytes() == pa.value;
    same := Cmp(g, a);
  }
}
