/** Application names: four parts, and their text. */
module Names {
  import opened Prelude

  const DELIMITER: char := '/'
  const NUL: char := '\0'

  datatype Parts = Parts(process: string, processInstance: string, entity: string, entityInstance: string)

  /** Where the scan from `i` stops: at a delimiter, or at the end. */
  function Stop(s: string, i: nat): (k: nat)
    requires i <= |s|
    ensures i <= k <= |s|
    ensures k < |s| ==> s[k] == DELIMITER
    ensures forall j | i <= j < k :: s[j] != DELIMITER
    decreases |s| - i
  {
    if i == |s| || s[i] == DELIMITER then i else Stop(s, i + 1)
  }

  function Print(p: Parts): string {
    p.process + [DELIMITER] + p.processInstance + [DELIMITER] + p.entity + [DELIMITER] + p.entityInstance
  }

  function First(s: string): (k: nat)
    ensures k <= |s|
  {
    Stop(s, 0)
  }

  function Second(s: string): (k: nat)
    requires First(s) < |s|
    ensures First(s) < k <= |s|
  {
    Stop(s, First(s) + 1)
  }

  function Third(s: string): (k: nat)
    requires First(s) < |s| && Second(s) < |s|
    ensures Second(s) < k <= |s|
  {
    Stop(s, Second(s) + 1)
  }

  /** The first three parts end at a delimiter; the last delimiter may be missing. */
  function Parse(s: string): (r: Option<Parts>)
    ensures r.Some? <==> First(s) < |s| && Second(s) < |s|
  {
    if First(s) == |s| then None
    else if Second(s) == |s| then None
    else Some(Parts(s[..First(s)], s[First(s) + 1..Second(s)], s[Second(s) + 1..Third(s)],
                    if Third(s) < |s| then s[Third(s) + 1..] else ""))
  }

  function Delimiters(s: string): nat {
    if s == [] then 0 else (if s[0] == DELIMITER then 1 else 0) + Delimiters(s[1..])
  }

  predicate Plain(s: string) {
    DELIMITER !in s
  }

  // ---------------------------------------------------------------- laws of the text

  lemma {:induction false} DelimitersJoin(s: string, t: string)
    ensures Delimiters(s + t) == Delimiters(s) + Delimiters(t)
  {
    if s == [] {
      assert s + t == t;
    } else {
      DelimitersJoin(s[1..], t);
      assert (s + t)[1..] == s[1..] + t;
    }
  }

  lemma {:induction false} PlainHasNone(s: string)
    ensures Plain(s) <==> Delimiters(s) == 0
  {
    if s != [] {
      PlainHasNone(s[1..]);
      assert s == [s[0]] + s[1..];
    }
  }

  function DelimitersFrom(s: string, i: nat): nat
    requires i <= |s|
  {
    Delimiters(s[i..])
  }

  /** The rest of the text from `i` is what comes before the next delimiter, and what follows. */
  lemma RestCount(s: string, i: nat)
    requires i <= |s|
    ensures var k := Stop(s, i); DelimitersFrom(s, i) == if k == |s| then 0 else 1 + DelimitersFrom(s, k + 1)
  {
    var k := Stop(s, i);
    PlainHasNone(s[i..k]);
    if k < |s| {
      assert s[i..] == s[i..k] + s[k..];
      DelimitersJoin(s[i..k], s[k..]);
      assert s[k..][1..] == s[k + 1..];
    } else {
      assert s[i..] == s[i..k];
    }
  }

  lemma CountFirst(s: string)
    ensures Delimiters(s) == if First(s) == |s| then 0 else 1 + DelimitersFrom(s, First(s) + 1)
  {
    assert s[0..] == s;
    RestCount(s, 0);
  }

  /** A text is a name exactly when it has two delimiters or more. */
  lemma ParsesIffTwo(s: string)
    ensures Parse(s).Some? <==> Delimiters(s) >= 2
    ensures Parse(s).Some? ==> (Delimiters(s) == 2 <==> Third(s) == |s|)
  {
    hide Delimiters, DelimitersFrom, Stop, Parse;
    CountFirst(s);
    if First(s) < |s| {
      RestCount(s, First(s) + 1);
      if Second(s) < |s| {
        RestCount(s, Second(s) + 1);
      }
    }
  }

  lemma SplitAt(s: string, i: nat, k: nat)
    requires i <= k < |s| && s[k] == DELIMITER
    ensures s[i..] == s[i..k] + [DELIMITER] + s[k + 1..]
  {
  }

  lemma PrintCut(s: string, a: nat, b: nat, c: nat)
    requires a < b < |s| && b < c <= |s| && s[a] == s[b] == DELIMITER && (c < |s| ==> s[c] == DELIMITER)
    ensures Print(Parts(s[..a], s[a + 1..b], s[b + 1..c], if c < |s| then s[c + 1..] else ""))
            == if c == |s| then s + [DELIMITER] else s
  {
    hide Print;
    var p := Parts(s[..a], s[a + 1..b], s[b + 1..c], if c < |s| then s[c + 1..] else "");
    SplitAt(s, a + 1, b);
    assert s == s[..a] + [DELIMITER] + s[a + 1..];
    if c < |s| {
      SplitAt(s, b + 1, c);
      assert s[b + 1..] + [] == s[b + 1..] && s + [] == s;
      Join(p, s, s[a + 1..], s[b + 1..], []);
    } else {
      assert s[b + 1..] + [DELIMITER] == s[b + 1..c] + [DELIMITER] + "";
      Join(p, s, s[a + 1..], s[b + 1..], [DELIMITER]);
    }
  }

  /** Printing part by part what was parsed gives back the text, with the last delimiter if it was missing. */
  lemma PrintParsed(s: string)
    requires Parse(s).Some?
    ensures Print(Parse(s).value) == if Delimiters(s) == 2 then s + [DELIMITER] else s
  {
    hide Delimiters, Print;
    ParsesIffTwo(s);
    PrintCut(s, First(s), Second(s), Third(s));
  }

  lemma Join(p: Parts, s: string, t: string, u: string, last: string)
    requires s == p.process + [DELIMITER] + t
    requires t == p.processInstance + [DELIMITER] + u
    requires u + last == p.entity + [DELIMITER] + p.entityInstance
    ensures Print(p) == s + last
  {
    assert t + last == p.processInstance + [DELIMITER] + (u + last);
    assert s + last == p.process + [DELIMITER] + (t + last);
  }

  lemma StopAfter(x: string, t: string, y: string)
    requires Plain(t)
    ensures Stop(x + t + [DELIMITER] + y, |x|) == |x| + |t|
  {
    var s := x + t + [DELIMITER] + y;
    assert s[|x| + |t|] == DELIMITER;
    forall j | |x| <= j < |x| + |t|
      ensures s[j] != DELIMITER
    {
      assert s[j] == t[j - |x|];
    }
  }

  lemma PrintedStops(p: Parts)
    requires Plain(p.process) && Plain(p.processInstance) && Plain(p.entity)
    ensures var s := Print(p);
            && First(s) == |p.process| < |s|
            && Second(s) == |p.process| + 1 + |p.processInstance| < |s|
            && Third(s) == |p.process| + 1 + |p.processInstance| + 1 + |p.entity| < |s|
  {
    hide Stop, Plain;
    var s := Print(p);
    var u := p.process + [DELIMITER];
    var v := u + p.processInstance + [DELIMITER];
    var z := p.entity + [DELIMITER] + p.entityInstance;
    var y := p.processInstance + [DELIMITER] + z;
    assert s == [] + p.process + [DELIMITER] + y;
    StopAfter([], p.process, y);
    assert s == u + p.processInstance + [DELIMITER] + z;
    StopAfter(u, p.processInstance, z);
    assert s == v + p.entity + [DELIMITER] + p.entityInstance;
    StopAfter(v, p.entity, p.entityInstance);
  }

  /** Parsing printed parts gives them back exactly when no delimiter is in the first three. */
  lemma ParsePrinted(p: Parts)
    ensures Parse(Print(p)) == Some(p) <==> Plain(p.process) && Plain(p.processInstance) && Plain(p.entity)
  {
    hide Stop, Plain;
    var s := Print(p);
    if Plain(p.process) && Plain(p.processInstance) && Plain(p.entity) {
      PrintedStops(p);
      var q := Parse(s).value;
      assert q.process == p.process;
      assert q.processInstance == p.processInstance;
      assert q.entity == p.entity;
      assert q.entityInstance == p.entityInstance;
    } else if Parse(s).Some? {
      ParsedPlain(s);
    }
  }

  lemma ParsedPlain(s: string)
    requires Parse(s).Some?
    ensures var p := Parse(s).value; Plain(p.process) && Plain(p.processInstance) && Plain(p.entity)
  {
  }

  // ---------------------------------------------------------------- strings in memory

  predicate Terminated(m: seq<char>, i: nat) {
    exists k | i <= k < |m| :: m[k] == NUL
  }

  /** Where the string that starts at `i` ends. */
  function End(m: seq<char>, i: nat): (k: nat)
    requires Terminated(m, i)
    ensures i <= k < |m| && m[k] == NUL
    ensures forall j | i <= j < k :: m[j] != NUL
    decreases |m| - i
  {
    if m[i] == NUL then i else End(m, i + 1)
  }

  function TextAt(m: seq<char>, i: nat): string
    requires Terminated(m, i)
  {
    m[i..End(m, i)]
  }

  predicate NoNul(s: string) {
    NUL !in s
  }

  lemma TextIs(m: seq<char>, i: nat, t: string)
    requires NoNul(t) && i + |t| < |m| && m[i..i + |t|] == t && m[i + |t|] == NUL
    ensures Terminated(m, i) && TextAt(m, i) == t
  {
    forall j | i <= j < i + |t|
      ensures m[j] != NUL
    {
      assert m[j] == m[i..i + |t|][j - i];
    }
  }

  /** What breaking down leaves of the text: each delimiter that ended a part is overwritten. */
  function Broken(s: string): (m: seq<char>)
    requires Parse(s).Some?
    ensures |m| == |s| + 1
  {
    (s + [NUL])[First(s) := NUL][Second(s) := NUL][Third(s) := NUL]
  }

  /** Where the parts start. */
  function Starts(s: string): (nat, nat, nat, nat)
    requires Parse(s).Some?
  {
    (0, First(s) + 1, Second(s) + 1, if Third(s) < |s| then Third(s) + 1 else Third(s))
  }

  lemma BrokenHolds(s: string)
    requires Parse(s).Some? && NoNul(s)
    ensures var (m, at, p) := (Broken(s), Starts(s), Parse(s).value);
            && Terminated(m, at.0) && TextAt(m, at.0) == p.process
            && Terminated(m, at.1) && TextAt(m, at.1) == p.processInstance
            && Terminated(m, at.2) && TextAt(m, at.2) == p.entity
            && Terminated(m, at.3) && TextAt(m, at.3) == p.entityInstance
  {
    hide Stop, TextAt, Terminated;
    var (m, at, p) := (Broken(s), Starts(s), Parse(s).value);
    TextIs(m, at.0, p.process);
    TextIs(m, at.1, p.processInstance);
    TextIs(m, at.2, p.entity);
    TextIs(m, at.3, p.entityInstance);
  }

  function Relabel(m: seq<char>): (r: string)
    ensures |r| == |m|
    ensures forall k | 0 <= k < |m| :: r[k] == if m[k] == NUL then DELIMITER else m[k]
  {
    seq(|m|, k requires 0 <= k < |m| => if m[k] == NUL then DELIMITER else m[k])
  }

  /** Putting delimiters back over the gaps gives the text again. */
  lemma Mended(s: string)
    requires Parse(s).Some? && NoNul(s)
    ensures Relabel(Broken(s)[..|s|]) == s
  {
    var r := Relabel(Broken(s)[..|s|]);
    forall k | 0 <= k < |s|
      ensures r[k] == s[k]
    {
      assert s[k] in s;
    }
  }

  // ---------------------------------------------------------------- names

  /** A pointer to a string. */
  datatype Ptr = Ptr(mem: array<char>, at: nat)

  ghost predicate Points(p: Ptr)
    reads p.mem
  {
    Terminated(p.mem[..], p.at)
  }

  ghost function Text(p: Ptr): string
    reads p.mem
    requires Points(p)
  {
    TextAt(p.mem[..], p.at)
  }

  /** The length of the string. */
  method StrLen(p: Ptr) returns (n: nat)
    requires Points(p)
    ensures n == |Text(p)| && p.at + n < p.mem.Length
  {
    n := 0;
    while p.mem[p.at + n] != NUL
      invariant p.at + n <= End(p.mem[..], p.at)
      decreases End(p.mem[..], p.at) - p.at - n
    {
      n := n + 1;
    }
  }

  /** Copies `t` to `at` and terminates it; `next` is just behind. */
  method Put(mem: array<char>, at: nat, t: string) returns (next: nat)
    requires at + |t| < mem.Length
    modifies mem
    ensures next == at + |t| + 1
    ensures mem[at..at + |t|] == t && mem[at + |t|] == NUL
    ensures forall k | 0 <= k < at || next <= k < mem.Length :: mem[k] == old(mem[k])
  {
    var i := 0;
    while i < |t|
      invariant 0 <= i <= |t|
      invariant forall k | 0 <= k < i :: mem[at + k] == t[k]
      invariant forall k | 0 <= k < at || at + i <= k < mem.Length :: mem[k] == old(mem[k])
    {
      mem[at + i] := t[i];
      i := i + 1;
    }
    mem[at + i] := NUL;
    next := at + i + 1;
  }

  /** Where a scan for a delimiter stops in a string that may have been broken before `i`. */
  method Scan(data: array<char>, ghost s: string, i: nat) returns (c: nat)
    requires NoNul(s) && i <= |s| && data.Length == |s| + 1 && data[i..] == s[i..] + [NUL]
    ensures c == Stop(s, i)
  {
    c := i;
    while data[c] != DELIMITER && data[c] != NUL
      invariant i <= c <= |s| && Stop(s, i) == Stop(s, c)
      decreases |s| - c
    {
      assert data[i..][c - i] == data[c];
      c := c + 1;
    }
    assert data[i..][c - i] == data[c];
  }

  /** Ends the part that starts at `i` with a NUL; `found`: there was a delimiter. */
  method CutAt(data: array<char>, ghost s: string, i: nat) returns (c: nat, found: bool)
    requires NoNul(s) && i <= |s| && data.Length == |s| + 1 && data[i..] == s[i..] + [NUL]
    modifies data
    ensures c == Stop(s, i) && found == (c < |s|)
    ensures data[..] == old(data[..])[c := NUL]
    ensures found ==> data[c + 1..] == s[c + 1..] + [NUL]
  {
    c := Scan(data, s, i);
    assert data[i..][c - i] == data[c];
    assert c < |s| ==> s[c] in s;
    found := data[c] == DELIMITER;
    if found {
      assert forall k | c < k < data.Length :: data[k] == data[i..][k - i];
      data[c] := NUL;
    } else {
      assert data[..][c := NUL] == data[..];
    }
  }

  method MemCopy(dest: array<char>, p: Ptr)
    requires p.at + dest.Length <= p.mem.Length && p.mem != dest
    modifies dest
    ensures dest[..] == p.mem[p.at..p.at + dest.Length]
  {
    var k := 0;
    while k < dest.Length
      invariant 0 <= k <= dest.Length
      invariant dest[..k] == p.mem[p.at..p.at + k]
    {
      dest[k] := p.mem[p.at + k];
      k := k + 1;
    }
  }

  /** A delimiter wherever a part ends, except in the last place. */
  method PutDelimiters(dest: array<char>)
    requires dest.Length > 0
    modifies dest
    ensures dest[..] == Relabel(old(dest[..])[..dest.Length - 1]) + [old(dest[dest.Length - 1])]
  {
    var c := 0;
    while c < dest.Length - 1
      invariant 0 <= c <= dest.Length - 1
      invariant forall k | 0 <= k < c :: dest[k] == if old(dest[k]) == NUL then DELIMITER else old(dest[k])
      invariant forall k | c <= k < dest.Length :: dest[k] == old(dest[k])
    {
      if dest[c] == NUL {
        dest[c] := DELIMITER;
      }
      c := c + 1;
    }
  }

  /** Copies the first `n` characters. */
  method Copy(buf: array<char>, at: nat, p: Ptr, n: nat)
    requires Points(p) && p.mem != buf && n <= |Text(p)| && at + n <= buf.Length
    modifies buf
    ensures buf[..] == old(buf[..at]) + Text(p)[..n] + old(buf[at + n..])
  {
    var i := 0;
    while i < n
      invariant 0 <= i <= n
      invariant buf[..] == old(buf[..at]) + Text(p)[..i] + old(buf[at + i..])
    {
      assert p.mem[..][p.at + i] == Text(p)[i];
      buf[at + i] := p.mem[p.at + i];
      i := i + 1;
    }
  }

  /** One turn of the part-by-part print: at most `max` characters, and a delimiter or the end. */
  method CopyPart(buf: array<char>, at: nat, p: Ptr, max: nat, more: bool) returns (copy: nat)
    requires Points(p) && p.mem != buf && |Text(p)| <= max && at + |Text(p)| < buf.Length
    modifies buf
    ensures copy == |Text(p)|
    ensures buf[..] == old(buf[..])[..at] + Text(p) + [if more then DELIMITER else NUL] + old(buf[..])[at + copy + 1..]
  {
    var n := StrLen(p);
    copy := if n < max then n else max;
    Copy(buf, at, p, copy);
    assert Text(p)[..copy] == Text(p);
    buf[at + copy] := NUL;
    if more {
      buf[at + copy] := DELIMITER;
    }
  }

  // ---------------------------------------------------------------- parts laid out

  function PartList(p: Parts): seq<string> {
    [p.process, p.processInstance, p.entity, p.entityInstance]
  }

  /** The first `i` parts, each with what follows it. */
  function Joined(parts: seq<string>, i: nat): string
    requires i <= |parts| == 4
  {
    if i == 0 then [] else Joined(parts, i - 1) + parts[i - 1] + [if i < 4 then DELIMITER else NUL]
  }

  function Sum(parts: seq<string>, i: nat): nat
    requires i <= |parts|
  {
    if i == 0 then 0 else Sum(parts, i - 1) + |parts[i - 1]|
  }

  lemma {:induction false} JoinedLength(parts: seq<string>, i: nat)
    requires i <= |parts| == 4
    ensures |Joined(parts, i)| == Sum(parts, i) + i
    ensures Sum(parts, i) <= Sum(parts, 4) && (i < 4 ==> Sum(parts, i) + |parts[i]| <= Sum(parts, 4))
  {
    assert Sum(parts, 4) == Sum(parts, 3) + |parts[3]|;
    assert Sum(parts, 3) == Sum(parts, 2) + |parts[2]|;
    assert Sum(parts, 2) == Sum(parts, 1) + |parts[1]|;
    if i > 0 {
      JoinedLength(parts, i - 1);
    }
  }

  lemma JoinedIsPrinted(p: Parts)
    ensures Joined(PartList(p), 4) == Print(p) + [NUL]
  {
    var parts := PartList(p);
    assert Joined(parts, 1) == p.process + [DELIMITER];
    assert Joined(parts, 2) == Joined(parts, 1) + p.processInstance + [DELIMITER];
    assert Joined(parts, 3) == Joined(parts, 2) + p.entity + [DELIMITER];
    assert Joined(parts, 4) == Joined(parts, 3) + p.entityInstance + [NUL];
  }

  predicate AllNoNul(p: Parts) {
    NoNul(p.process) && NoNul(p.processInstance) && NoNul(p.entity) && NoNul(p.entityInstance)
  }

  function OrEmpty(t: Option<string>): string {
    if t.Some? then t.value else ""
  }

  function Given(a: Option<string>, b: Option<string>, c: Option<string>, d: Option<string>): Parts {
    Parts(OrEmpty(a), OrEmpty(b), OrEmpty(c), OrEmpty(d))
  }

  /** A missing part counts as one character. */
  function LengthOf(t: Option<string>): nat {
    if t.Some? then |t.value| else 1
  }

  /** The parts, one behind the other, each with its NUL. */
  predicate Laid(m: seq<char>, p: Parts) {
    |Print(p)| < |m| &&
    var b := |p.process| + 1;
    var c := b + |p.processInstance| + 1;
    var d := c + |p.entity| + 1;
    && m[0..b - 1] == p.process && m[b - 1] == NUL
    && m[b..c - 1] == p.processInstance && m[c - 1] == NUL
    && m[c..d - 1] == p.entity && m[d - 1] == NUL
    && m[d..d + |p.entityInstance|] == p.entityInstance && m[d + |p.entityInstance|] == NUL
  }

  lemma LaidOut(m: seq<char>, p: Parts)
    requires AllNoNul(p) && Laid(m, p)
    ensures Terminated(m, 0) && TextAt(m, 0) == p.process
    ensures var b := |p.process| + 1;
            var c := b + |p.processInstance| + 1;
            var d := c + |p.entity| + 1;
            && Terminated(m, b) && TextAt(m, b) == p.processInstance
            && Terminated(m, c) && TextAt(m, c) == p.entity
            && Terminated(m, d) && TextAt(m, d) == p.entityInstance
  {
    hide NoNul, Terminated, TextAt;
    var b := |p.process| + 1;
    var c := b + |p.processInstance| + 1;
    var d := c + |p.entity| + 1;
    TextIs(m, 0, p.process);
    TextIs(m, b, p.processInstance);
    TextIs(m, c, p.entity);
    TextIs(m, d, p.entityInstance);
  }

  /** Writes the parts one behind the other; the answers are where the last three start. */
  method PutParts(data: array<char>, p: Parts) returns (b: nat, c: nat, d: nat)
    requires |Print(p)| < data.Length
    modifies data
    ensures Laid(data[..], p)
    ensures b == |p.process| + 1 && c == b + |p.processInstance| + 1 && d == c + |p.entity| + 1
  {
    b := Put(data, 0, p.process);
    c := Put(data, b, p.processInstance);
    d := Put(data, c, p.entity);
    var end := Put(data, d, p.entityInstance);
  }

  method CopyOf(t: string) returns (data: array<char>)
    ensures fresh(data) && data[..] == t + [NUL]
  {
    data := new char[|t| + 1](_ => NUL);
    var next := Put(data, 0, t);
    assert data[0..|t|] == data[..|t|];
  }

  class Name {
    /** How many characters of text lie behind the structure; 0 when the parts are elsewhere. */
    var postLn: nat
    var process: Ptr
    var processInstance: Ptr
    var entity: Ptr
    var entityInstance: Ptr

    ghost predicate Valid()
      reads this, process.mem, processInstance.mem, entity.mem, entityInstance.mem
    {
      Points(process) && Points(processInstance) && Points(entity) && Points(entityInstance)
    }

    ghost function Value(): Parts
      reads this, process.mem, processInstance.mem, entity.mem, entityInstance.mem
      requires Valid()
    {
      Parts(Text(process), Text(processInstance), Text(entity), Text(entityInstance))
    }

    /** The pointers go into one text, broken down in place. */
    ghost predicate PointsInto(data: array<char>, s: string)
      reads this, data
    {
      && Parse(s).Some? && NoNul(s) && data[..] == Broken(s)
      && process == Ptr(data, Starts(s).0) && processInstance == Ptr(data, Starts(s).1)
      && entity == Ptr(data, Starts(s).2) && entityInstance == Ptr(data, Starts(s).3)
    }

    lemma Pointed(data: array<char>, s: string)
      requires PointsInto(data, s)
      ensures Valid() && Value() == Parse(s).value
    {
      BrokenHolds(s);
    }

    constructor ()
      ensures postLn == 0 && fresh(process.mem)
    {
      var none := new char[1](_ => NUL);
      process, processInstance, entity, entityInstance := Ptr(none, 0), Ptr(none, 0), Ptr(none, 0), Ptr(none, 0);
      postLn := 0;
    }

    ghost predicate Apart(buf: array<char>)
      reads this
    {
      buf != process.mem && buf != processInstance.mem && buf != entity.mem && buf != entityInstance.mem
    }

    /** Prints part by part into a buffer that is long enough. */
    method ToStringBuf(buf: array<char>, size: nat)
      requires Valid() && Apart(buf) && |Print(Value())| < size <= buf.Length
      modifies buf
      ensures buf[..] == Print(Value()) + [NUL] + old(buf[..])[|Print(Value())| + 1..]
    {
      hide Joined, Print, Sum, Points, Text, Written;
      var strings := [process, processInstance, entity, entityInstance];
      ghost var v, was := Value(), buf[..];
      ghost var parts := PartList(v);
      JoinedIsPrinted(v);
      JoinedLength(parts, 4);
      JoinedNone(parts, was);
      var max := size - 1;
      var px := 0;
      for i := 0 to 4
        invariant px == |Joined(parts, i)| == Sum(parts, i) + i <= buf.Length
        invariant max == size - 1 - Sum(parts, i)
        invariant Written(buf[..], parts, i, was)
        invariant forall k | 0 <= k < 4 :: Points(strings[k]) && strings[k].mem != buf && Text(strings[k]) == parts[k]
      {
        JoinedLength(parts, i);
        JoinedNext(parts, i);
        var copy := PrintPart(buf, px, strings[i], max, i, parts, was);
        px := px + copy + 1;
        max := max - copy;
        if max == 0 {
          assert false;
        }
      }
      WrittenAll(buf[..], v, was);
    }

    /** Finds the parts in `data` and ends each with a NUL; `false` when a delimiter is missing. */
    method Breakdown(data: array<char>, ghost s: string) returns (ok: bool)
      requires NoNul(s) && data[..] == s + [NUL]
      modifies this, data
      ensures ok == Parse(s).Some? && postLn == old(postLn)
      ensures ok ==> PointsInto(data, s)
    {
      hide Stop, NoNul;
      process := Ptr(data, 0);
      assert data[0..] == s[0..] + [NUL];
      var c, found := CutAt(data, s, 0);
      if !found {
        return false;
      }
      processInstance := Ptr(data, c + 1);
      c, found := CutAt(data, s, c + 1);
      if !found {
        return false;
      }
      entity := Ptr(data, c + 1);
      c, found := CutAt(data, s, c + 1);
      entityInstance := Ptr(data, if found then c + 1 else c);
      ok := true;
    }

    /** `false`: too few delimiters. */
    method AssignFromString(t: string) returns (ok: bool)
      requires NoNul(t)
      modifies this
      ensures ok == Parse(t).Some?
      ensures ok ==> Valid() && Value() == Parse(t).value && fresh(process.mem)
      ensures ok ==> postLn == 0 && PointsInto(process.mem, t)
    {
      var data := CopyOf(t);
      postLn := 0;
      ok := Breakdown(data, t);
      if ok {
        Pointed(data, t);
      }
    }

    /** Copies the parts one behind the other, each with its NUL. */
    method CopyAssignParts(data: array<char>, p: Parts)
      requires AllNoNul(p) && |Print(p)| < data.Length
      modifies this, data
      ensures Valid() && Value() == p && postLn == old(postLn)
      ensures process == Ptr(data, 0)
      ensures process.mem == processInstance.mem == entity.mem == entityInstance.mem
    {
      hide NoNul, Terminated, TextAt, Laid;
      var b, c, d := PutParts(data, p);
      process, processInstance, entity, entityInstance := Ptr(data, 0), Ptr(data, b), Ptr(data, c), Ptr(data, d);
      LaidOut(data[..], p);
    }

    /** A missing part is taken as empty. */
    method AssignFromPartsDup(a: Option<string>, b: Option<string>, c: Option<string>, d: Option<string>)
      requires AllNoNul(Given(a, b, c, d))
      modifies this
      ensures Valid() && Value() == Given(a, b, c, d) && postLn == 0 && fresh(process.mem)
      ensures Value().process == (if a.Some? then a.value else "")
      ensures Value().processInstance == (if b.Some? then b.value else "")
      ensures Value().entity == (if c.Some? then c.value else "")
      ensures Value().entityInstance == (if d.Some? then d.value else "")
    {
      var len := LengthOf(a) + LengthOf(b) + LengthOf(c) + LengthOf(d);
      var data := new char[len + 4 + 1](_ => NUL);
      CopyAssignParts(data, Given(a, b, c, d));
      postLn := 0;
    }

    /** The text, part by part, in new memory. */
    method PrintParts() returns (dest: array<char>)
      requires Valid()
      ensures fresh(dest) && dest[..] == Print(Value()) + [NUL]
    {
      var n0 := StrLen(process);
      var n1 := StrLen(processInstance);
      var n2 := StrLen(entity);
      var n3 := StrLen(entityInstance);
      var len := n0 + n1 + n2 + n3 + 4;
      dest := new char[len](_ => NUL);
      ToStringBuf(dest, len);
    }

    /** The text, in new memory: from what lies behind the structure, if anything does. */
    method ToString() returns (dest: array<char>)
      requires Valid() && process.at + postLn < process.mem.Length
      ensures fresh(dest)
      ensures postLn == 0 ==> dest[..] == Print(Value()) + [NUL]
      ensures forall s | PointsInto(process.mem, s) && postLn == |s| :: dest[..] == s + [NUL]
      ensures postLn > 0 ==>
                dest[..] == Relabel(process.mem[process.at..process.at + postLn]) + [process.mem[process.at + postLn]]
    {
      hide Broken, Starts, Print, Points, Text, NoNul, Parse;
      if postLn == 0 {
        dest := PrintParts();
      } else {
        dest := new char[postLn + 1](_ => NUL);
        MemCopy(dest, process);
        PutDelimiters(dest);
      }
      forall s | PointsInto(process.mem, s) && postLn == |s|
        ensures dest[..] == s + [NUL]
      {
        BrokenMended(s, process.mem[..]);
      }
    }
  }

  /** Text broken down, copied as it is and mended. */
  lemma BrokenMended(s: string, m: seq<char>)
    requires Parse(s).Some? && NoNul(s) && m == Broken(s)
    ensures |s| > 0 && Starts(s).0 == 0 && Relabel(m[0..|s|]) + [m[|s|]] == s + [NUL]
  {
    Mended(s);
    assert m[0..|s|] == m[..|s|];
  }

  /** A name from its text; the text stays behind the structure. */
  method NameNewFromString(t: string) returns (n: Name?)
    requires NoNul(t)
    ensures n != null <==> Parse(t).Some?
    ensures n != null ==>
              && fresh(n) && n.Valid() && n.Value() == Parse(t).value
              && n.postLn == |t| && n.PointsInto(n.process.mem, t)
  {
    var m := new Name();
    var data := CopyOf(t);
    m.postLn := |t|;
    var ok := m.Breakdown(data, t);
    if ok {
      m.Pointed(data, t);
      n := m;
    } else {
      n := null;
    }
  }

  /** One turn of the loop over the parts. */
  method PrintPart(buf: array<char>, px: nat, p: Ptr, max: nat, i: nat, ghost parts: seq<string>, ghost was: seq<char>)
    returns (copy: nat)
    requires i < |parts| == 4 && |was| == buf.Length
    requires Points(p) && p.mem != buf && Text(p) == parts[i] && |parts[i]| <= max
    requires px == |Joined(parts, i)| && px + |parts[i]| < buf.Length && Written(buf[..], parts, i, was)
    modifies buf
    ensures copy == |parts[i]| && px + copy + 1 == |Joined(parts, i + 1)|
    ensures Written(buf[..], parts, i + 1, was)
  {
    hide Joined, Sum;
    JoinedNext(parts, i);
    ghost var before := buf[..];
    copy := CopyPart(buf, px, p, max, i < 3);
    Onward(buf[..], before, Joined(parts, i), parts[i], if i < 3 then DELIMITER else NUL, was);
  }

  /** The first `i` parts stand at the front; the rest of the buffer is as it was. */
  ghost predicate Written(now: seq<char>, parts: seq<string>, i: nat, was: seq<char>) {
    i <= |parts| == 4 && |Joined(parts, i)| <= |was| && now == Joined(parts, i) + was[|Joined(parts, i)|..]
  }

  lemma JoinedNone(parts: seq<string>, was: seq<char>)
    requires |parts| == 4
    ensures Joined(parts, 0) == [] && Sum(parts, 0) == 0
    ensures Written(was, parts, 0, was)
  {
  }

  lemma WrittenAll(now: seq<char>, p: Parts, was: seq<char>)
    requires Written(now, PartList(p), 4, was)
    ensures |Print(p)| < |was| && now == Print(p) + [NUL] + was[|Print(p)| + 1..]
  {
    hide Joined;
    JoinedIsPrinted(p);
  }

  lemma JoinedNext(parts: seq<string>, i: nat)
    requires i < |parts| == 4
    ensures Joined(parts, i + 1) == Joined(parts, i) + parts[i] + [if i < 3 then DELIMITER else NUL]
    ensures Sum(parts, i + 1) == Sum(parts, i) + |parts[i]|
    ensures Sum(parts, i + 1) <= Sum(parts, 4)
  {
    JoinedLength(parts, i + 1);
  }

  lemma Onward(now: seq<char>, before: seq<char>, done: string, part: string, sep: char, was: seq<char>)
    requires |done| + |part| < |was| && before == done + was[|done|..]
    requires now == before[..|done|] + part + [sep] + before[|done| + |part| + 1..]
    ensures now == (done + part + [sep]) + was[|done| + |part| + 1..]
  {
    assert before[..|done|] == done;
  }
}
