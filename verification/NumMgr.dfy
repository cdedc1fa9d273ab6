/** Identifiers handed out in cyclic order. */
module NumMgr {
  import opened BitField

  const UINT_MAX: nat := 0xFFFF_FFFF

  // ---------------------------------------------------------------- the scan

  datatype Scan = At(p: nat) | Found(p: nat) | Exhausted

  function Following(p: nat): nat {
    if p == UINT_MAX then 0 else p + 1
  }

  /** One turn of the scan. The wrap to 1 comes after the test for the end. */
  function Turn(p: nat, last: nat, cnt: nat, taken: set<nat>): Scan {
    if p == last then Exhausted
    else
      var q := if p == cnt then 1 else p;
      if q in taken then At(Following(q)) else Found(q)
  }

  function Turns(p: nat, last: nat, cnt: nat, taken: set<nat>, k: nat): Scan
    decreases k
  {
    if k == 0 then At(p)
    else
      var t := Turn(p, last, cnt, taken);
      if t.At? then Turns(t.p, last, cnt, taken, k - 1) else t
  }

  predicate IsId(q: nat, n: nat) {
    1 <= q <= n
  }

  /** The ids in use and the last one given, among `n`; nothing is in use before the first is given. */
  predicate Coherent(n: nat, last: nat, taken: set<nat>) {
    && n < UINT_MAX
    && (forall q | q in taken :: IsId(q, n))
    && (n > 0 ==> last <= n)
    && (last == 0 ==> taken == {})
  }

  ghost predicate AllTaken(n: nat, taken: set<nat>) {
    forall q | IsId(q, n) :: q in taken
  }

  /** Steps from `last` up to `q`, going round after `n`; `last` itself comes last. */
  function Distance(last: nat, q: nat, n: nat): int {
    if q > last then q - last else q - last + n
  }

  /** The scan can answer `q`: it never looks at `last` itself, unless that is 1. */
  ghost predicate Candidate(q: nat, n: nat, last: nat, taken: set<nat>) {
    IsId(q, n) && q !in taken && (q != last || last == 1)
  }

  /** What the scan has passed when it stands at `p`. */
  ghost predicate Passed(p: nat, n: nat, last: nat, taken: set<nat>) {
    && 1 <= p <= n + 1
    && (last == 1 ==> p >= 2)
    && forall q | Candidate(q, n, last, taken) :: Distance(last, q, n) >= Distance(last, if p == n + 1 then 1 else p, n)
  }

  lemma PassedTurn(p: nat, n: nat, last: nat, taken: set<nat>)
    requires n >= 1 && Coherent(n, last, taken) && Passed(p, n, last, taken)
    ensures var t := Turn(p, last, n + 1, taken);
            && (t.At? ==> Passed(t.p, n, last, taken))
            && (t.Found? ==> First(t.p, n, last, taken))
            && (t.Exhausted? ==> last > 0 && forall q :: !Candidate(q, n, last, taken))
  {
  }

  /** `r` is the first that the scan can answer, in cyclic order after `last`. */
  ghost predicate First(r: nat, n: nat, last: nat, taken: set<nat>) {
    Candidate(r, n, last, taken) &&
    forall q | Candidate(q, n, last, taken) :: Distance(last, r, n) <= Distance(last, q, n)
  }

  lemma {:induction false} TurnsPass(p: nat, n: nat, last: nat, taken: set<nat>, k: nat)
    requires n >= 1 && Coherent(n, last, taken) && Passed(p, n, last, taken)
    ensures var t := Turns(p, last, n + 1, taken, k);
            && (t.Found? ==> First(t.p, n, last, taken))
            && (t.Exhausted? ==> last > 0 && forall q :: !Candidate(q, n, last, taken))
    decreases k
  {
    if k > 0 {
      PassedTurn(p, n, last, taken);
      var t := Turn(p, last, n + 1, taken);
      if t.At? {
        TurnsPass(t.p, n, last, taken, k - 1);
      }
    }
  }

  /** Where the scan will stop at the latest: at `last`, or at a free id. */
  ghost predicate Target(t: nat, n: nat, last: nat, taken: set<nat>) {
    IsId(t, n) && (last >= 2 ==> t == last) && (last < 2 ==> t !in taken)
  }

  function Left(p: nat, t: nat, n: nat): int {
    if p <= t then t - p else t + n + 1 - p
  }

  lemma {:induction false} TurnsEnd(p: nat, t: nat, n: nat, last: nat, taken: set<nat>) returns (k: nat)
    requires n >= 1 && Coherent(n, last, taken) && 1 <= p <= n + 1 && Target(t, n, last, taken)
    ensures !Turns(p, last, n + 1, taken, k).At?
    decreases Left(p, t, n)
  {
    var u := Turn(p, last, n + 1, taken);
    k := 1;
    if u.At? {
      k := TurnsEnd(u.p, t, n, last, taken);
      k := k + 1;
    } else {
      assert Turns(p, last, n + 1, taken, 1) == u;
    }
  }

  lemma {:induction false} TurnsForever(p: nat, n: nat, taken: set<nat>, k: nat)
    requires n >= 1 && Coherent(n, 1, taken) && AllTaken(n, taken) && 2 <= p <= n + 1
    ensures Turns(p, 1, n + 1, taken, k).At?
    decreases k
  {
    if k > 0 {
      var u := Turn(p, 1, n + 1, taken);
      assert u.At? by {
        assert IsId(if p == n + 1 then 1 else p, n);
      }
      TurnsForever(u.p, n, taken, k - 1);
    }
  }

  // ---------------------------------------------------------------- what an allocation answers

  ghost predicate After(n: nat, last: nat, taken: set<nat>, k: nat, a: Scan) {
    Turns(Following(last), last, n + 1, taken, k) == a
  }

  ghost predicate Answers(n: nat, last: nat, taken: set<nat>, a: Scan) {
    !a.At? && exists k: nat :: After(n, last, taken, k, a)
  }

  lemma {:induction false} OneMore(p: nat, last: nat, cnt: nat, taken: set<nat>, k: nat)
    requires Turns(p, last, cnt, taken, k).At?
    ensures Turns(p, last, cnt, taken, k + 1) == Turn(Turns(p, last, cnt, taken, k).p, last, cnt, taken)
    decreases k
  {
    var t := Turn(p, last, cnt, taken);
    if k > 0 {
      OneMore(t.p, last, cnt, taken, k - 1);
    } else if t.At? {
      assert Turns(t.p, last, cnt, taken, 0) == t;
    }
  }

  lemma NextTurn(n: nat, last: nat, taken: set<nat>, k: nat, p: nat)
    requires After(n, last, taken, k, At(p))
    ensures After(n, last, taken, k + 1, Turn(p, last, n + 1, taken))
  {
    OneMore(Following(last), last, n + 1, taken, k);
  }

  lemma NoTurn(n: nat, last: nat, taken: set<nat>)
    requires last < UINT_MAX
    ensures After(n, last, taken, 0, At(last + 1))
  {
  }

  /** The scan goes on for ever exactly when every id is taken and 1 was the last one given. */
  lemma ScanEnds(n: nat, last: nat, taken: set<nat>)
    requires n >= 1 && Coherent(n, last, taken)
    ensures (exists a :: Answers(n, last, taken, a)) <==> !(last == 1 && AllTaken(n, taken))
  {
    if last == 1 && AllTaken(n, taken) {
      forall a: Scan
        ensures !Answers(n, last, taken, a)
      {
        forall k: nat
          ensures !After(n, last, taken, k, a) || a.At?
        {
          TurnsForever(2, n, taken, k);
        }
      }
    } else {
      var k := TurnsEnd(last + 1, Stop(n, last, taken), n, last, taken);
      var a := Turns(last + 1, last, n + 1, taken, k);
      assert After(n, last, taken, k, a);
      assert Answers(n, last, taken, a);
    }
  }

  /** The answer is the next free id in cyclic order; there is none exactly when no other than `last` is free. */
  lemma AnswerIsFirst(n: nat, last: nat, taken: set<nat>, a: Scan)
    requires n >= 1 && Coherent(n, last, taken) && Answers(n, last, taken, a)
    ensures a.Found? ==> First(a.p, n, last, taken)
    ensures a.Exhausted? <==> last != 1 && forall q | IsId(q, n) && q != last :: q in taken
  {
    var k: nat :| After(n, last, taken, k, a);
    TurnsPass(last + 1, n, last, taken, k);
    if a.Exhausted? {
      if last == 1 {
        ScanEnds(n, last, taken);
        var q :| IsId(q, n) && q !in taken;
        assert Candidate(q, n, last, taken);
      }
      forall q | IsId(q, n) && q != last
        ensures q in taken
      {
        assert !Candidate(q, n, last, taken);
      }
    } else if last == 0 {
      assert a.p !in taken && IsId(a.p, n);
    }
  }

  /** A manager of no ids hands out 1, 2, 3 and so on all the same. */
  lemma NoIdsHandedOut(last: nat)
    requires last < UINT_MAX
    ensures Answers(0, last, {}, Found(last + 1))
  {
    assert Turns(last + 1, last, 1, {}, 1) == Turn(last + 1, last, 1, {});
    assert After(0, last, {}, 1, Found(last + 1));
  }

  // ---------------------------------------------------------------- fairness

  /** `given[i + 1]` was allocated after `given[i]`, with `taken[i]` in use; anything may be released in between. */
  ghost predicate Allocations(n: nat, given: seq<nat>, taken: seq<set<nat>>) {
    && |given| == |taken| + 1
    && (forall i | 0 <= i < |given| :: IsId(given[i], n))
    && forall i | 0 <= i < |taken| :: Coherent(n, given[i], taken[i])
        && Answers(n, given[i], taken[i], Found(given[i + 1]))
  }

  /** `q` stays free and is passed over throughout. */
  ghost predicate PassedOver(q: nat, given: seq<nat>, taken: seq<set<nat>>) {
    q !in given && forall i | 0 <= i < |taken| :: q !in taken[i]
  }

  lemma {:induction false} NeverPast(n: nat, given: seq<nat>, taken: seq<set<nat>>, q: nat, i: nat)
    requires Allocations(n, given, taken) && IsId(q, n) && PassedOver(q, given, taken) && i < |taken|
    ensures Distance(given[0], given[i + 1], n) < Distance(given[0], q, n)
  {
    AnswerIsFirst(n, given[i], taken[i], Found(given[i + 1]));
    assert Candidate(q, n, given[i], taken[i]);
    assert given[i + 1] != q && given[i] != q && given[0] != q;
    if i > 0 {
      NeverPast(n, given, taken, q, i - 1);
    }
  }

  /** An id that was given is not given again while another stays free and is passed over. */
  lemma Fair(n: nat, given: seq<nat>, taken: seq<set<nat>>, q: nat)
    requires Allocations(n, given, taken) && IsId(q, n) && PassedOver(q, given, taken)
    ensures given[0] !in given[1..]
  {
    forall j | 1 <= j < |given|
      ensures given[j] != given[0]
    {
      NeverPast(n, given, taken, q, j - 1);
      assert q != given[0];
    }
  }

  // ---------------------------------------------------------------- the bit array

  /** The set that the words stand for. */
  ghost function SetOf(words: seq<nat>, nbbits: nat): set<nat>
    requires |words| == nbbits / 32 + 1
  {
    set k | 0 <= k < nbbits && Bit(words[k / 32], k % 32)
  }

  ghost predicate AllWords(words: seq<nat>) {
    forall i | 0 <= i < |words| :: words[i] < Power(32)
  }

  lemma SetAt(words: seq<nat>, nbbits: nat, n: nat)
    requires |words| == nbbits / 32 + 1 && AllWords(words) && n < nbbits
    ensures var r := words[n / 32 := WithBit(words[n / 32], n % 32)];
            AllWords(r) && SetOf(r, nbbits) == SetOf(words, nbbits) + {n}
  {
    var w, bit := words[n / 32], n % 32;
    var r := words[n / 32 := WithBit(w, bit)];
    SetInRange(w, bit, 32);
    forall k | 0 <= k < nbbits
      ensures Bit(r[k / 32], k % 32) <==> k == n || Bit(words[k / 32], k % 32)
    {
      hide *;
      BitSet(w, bit, k % 32);
    }
  }

  lemma ClearAt(words: seq<nat>, nbbits: nat, n: nat)
    requires |words| == nbbits / 32 + 1 && AllWords(words) && n < nbbits
    ensures var r := words[n / 32 := WithoutBit(words[n / 32], n % 32)];
            AllWords(r) && SetOf(r, nbbits) == SetOf(words, nbbits) - {n}
  {
    var w, bit := words[n / 32], n % 32;
    var r := words[n / 32 := WithoutBit(w, bit)];
    SetInRange(w, bit, 32);
    forall k | 0 <= k < nbbits
      ensures Bit(r[k / 32], k % 32) <==> k != n && Bit(words[k / 32], k % 32)
    {
      hide *;
      BitSet(w, bit, k % 32);
    }
  }

  lemma Bounds(words: seq<nat>, nbbits: nat, n: nat)
    requires |words| == nbbits / 32 + 1 && n >= nbbits
    ensures SetOf(words, nbbits) - {n} == SetOf(words, nbbits)
  {
  }

  class BitArray {
    const nbbits: nat
    const words: array<nat>

    ghost predicate Valid()
      reads words
    {
      words.Length == nbbits / 32 + 1 && AllWords(words[..])
    }

    ghost function Members(): set<nat>
      reads words
      requires Valid()
    {
      SetOf(words[..], nbbits)
    }

    constructor (nbbits: nat)
      ensures Valid() && this.nbbits == nbbits && Members() == {} && fresh(words)
    {
      this.nbbits := nbbits;
      words := new nat[nbbits / 32 + 1](_ => 0);
      new;
      forall k | 0 <= k < nbbits
        ensures !Bit(words[k / 32], k % 32)
      {
        NoBits(k % 32);
      }
    }

    method SetBit(n: nat)
      requires Valid()
      modifies words
      ensures Valid() && Members() == if n < nbbits then old(Members()) + {n} else old(Members())
    {
      hide SetOf, AllWords, WithBit, Bit;
      var bit := n % 32;
      var index := (n - bit) / 32;
      if n < nbbits {
        SetAt(words[..], nbbits, n);
        words[index] := WithBit(words[index], bit);
        assert index == n / 32 && words[..] == old(words[..])[n / 32 := WithBit(old(words[..])[n / 32], bit)];
      }
    }

    method ClearBit(n: nat)
      requires Valid()
      modifies words
      ensures Valid() && Members() == old(Members()) - {n}
    {
      hide SetOf, AllWords, WithoutBit, Bit;
      var bit := n % 32;
      var index := (n - bit) / 32;
      if n < nbbits {
        ClearAt(words[..], nbbits, n);
        words[index] := WithoutBit(words[index], bit);
        assert index == n / 32 && words[..] == old(words[..])[n / 32 := WithoutBit(old(words[..])[n / 32], bit)];
      } else {
        Bounds(words[..], nbbits, n);
      }
    }

    method GetBit(n: nat) returns (b: bool)
      requires Valid()
      ensures b <==> n in Members()
      ensures b ==> n < nbbits
    {
      var bit := n % 32;
      var index := (n - bit) / 32;
      b := n < nbbits && Bit(words[index], bit);
    }
  }

  // ---------------------------------------------------------------- the manager

  class IdManager {
    const numCnt: nat
    var lastAllocated: nat
    const ba: BitArray

    ghost predicate Valid()
      reads this, ba.words
    {
      && ba.Valid() && ba.nbbits == numCnt && 1 <= numCnt <= UINT_MAX && lastAllocated <= UINT_MAX
      && (numCnt > 1 ==> Coherent(Ids(), lastAllocated, Taken()))
    }

    ghost function Ids(): nat
      requires numCnt >= 1
    {
      numCnt - 1
    }

    ghost function Taken(): set<nat>
      reads ba.words
      requires ba.Valid()
    {
      ba.Members()
    }

    /** The number of ids has to be less than the error code. */
    constructor (count: nat)
      requires count < UINT_MAX
      ensures Valid() && Ids() == count && Taken() == {} && lastAllocated == 0 && fresh(ba.words)
    {
      numCnt := count + 1;
      lastAllocated := 0;
      ba := new BitArray(count + 1);
    }

    /**
     `UINT_MAX` stands for no id. Called only where the scan comes to an end; without any ids, only
     before the numbers given wrap around.
     */
    method Allocate() returns (p: nat)
      requires Valid()
      requires if Ids() == 0 then lastAllocated < UINT_MAX else !(lastAllocated == 1 && AllTaken(Ids(), Taken()))
      modifies this, ba.words
      ensures Valid()
      ensures Ids() == 0 ==> p == lastAllocated == old(lastAllocated) + 1 && Taken() == old(Taken())
      ensures Ids() > 0 && p == UINT_MAX ==>
                && Answers(Ids(), old(lastAllocated), old(Taken()), Exhausted)
                && Taken() == old(Taken()) && lastAllocated == old(lastAllocated)
      ensures Ids() > 0 && p != UINT_MAX ==>
                && Answers(Ids(), old(lastAllocated), old(Taken()), Found(p))
                && Taken() == old(Taken()) + {p} && lastAllocated == p
    {
      hide BitArray.Members, BitArray.Valid, Turns, After;
      ghost var n, last, taken := Ids(), lastAllocated, Taken();
      ghost var t := if n == 0 then 0 else Stop(n, last, taken);
      ghost var k := 0;
      p := lastAllocated + 1;
      NoTurn(n, last, taken);
      while true
        invariant Valid() && Taken() == taken && lastAllocated == last
        invariant if n == 0 then p == last + 1 else p <= numCnt
        invariant 1 <= p && n + 1 == numCnt && After(n, last, taken, k, At(p))
        decreases if n == 0 then 0 else Left(p, t, n)
      {
        NextTurn(n, last, taken, k, p);
        k := k + 1;
        if p == lastAllocated {
          return UINT_MAX;
        }
        if p == numCnt {
          p := 1;
        }
        var taken? := ba.GetBit(p);
        if !taken? {
          ba.SetBit(p);
          lastAllocated := p;
          return;
        }
        p := p + 1;
      }
    }

    method Release(n: nat) returns (ok: bool)
      requires Valid()
      modifies ba.words
      ensures Valid() && ok == (n in old(Taken())) && Taken() == old(Taken()) - {n}
    {
      ok := ba.GetBit(n);
      if ok {
        ba.ClearBit(n);
      }
    }

    method IsAllocated(n: nat) returns (b: bool)
      requires Valid()
      ensures b == (n in Taken())
    {
      b := ba.GetBit(n);
    }
  }

  ghost function Stop(n: nat, last: nat, taken: set<nat>): (t: nat)
    requires n >= 1 && Coherent(n, last, taken) && !(last == 1 && AllTaken(n, taken))
    ensures Target(t, n, last, taken)
  {
    if last >= 2 then last
    else if last == 0 then 1
    else
      var t: nat :| IsId(t, n) && t !in taken; t
  }
}
