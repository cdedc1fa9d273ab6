/** Protocol addresses, padded at the end. */
module ProtocolAddress {
  import opened Prelude

  /** Where `f` is first, or the length. */
  function IndexOf(a: seq<byte>, f: byte): (k: nat)
    ensures k <= |a| && (k < |a| ==> a[k] == f)
    ensures forall j | 0 <= j < k :: a[j] != f
  {
    if a == [] then 0 else if a[0] == f then 0 else 1 + IndexOf(a[1..], f)
  }

  /** The part that identifies an address: up to the first zero. */
  function Key(a: seq<byte>): seq<byte> {
    a[..IndexOf(a, 0)]
  }

  predicate Same(a: seq<byte>, b: seq<byte>) {
    |a| > 0 && |b| > 0 && Key(a) == Key(b)
  }

  function Shrunk(a: seq<byte>, f: byte): seq<byte> {
    a[..IndexOf(a, f)]
  }

  function Padding(n: nat, f: byte): seq<byte> {
    seq(n, _ => f)
  }

  function Grown(a: seq<byte>, n: nat, f: byte): seq<byte>
    requires |a| <= n
  {
    a + Padding(n - |a|, f)
  }

  predicate AllAre(a: seq<byte>, f: byte) {
    forall i | 0 <= i < |a| :: a[i] == f
  }

  /** Without the fillers at the end. */
  function Trimmed(a: seq<byte>, f: byte): seq<byte> {
    if a == [] || a[|a| - 1] != f then a else Trimmed(a[..|a| - 1], f)
  }

  // ---------------------------------------------------------------- laws

  /** The key is the longest front part without a zero. */
  lemma KeyIs(a: seq<byte>, k: nat)
    requires k <= |a| && (forall j | 0 <= j < k :: a[j] != 0) && (k < |a| ==> a[k] == 0)
    ensures Key(a) == a[..k]
  {
    assert IndexOf(a, 0) == k;
  }

  /** Comparing is an equivalence on addresses that are not empty. */
  lemma SameIsEquivalence(a: seq<byte>, b: seq<byte>, c: seq<byte>)
    ensures Same(a, a) <==> a != []
    ensures Same(a, b) <==> Same(b, a)
    ensures Same(a, b) && Same(b, c) ==> Same(a, c)
  {
  }

  /** Two addresses are the same exactly when they agree up to the first zero, or the end, of each. */
  lemma SameExactly(a: seq<byte>, b: seq<byte>)
    ensures Same(a, b) <==>
            a != [] && b != [] &&
            exists k: nat :: k <= |a| && k <= |b| && a[..k] == b[..k] && 0 !in a[..k]
                             && (k == |a| || a[k] == 0) && (k == |b| || b[k] == 0)
  {
    if Same(a, b) {
      var k := IndexOf(a, 0);
      assert a[..k] == b[..k] && |Key(b)| == k;
    }
    forall k: nat | k <= |a| && k <= |b| && a[..k] == b[..k] && 0 !in a[..k]
        && (k == |a| || a[k] == 0) && (k == |b| || b[k] == 0)
      ensures Key(a) == Key(b)
    {
      assert forall j | 0 <= j < k :: a[j] == a[..k][j] && b[j] == b[..k][j];
      KeyIs(a, k);
      KeyIs(b, k);
    }
  }

  /** Two addresses are the same exactly when padding makes them equal, up to what follows a zero. */
  lemma SameMeansEqualFronts(a: seq<byte>, b: seq<byte>)
    requires 0 !in a && 0 !in b && a != [] && b != []
    ensures Same(a, b) <==> a == b
    ensures forall n: nat, m: nat | n >= |a| && m >= |b| :: Same(Grown(a, n, 0), Grown(b, m, 0)) <==> a == b
  {
    WholeKey(a);
    WholeKey(b);
    forall n: nat, m: nat | n >= |a| && m >= |b|
      ensures Same(Grown(a, n, 0), Grown(b, m, 0)) <==> a == b
    {
      GrowKeeps(a, n, 0);
      GrowKeeps(b, m, 0);
    }
  }

  lemma WholeKey(a: seq<byte>)
    requires 0 !in a
    ensures Key(a) == a
  {
    assert a[..|a|] == a;
    KeyIs(a, |a|);
  }

  /** A grown address is the same one exactly when zeros fill it, or nothing is added, or it had a zero already. */
  lemma GrowKeeps(a: seq<byte>, n: nat, f: byte)
    requires a != [] && n >= |a|
    ensures Same(a, Grown(a, n, f)) <==> f == 0 || n == |a| || 0 in a
    ensures f == 0 || 0 in a ==> Key(Grown(a, n, f)) == Key(a)
  {
    var g := Grown(a, n, f);
    var k := IndexOf(a, 0);
    assert g[..k] == a[..k];
    if k < |a| || n == |a| {
      assert k < |a| || g == a;
      KeyIs(g, k);
    } else {
      assert a[..k] == a;
      if f == 0 {
        KeyIs(g, k);
      } else {
        assert forall i | 0 <= i < |g| :: g[i] != 0;
        WholeKey(g);
      }
    }
  }

  /**
   A shrunk address is the same one exactly when the filler is not part of its key and not its
   first byte. An address that starts with the filler shrinks to nothing, which is no address.
   */
  lemma ShrinkKeeps(a: seq<byte>, f: byte)
    requires a != []
    ensures Same(a, Shrunk(a, f)) <==> f !in Key(a) && a[0] != f
    ensures Shrunk(a, f) == [] <==> a[0] == f
  {
    var s, k, z := Shrunk(a, f), IndexOf(a, f), IndexOf(a, 0);
    assert forall i | 0 <= i < k :: s[i] == a[i];
    assert forall i | 0 <= i < z :: Key(a)[i] == a[i];
    KeyIs(s, if k <= z then k else z);
    if k <= z {
      assert s[..k] == s == a[..k];
    } else {
      assert s[..z] == a[..z];
    }
  }

  /** Trimming zeros never changes which address it is, as long as not all bytes are zero. */
  lemma {:induction false} TrimKeeps(a: seq<byte>)
    ensures Key(Trimmed(a, 0)) == Key(a)
    ensures !AllAre(a, 0) ==> Trimmed(a, 0) != [] && Same(a, Trimmed(a, 0))
    decreases |a|
  {
    if a != [] && a[|a| - 1] == 0 {
      var b := a[..|a| - 1];
      TrimKeeps(b);
      var k := IndexOf(b, 0);
      assert a[..k] == b[..k];
      KeyIs(a, k);
      if AllAre(b, 0) {
        assert AllAre(a, 0);
      }
    }
  }

  datatype Scan = Stopped(length: nat) | Outside

  /** The scan that looks for fillers from the end: it has no test for the front of the buffer. */
  function TrimScan(a: seq<byte>, f: byte, p: nat): (r: Scan)
    requires p <= |a|
    ensures r.Stopped? ==> r.length <= p
  {
    if p == 0 then Outside
    else if a[p - 1] == f then TrimScan(a, f, p - 1)
    else Stopped(p)
  }

  /** It stops inside the buffer exactly when some byte is not the filler, and then the address is trimmed. */
  lemma ScanStops(a: seq<byte>, f: byte)
    ensures TrimScan(a, f, |a|).Stopped? <==> exists b :: b in a && b != f
    ensures TrimScan(a, f, |a|).Stopped? ==> Trimmed(a, f) == a[..TrimScan(a, f, |a|).length]
  {
    ScanFrom(a, f, |a|);
    if TrimScan(a, f, |a|).Stopped? {
      var k := TrimScan(a, f, |a|).length;
      assert a[k - 1] in a && a[k - 1] != f;
      TrimmedIs(a, f, k);
    }
  }

  lemma {:induction false} ScanFrom(a: seq<byte>, f: byte, p: nat)
    requires p <= |a| && forall i | p <= i < |a| :: a[i] == f
    ensures match TrimScan(a, f, p)
            case Stopped(k) => 0 < k <= p && a[k - 1] != f && forall i | k <= i < |a| :: a[i] == f
            case Outside => AllAre(a, f)
  {
    if p > 0 && a[p - 1] == f {
      ScanFrom(a, f, p - 1);
    }
  }

  lemma {:induction false} TrimmedIs(a: seq<byte>, f: byte, k: nat)
    requires k <= |a| && (k > 0 ==> a[k - 1] != f) && forall i | k <= i < |a| :: a[i] == f
    ensures Trimmed(a, f) == a[..k]
    decreases |a|
  {
    if k < |a| {
      TrimmedIs(a[..|a| - 1], f, k);
      assert a[..|a| - 1][..k] == a[..k];
    } else {
      assert a[..k] == a;
    }
  }

  // ---------------------------------------------------------------- the address object

  class Gpa {
    var address: array?<byte>
    var length: nat

    ghost predicate Valid()
      reads this
    {
      address != null ==> length <= address.Length
    }

    ghost function Bytes(): seq<byte>
      reads this, address
      requires Valid()
    {
      if address == null then [] else address[..length]
    }

    constructor (address: array?<byte>, length: nat)
      requires address != null ==> length <= address.Length
      ensures Valid() && this.address == address && this.length == length
    {
      this.address, this.length := address, length;
    }

    predicate IsOk()
      reads this
    {
      address != null && length != 0
    }

    /** Cuts the address at the first filler, in a new buffer. */
    method Shrink(filler: byte) returns (ok: bool)
      requires Valid()
      modifies this
      ensures Valid() && ok == old(IsOk())
      ensures ok ==> address != null && Bytes() == Shrunk(old(Bytes()), filler)
      ensures ok ==>
                && length <= old(length) && Bytes() == old(Bytes())[..length] && filler !in Bytes()
                && (length < old(length) ==> old(Bytes())[length] == filler)
      ensures !ok ==> address == old(address) && length == old(length)
    {
      if !IsOk() {
        return false;
      }
      ghost var a := Bytes();
      var position := 0;
      while position < length && address[position] != filler
        invariant position <= length && forall i | 0 <= i < position :: a[i] != filler
      {
        position := position + 1;
      }
      assert position == IndexOf(a, filler);
      if position >= length {
        assert a == a[..position];
        return true;
      }
      var buffer := Duplicate(address, position, position);
      assert a[..position] == address[..position];
      address := buffer;
      length := position;
      ok := true;
    }

    /** Fills the address up to `newLength`, in a new buffer. */
    method Grow(newLength: nat, filler: byte) returns (ok: bool)
      requires Valid()
      modifies this
      ensures Valid() && ok == (old(IsOk()) && newLength >= old(length))
      ensures ok ==> address != null && Bytes() == Grown(old(Bytes()), newLength, filler)
      ensures ok ==>
                && length == newLength && Bytes()[..old(length)] == old(Bytes())
                && forall i | old(length) <= i < newLength :: Bytes()[i] == filler
      ensures !ok ==> address == old(address) && length == old(length)
    {
      if !IsOk() {
        return false;
      }
      if newLength == 0 || newLength < length {
        return false;
      }
      if newLength == length {
        assert Padding(0, filler) == [] && Bytes() + [] == Bytes();
        return true;
      }
      var buffer := Duplicate(address, length, newLength);
      ghost var a := Bytes();
      var k := length;
      while k < newLength
        invariant length <= k <= newLength
        invariant buffer[..k] == a + Padding(k - length, filler)
      {
        buffer[k] := filler;
        k := k + 1;
      }
      address := buffer;
      length := newLength;
      ok := true;
    }

    /**
     A copy, without the fillers at the end when `shrink` is set. `inside` is false when the scan for
     fillers has left the buffer at its front; what then becomes of the copy is not described.
     */
    method Dup(shrink: bool, filler: byte) returns (g: Gpa?, inside: bool)
      requires Valid()
      ensures inside <==> !(shrink && IsOk() && TrimScan(Bytes(), filler, |Bytes()|).Outside?)
      ensures g != null <==> IsOk() && inside
      ensures g != null ==>
                && fresh(g) && g.Valid() && g.address != null && fresh(g.address)
                && g.Bytes() == if shrink then Trimmed(Bytes(), filler) else Bytes()
      ensures g != null ==>
                && 0 < g.length <= length && g.Bytes() == Bytes()[..g.length]
                && (forall i | g.length <= i < length :: Bytes()[i] == filler)
                && (if shrink then g.Bytes()[g.length - 1] != filler else g.length == length)
    {
      if !IsOk() {
        return null, true;
      }
      var n: nat := length;
      if shrink {
        while n > 0 && address[n - 1] == filler
          invariant n <= length
          invariant TrimScan(Bytes(), filler, length) == TrimScan(Bytes(), filler, n)
          invariant forall i | n <= i < length :: Bytes()[i] == filler
        {
          n := n - 1;
        }
        if n == 0 {
          return null, false;
        }
        ScanStops(Bytes(), filler);
      }
      var buffer := Duplicate(address, n, length);
      assert address[..n] == Bytes()[..n];
      g := new Gpa(buffer, n);
      inside := true;
    }

    /** The length without filler. */
    method ActualLength() returns (n: nat)
      requires Valid() && IsOk()
      ensures n == IndexOf(Bytes(), 0)
    {
      n := 0;
      while n < length && address[n] != 0
        invariant n <= length && forall i | 0 <= i < n :: address[i] != 0
      {
        n := n + 1;
      }
      KeyIs(Bytes(), n);
      assert |Bytes()[..n]| == n;
    }
  }

  method Duplicate(a: array<byte>, n: nat, size: nat) returns (b: array<byte>)
    requires n <= a.Length && n <= size
    ensures fresh(b) && b.Length == size && b[..n] == a[..n]
  {
    b := new byte[size](_ => 0);
    var i := 0;
    while i < n
      invariant 0 <= i <= n
      invariant b[..i] == a[..i]
    {
      b[i] := a[i];
      i := i + 1;
    }
  }

  method Cmp(g: Gpa?, h: Gpa?) returns (same: bool)
    requires (g != null ==> g.Valid()) && (h != null ==> h.Valid())
    ensures same <==> g != null && h != null && g.IsOk() && h.IsOk() && Same(g.Bytes(), h.Bytes())
  {
    if g == null || h == null || !g.IsOk() || !h.IsOk() {
      return false;
    }
    var n := g.ActualLength();
    var m := h.ActualLength();
    if n != m {
      return false;
    }
    assert forall i | 0 <= i < n :: Key(g.Bytes())[i] == g.address[i] && Key(h.Bytes())[i] == h.address[i];
    var i := 0;
    while i < n && g.address[i] == h.address[i]
      invariant i <= n && forall k | 0 <= k < i :: g.address[k] == h.address[k]
    {
      i := i + 1;
    }
    same := i == n;
  }
}
