/**
 A 32-bit word as a set of bit positions, with the word as a number. Setting or clearing a bit
 changes that position only, a word is determined by its bits, and the lowest `r` bits set are
 one less than a power of two.
 */
module BitField {

  predicate Bit(w: nat, k: nat)
    decreases k
  {
    if k == 0 then w % 2 == 1 else Bit(w / 2, k - 1)
  }

  /** `w` with bit `k` set: `w | 1 << k`. */
  function WithBit(w: nat, k: nat): nat
    decreases k
  {
    if k == 0 then w / 2 * 2 + 1 else 2 * WithBit(w / 2, k - 1) + w % 2
  }

  /** `w` with bit `k` cleared: `w & ~(1 << k)`. */
  function WithoutBit(w: nat, k: nat): nat
    decreases k
  {
    if k == 0 then w / 2 * 2 else 2 * WithoutBit(w / 2, k - 1) + w % 2
  }

  function Power(k: nat): (p: nat)
    ensures p > 0
  {
    if k == 0 then 1 else 2 * Power(k - 1)
  }

  lemma {:induction false} BitSet(w: nat, k: nat, j: nat)
    ensures Bit(WithBit(w, k), j) <==> j == k || Bit(w, j)
    ensures Bit(WithoutBit(w, k), j) <==> j != k && Bit(w, j)
    decreases k
  {
    if k > 0 && j > 0 {
      BitSet(w / 2, k - 1, j - 1);
    }
  }

  /** A word stays a word. */
  lemma {:induction false} SetInRange(w: nat, k: nat, n: nat)
    requires w < Power(n) && k < n
    ensures WithBit(w, k) < Power(n) && WithoutBit(w, k) < Power(n)
    decreases k
  {
    if k > 0 {
      SetInRange(w / 2, k - 1, n - 1);
    }
  }

  lemma {:induction false} NoBits(k: nat)
    ensures !Bit(0, k)
  {
    if k > 0 {
      NoBits(k - 1);
    }
  }

  /** All ones below `r`: `~0 >> (32 - r)`. */
  lemma {:induction false} OnesBelow(r: nat, k: nat)
    ensures Bit(Power(r) - 1, k) <==> k < r
  {
    if r == 0 {
      NoBits(k);
    } else if k > 0 {
      assert (Power(r) - 1) / 2 == Power(r - 1) - 1;
      OnesBelow(r - 1, k - 1);
    }
  }

  /** A word is determined by its bits. */
  lemma {:induction false} SameBits(x: nat, y: nat, n: nat)
    requires x < Power(n) && y < Power(n)
    requires forall k | 0 <= k < n :: Bit(x, k) == Bit(y, k)
    ensures x == y
  {
    if n > 0 {
      assert Bit(x, 0) == Bit(y, 0);
      forall k | 0 <= k < n - 1 ensures Bit(x / 2, k) == Bit(y / 2, k) {
        assert Bit(x, k + 1) == Bit(y, k + 1);
      }
      SameBits(x / 2, y / 2, n - 1);
    }
  }

  lemma Power32()
    ensures Power(32) == 0x1_0000_0000
  {
    assert Power(8) == 256 by {
      assert Power(4) == 16;
    }
    assert Power(12) == 16 * Power(8);
    assert Power(16) == 16 * Power(12);
    assert Power(20) == 16 * Power(16);
    assert Power(24) == 16 * Power(20);
    assert Power(28) == 16 * Power(24);
    assert Power(32) == 16 * Power(28);
  }
}
