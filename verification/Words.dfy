/**
 Numbers as 32-bit words and back, bit by bit: the descriptor rows are packed with real shifts
 and masks, everything else counts with numbers. A number that has few enough bits comes back
 from its word.
 */
module Words {

  /** A 32-bit word holding the number `t`, for `t` below 2^32. */
  function Word(t: nat): bv32 {
    if t == 0 then 0 else (Word(t / 2) << 1) | Parity(t)
  }

  function Parity(t: nat): (b: bv32)
    ensures b <= 1
  {
    if t % 2 == 1 then 1 else 0
  }

  /** Two to the power `k`. */
  function Pow2(k: bv32): (p: nat)
    ensures p > 0
    decreases k
  {
    if k == 0 then 1 else 2 * Pow2(k - 1)
  }

  lemma ShiftIn(w: bv32, b: bv32, k: bv32)
    requires b <= 1 && 0 < k <= 31 && w >> (k - 1) == 0
    ensures ((w << 1) | b) >> k == 0
    ensures ((w << 1) | b) >> 1 == w && ((w << 1) | b) & 1 == b
  {
  }

  lemma {:induction false} WordBound(t: nat, k: bv32)
    requires t < Pow2(k) && k <= 31
    ensures Word(t) >> k == 0
    decreases k
  {
    if t != 0 {
      WordBound(t / 2, k - 1);
      ShiftIn(Word(t / 2), Parity(t), k);
    }
  }

  lemma WordParts(t: nat, k: bv32)
    requires t < Pow2(k) && 0 < k <= 31
    ensures Word(t) >> 1 == Word(t / 2) && Word(t) & 1 == Parity(t)
    ensures t / 2 < Pow2(k - 1)
  {
    Halved(t, k);
    WordBound(t / 2, k - 1);
    ShiftIn(Word(t / 2), Parity(t), k);
    WordStep(t);
    hide Word, Pow2, Parity;
  }

  lemma Halved(t: nat, k: bv32)
    requires t < Pow2(k) && 0 < k <= 31
    ensures t / 2 < Pow2(k - 1)
  {
  }

  lemma WordStep(t: nat)
    ensures Word(t) == (Word(t / 2) << 1) | Parity(t)
  {
  }

  /** The number in the low `k` bits. */
  function Number(w: bv32, k: bv32): nat
    decreases k
  {
    if k == 0 then 0 else (if w & 1 == 1 then 1 else 0) + 2 * Number(w >> 1, k - 1)
  }

  lemma {:induction false} NumberOfWord(t: nat, k: bv32)
    requires t < Pow2(k) && k <= 31
    ensures Number(Word(t), k) == t
    decreases k
  {
    if k > 0 {
      WordParts(t, k);
      NumberOfWord(t / 2, k - 1);
    }
  }

  lemma Powers2()
    ensures Pow2(6) == 0x40 && Pow2(10) == 0x400 && Pow2(16) == 0x1_0000
  {
    assert Pow2(4) == 16;
    assert Pow2(8) == 16 * Pow2(4);
    assert Pow2(12) == 16 * Pow2(8);
    assert Pow2(16) == 16 * Pow2(12);
  }
}
