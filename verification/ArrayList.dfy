/** The growing array that the decoders gather items in. */
module ArrayList {

  class ArrayList<T> {
    var items: array<T>
    var maxItemCount: nat
    var freeIdx: nat
    const filler: T

    ghost predicate Valid()
      reads this
    {
      0 < maxItemCount == items.Length && freeIdx <= maxItemCount
    }

    ghost function Contents(): seq<T>
      requires Valid()
      reads this, items
    {
      items[..freeIdx]
    }

    /** Room for `initial` items to begin with; allocation is taken to succeed. */
    constructor (initial: nat, filler: T)
      requires initial > 0
      ensures Valid() && fresh(items) && Contents() == []
    {
      this.filler := filler;
      items := new T[initial](_ => filler);
      maxItemCount := initial;
      freeIdx := 0;
    }

    /** Doubles the array when it is full. */
    method Add(item: T)
      requires Valid()
      modifies this, items
      ensures Valid() && Contents() == old(Contents()) + [item]
      ensures items == old(items) || fresh(items)
      ensures maxItemCount == if old(freeIdx == maxItemCount) then 2 * old(maxItemCount) else old(maxItemCount)
    {
      if freeIdx == maxItemCount {
        var newMax := maxItemCount * 2;
        var newBuf := new T[newMax](_ => filler);
        var i := 0;
        while i < maxItemCount
          modifies newBuf
          invariant i <= maxItemCount && newBuf[..i] == items[..i]
        {
          newBuf[i] := items[i];
          i := i + 1;
        }
        items := newBuf;
        maxItemCount := newMax;
      }
      items[freeIdx] := item;
      freeIdx := freeIdx + 1;
    }

    function Count(): nat
      reads this
    {
      freeIdx
    }

    /** The bounds test of the C code, and what it makes of the index. */
    method Get(idx: nat) returns (r: Fetched<T>)
      requires Valid()
      ensures idx <= SIZE_MAX && Count() <= SIZE_MAX ==> (r.Null? <==> Refused(idx, Count()))
      ensures r.Item? <==> idx < Count()
      ensures r.Item? ==> r.item == Contents()[idx]
    {
      var last := if freeIdx == 0 then SIZE_MAX else freeIdx - 1;
      if idx > last {
        return Null;
      }
      r := if idx < freeIdx then Item(items[idx]) else Stray;
    }
  }

  const SIZE_MAX: nat := 0xFFFF_FFFF_FFFF_FFFF

  /** `Stray`: a pointer behind the items, or behind the array. */
  datatype Fetched<T> = Null | Item(item: T) | Stray

  /** The test compares with the index of the last item, which wraps around when there is none. */
  predicate Refused(idx: nat, count: nat) {
    idx > (count + SIZE_MAX) % (SIZE_MAX + 1)
  }

  /** It turns away exactly the indices behind the last item of a list that has one, and none on an empty list. */
  lemma RefusedIff(idx: nat, count: nat)
    requires idx <= SIZE_MAX && count <= SIZE_MAX
    ensures Refused(idx, count) <==> 0 < count <= idx
  {
    if count > 0 {
      assert count + SIZE_MAX == (count - 1) + (SIZE_MAX + 1);
    }
  }
}
