/** `sparse_array` of the sparse hash table: up to 64 buckets share one short array of values; a
    bitmap says which buckets have a value and a population count finds it. */
module SparseArray {
  import opened Bits

  const BITMAP_NB_BITS: nat := 64

  /** The value of the bitmap type with all bits set. */
  function AllOnes(): nat {
    Pow2(BITMAP_NB_BITS) - 1
  }

  /** `~b` */
  function Not(b: nat): nat
    requires b <= AllOnes()
  {
    AllOnes() - b
  }

  predicate Bit(b: nat, i: nat) {
    And(b, Pow2(i)) != 0
  }

  /** The number of ones in a word. */
  function PopCount(b: nat): nat {
    if b == 0 then 0 else b % 2 + PopCount(b / 2)
  }

  /** The number of ones below position `n`. */
  ghost function Count(b: nat, n: nat): nat {
    if n == 0 then 0 else Count(b, n - 1) + if Bit(b, n - 1) then 1 else 0
  }

  lemma {:induction false} BitHalf(b: nat, i: nat)
    ensures Bit(b, i) <==> if i == 0 then b % 2 == 1 else Bit(b / 2, i - 1)
  {
    AndUnfold(b, Pow2(i));
    if i == 0 {
      assert Pow2(0) == 1 && Pow2(0) / 2 == 0;
    } else {
      assert Pow2(i) / 2 == Pow2(i - 1) && Pow2(i) % 2 == 0;
    }
  }

  lemma {:induction false} BitOr(a: nat, b: nat, i: nat)
    ensures Bit(Or(a, b), i) <==> Bit(a, i) || Bit(b, i)
    decreases i
  {
    hide Bit, Or;
    BitHalf(a, i);
    BitHalf(b, i);
    BitHalf(Or(a, b), i);
    OrUnfold(a, b);
    if i > 0 {
      OrHalves(a, b);
      BitOr(a / 2, b / 2, i - 1);
    }
  }

  lemma {:induction false} BitAnd(a: nat, b: nat, i: nat)
    ensures Bit(And(a, b), i) <==> Bit(a, i) && Bit(b, i)
    decreases i
  {
    BitHalf(a, i);
    BitHalf(b, i);
    BitHalf(And(a, b), i);
    AndUnfold(a, b);
    if i > 0 {
      BitAnd(a / 2, b / 2, i - 1);
    }
  }

  lemma {:induction false} BitOne(k: nat, i: nat)
    ensures Bit(Pow2(k), i) <==> i == k
    decreases i
  {
    BitHalf(Pow2(k), i);
    if k == 0 {
      assert Pow2(0) == 1;
      if i > 0 {
        assert Pow2(0) / 2 == 0;
        BitZero(i - 1);
      }
    } else {
      assert Pow2(k) / 2 == Pow2(k - 1) && Pow2(k) % 2 == 0;
      if i > 0 {
        BitOne(k - 1, i - 1);
      }
    }
  }

  lemma BitZero(i: nat)
    ensures !Bit(0, i)
  {
  }

  lemma {:induction false} BitComplement(b: nat, n: nat, i: nat)
    requires b < Pow2(n) && i < n
    ensures Bit(Pow2(n) - 1 - b, i) <==> !Bit(b, i)
    decreases n
  {
    var c := Pow2(n) - 1 - b;
    BitHalf(b, i);
    BitHalf(c, i);
    assert Pow2(n) == 2 * Pow2(n - 1);
    assert c / 2 == Pow2(n - 1) - 1 - b / 2 && c % 2 == 1 - b % 2;
    if i > 0 {
      BitComplement(b / 2, n - 1, i - 1);
    }
  }

  lemma {:induction false} BitAbove(b: nat, n: nat, i: nat)
    requires b < Pow2(n) && n <= i
    ensures !Bit(b, i)
    decreases i
  {
    BitHalf(b, i);
    if n == 0 {
      BitZero(i);
    } else {
      BitAbove(b / 2, n - 1, i - 1);
    }
  }

  lemma {:induction false} AndFits(a: nat, b: nat)
    ensures And(a, b) <= a
    decreases a
  {
    AndUnfold(a, b);
    if a > 0 {
      AndFits(a / 2, b / 2);
    }
  }

  /** A set bit below a word is part of its count. */
  lemma {:induction false} CountShift(b: nat, n: nat)
    ensures Count(b, n + 1) == b % 2 + Count(b / 2, n)
    decreases n
  {
    if n == 0 {
      BitHalf(b, 0);
      assert Count(b, 1) == Count(b, 0) + if Bit(b, 0) then 1 else 0;
    } else {
      CountShift(b, n - 1);
      BitHalf(b, n);
    }
  }

  lemma MaskHalf(b: nat, n: nat)
    requires n > 0
    ensures And(b, Pow2(n) - 1) / 2 == And(b / 2, Pow2(n - 1) - 1) && And(b, Pow2(n) - 1) % 2 == b % 2
  {
    AndUnfold(b, Pow2(n) - 1);
    assert (Pow2(n) - 1) / 2 == Pow2(n - 1) - 1 && (Pow2(n) - 1) % 2 == 1;
  }

  /** The masked population count of `index_to_offset` counts the ones below the index. */
  lemma {:induction false} RankIsCount(b: nat, n: nat)
    ensures PopCount(And(b, Pow2(n) - 1)) == Count(b, n)
    decreases n
  {
    if n == 0 {
      AndMask(b, 0);
      assert Pow2(0) == 1 && PopCount(0) == 0;
    } else {
      MaskHalf(b, n);
      PopUnfold(And(b, Pow2(n) - 1));
      RankIsCount(b / 2, n - 1);
      CountShift(b, n - 1);
    }
  }

  lemma PopUnfold(b: nat)
    ensures PopCount(b) == b % 2 + PopCount(b / 2)
  {
  }

  lemma {:induction false} PopIsCount(b: nat, n: nat)
    requires b < Pow2(n)
    ensures PopCount(b) == Count(b, n)
    decreases n
  {
    if n == 0 {
    } else {
      PopIsCount(b / 2, n - 1);
      CountShift(b, n - 1);
      PopUnfold(b);
    }
  }

  /** Adding one bit raises the counts above it by one. */
  lemma {:induction false} CountPlus(a: nat, b: nat, k: nat, n: nat)
    requires !Bit(a, k) && forall i :: 0 <= i < n ==> (Bit(b, i) <==> Bit(a, i) || i == k)
    ensures Count(b, n) == Count(a, n) + if k < n then 1 else 0
  {
    if n > 0 {
      CountPlus(a, b, k, n - 1);
    }
  }

  lemma {:induction false} CountMonotonic(b: nat, i: nat, j: nat)
    requires i <= j
    ensures Count(b, i) <= Count(b, j)
    ensures i < j && Bit(b, i) ==> Count(b, i) < Count(b, j)
    decreases j
  {
    if i < j {
      CountMonotonic(b, i, j - 1);
    }
  }

  /** What a bucket of the table is: never used, used and erased, or in use. */
  datatype Slot<V> = Empty | Deleted | Present(value: V)

  /** `index_to_offset` */
  function OffsetOf(vals: nat, i: nat): nat {
    PopCount(And(vals, Pow2(i) - 1))
  }

  /** The fields of a `sparse_array`: values in index order, and the bitmaps of the values and of
      the tombstones. */
  datatype Sparse<V> = Sparse(values: seq<V>, vals: nat, deleted: nat) {

    ghost predicate Valid() {
      && vals <= AllOnes() && deleted <= AllOnes()
      && |values| == PopCount(vals)
      && forall i: nat :: !(Bit(vals, i) && Bit(deleted, i))
    }

    predicate HasValue(i: nat) {
      Bit(vals, i)
    }

    predicate HasDeleted(i: nat) {
      Bit(deleted, i)
    }

    lemma OffsetInRange(i: nat)
      requires Valid() && i < BITMAP_NB_BITS
      ensures OffsetOf(vals, i) <= |values|
      ensures HasValue(i) ==> OffsetOf(vals, i) < |values|
    {
      RankIsCount(vals, i);
      PopIsCount(vals, BITMAP_NB_BITS);
      CountMonotonic(vals, i, BITMAP_NB_BITS);
    }

    function Value(i: nat): V
      requires Valid() && i < BITMAP_NB_BITS && HasValue(i)
    {
      OffsetInRange(i);
      values[OffsetOf(vals, i)]
    }

    ghost function SlotOf(i: nat): Slot<V>
      requires Valid() && i < BITMAP_NB_BITS
    {
      if HasValue(i) then Present(Value(i)) else if HasDeleted(i) then Deleted else Empty
    }

    /** The fields after `set`. */
    function Set(i: nat, v: V): Sparse<V>
      requires Valid() && i < BITMAP_NB_BITS
    {
      OffsetInRange(i);
      OneFits(i);
      var o := OffsetOf(vals, i);
      Sparse(values[..o] + [v] + values[o..], Or(vals, Pow2(i)), And(deleted, Not(Pow2(i))))
    }

    /** The fields after `erase`. */
    function Erase(i: nat): Sparse<V>
      requires Valid() && i < BITMAP_NB_BITS && HasValue(i)
    {
      OffsetInRange(i);
      OneFits(i);
      var o := OffsetOf(vals, i);
      Sparse(values[..o] + values[o + 1..], And(vals, Not(Pow2(i))), Or(deleted, Pow2(i)))
    }
  }

  lemma OneFits(i: nat)
    requires i < BITMAP_NB_BITS
    ensures Pow2(i) <= AllOnes()
  {
    Pow2Monotonic(i, BITMAP_NB_BITS - 1);
    assert Pow2(BITMAP_NB_BITS) == 2 * Pow2(BITMAP_NB_BITS - 1);
  }

  /** Setting a bit. */
  lemma OrOne(b: nat, k: nat)
    requires k < BITMAP_NB_BITS && b <= AllOnes()
    ensures Or(b, Pow2(k)) <= AllOnes()
    ensures forall i: nat :: Bit(Or(b, Pow2(k)), i) <==> Bit(b, i) || i == k
  {
    OneFits(k);
    OrLow(0, b, BITMAP_NB_BITS, Pow2(k));
    forall i: nat
      ensures Bit(Or(b, Pow2(k)), i) <==> Bit(b, i) || i == k
    {
      BitOr(b, Pow2(k), i);
      BitOne(k, i);
    }
  }

  /** Clearing a bit. */
  lemma AndNotOne(b: nat, k: nat)
    requires k < BITMAP_NB_BITS && b <= AllOnes()
    ensures Pow2(k) <= AllOnes() && And(b, Not(Pow2(k))) <= AllOnes()
    ensures forall i: nat :: Bit(And(b, Not(Pow2(k))), i) <==> Bit(b, i) && i != k
  {
    OneFits(k);
    AndFits(b, Not(Pow2(k)));
    forall i: nat
      ensures Bit(And(b, Not(Pow2(k))), i) <==> Bit(b, i) && i != k
    {
      BitAnd(b, Not(Pow2(k)), i);
      BitOne(k, i);
      if i < BITMAP_NB_BITS {
        BitComplement(Pow2(k), BITMAP_NB_BITS, i);
      } else {
        BitAbove(b, BITMAP_NB_BITS, i);
      }
    }
  }

  /** The offset of index `i` when exactly the bit `k` is added to the bitmap. */
  lemma OffsetPlus(a: nat, b: nat, k: nat, i: nat)
    requires !Bit(a, k) && forall j: nat :: Bit(b, j) <==> Bit(a, j) || j == k
    ensures OffsetOf(b, i) == OffsetOf(a, i) + if k < i then 1 else 0
  {
    RankIsCount(a, i);
    RankIsCount(b, i);
    CountPlus(a, b, k, i);
  }

  lemma PopPlus(a: nat, b: nat, k: nat)
    requires a <= AllOnes() && b <= AllOnes() && k < BITMAP_NB_BITS
    requires !Bit(a, k) && forall j: nat :: Bit(b, j) <==> Bit(a, j) || j == k
    ensures PopCount(b) == PopCount(a) + 1
  {
    PopIsCount(a, BITMAP_NB_BITS);
    PopIsCount(b, BITMAP_NB_BITS);
    CountPlus(a, b, k, BITMAP_NB_BITS);
  }

  lemma OffsetOrder(b: nat, i: nat, k: nat)
    ensures i < k && Bit(b, i) ==> OffsetOf(b, i) < OffsetOf(b, k)
    ensures i <= k ==> OffsetOf(b, i) <= OffsetOf(b, k)
  {
    RankIsCount(b, i);
    RankIsCount(b, k);
    if i <= k {
      CountMonotonic(b, i, k);
    }
  }

  lemma SetValid<V>(a: Sparse<V>, k: nat, v: V)
    requires a.Valid() && k < BITMAP_NB_BITS && !a.HasValue(k)
    ensures a.Set(k, v).Valid()
  {
    a.OffsetInRange(k);
    OrOne(a.vals, k);
    AndNotOne(a.deleted, k);
    PopPlus(a.vals, a.Set(k, v).vals, k);
  }

  lemma SetSlot<V>(a: Sparse<V>, k: nat, v: V, i: nat)
    requires a.Valid() && k < BITMAP_NB_BITS && !a.HasValue(k) && i < BITMAP_NB_BITS && a.Set(k, v).Valid()
    ensures a.Set(k, v).SlotOf(i) == if i == k then Present(v) else a.SlotOf(i)
  {
    var b := a.Set(k, v);
    a.OffsetInRange(k);
    OrOne(a.vals, k);
    AndNotOne(a.deleted, k);
    OffsetPlus(a.vals, b.vals, k, i);
    if b.HasValue(i) {
      a.OffsetInRange(i);
      b.OffsetInRange(i);
      OffsetOrder(a.vals, i, k);
      OffsetOrder(a.vals, k, i);
    }
  }

  /** `set` changes the one bucket and no other. */
  lemma SetSlots<V>(a: Sparse<V>, k: nat, v: V)
    requires a.Valid() && k < BITMAP_NB_BITS && !a.HasValue(k)
    ensures a.Set(k, v).Valid()
    ensures forall i :: 0 <= i < BITMAP_NB_BITS ==> a.Set(k, v).SlotOf(i) == if i == k then Present(v) else a.SlotOf(i)
  {
    SetValid(a, k, v);
    forall i | 0 <= i < BITMAP_NB_BITS
      ensures a.Set(k, v).SlotOf(i) == if i == k then Present(v) else a.SlotOf(i)
    {
      SetSlot(a, k, v, i);
    }
  }

  lemma EraseValid<V>(a: Sparse<V>, k: nat)
    requires a.Valid() && k < BITMAP_NB_BITS && a.HasValue(k)
    ensures a.Erase(k).Valid()
  {
    a.OffsetInRange(k);
    AndNotOne(a.vals, k);
    OrOne(a.deleted, k);
    PopPlus(a.Erase(k).vals, a.vals, k);
  }

  lemma EraseSlot<V>(a: Sparse<V>, k: nat, i: nat)
    requires a.Valid() && k < BITMAP_NB_BITS && a.HasValue(k) && i < BITMAP_NB_BITS && a.Erase(k).Valid()
    ensures a.Erase(k).SlotOf(i) == if i == k then Deleted else a.SlotOf(i)
  {
    var b := a.Erase(k);
    a.OffsetInRange(k);
    AndNotOne(a.vals, k);
    OrOne(a.deleted, k);
    OffsetPlus(b.vals, a.vals, k, i);
    if b.HasValue(i) {
      a.OffsetInRange(i);
      b.OffsetInRange(i);
      OffsetOrder(a.vals, i, k);
      OffsetOrder(a.vals, k, i);
    }
  }

  /** `erase` leaves a tombstone in the one bucket and changes no other. */
  lemma EraseSlots<V>(a: Sparse<V>, k: nat)
    requires a.Valid() && k < BITMAP_NB_BITS && a.HasValue(k)
    ensures a.Erase(k).Valid()
    ensures forall i :: 0 <= i < BITMAP_NB_BITS ==> a.Erase(k).SlotOf(i) == if i == k then Deleted else a.SlotOf(i)
  {
    EraseValid(a, k);
    forall i | 0 <= i < BITMAP_NB_BITS
      ensures a.Erase(k).SlotOf(i) == if i == k then Deleted else a.SlotOf(i)
    {
      EraseSlot(a, k, i);
    }
  }

  /** `offset_to_index`: walk the bitmap from its low end to the one with the given rank. */
  method OffsetToIndex(vals: nat, offset: nat) returns (index: nat)
    requires offset < PopCount(vals)
    ensures Bit(vals, index) && OffsetOf(vals, index) == offset
    ensures forall i: nat :: i < index && Bit(vals, i) ==> OffsetOf(vals, i) < offset
    ensures forall i: nat :: i > index ==> OffsetOf(vals, i) > offset
  {
    var bitmap, nbOnes := vals, 0;
    index := 0;
    while bitmap != 0
      invariant nbOnes <= offset && bitmap == Shr(vals, index)
      invariant nbOnes == Count(vals, index) && PopCount(bitmap) == PopCount(vals) - nbOnes
    {
      LowBit(vals, index);
      if bitmap % 2 == 1 {
        if nbOnes == offset {
          RankIsCount(vals, index);
          OffsetsAround(vals, index);
          return;
        }
        nbOnes := nbOnes + 1;
      }
      DivDiv(vals, index, 1);
      index := index + 1;
      bitmap := Shr(bitmap, 1);
    }
  }

  lemma OffsetsAround(vals: nat, index: nat)
    requires Bit(vals, index)
    ensures forall i: nat :: i < index && Bit(vals, i) ==> OffsetOf(vals, i) < OffsetOf(vals, index)
    ensures forall i: nat :: i > index ==> OffsetOf(vals, i) > OffsetOf(vals, index)
  {
    forall i: nat
      ensures i < index && Bit(vals, i) ==> OffsetOf(vals, i) < OffsetOf(vals, index)
      ensures i > index ==> OffsetOf(vals, i) > OffsetOf(vals, index)
    {
      OffsetOrder(vals, i, index);
      OffsetOrder(vals, index, i);
    }
  }

  /** The low bit of a shifted word. */
  lemma {:induction false} LowBit(b: nat, i: nat)
    ensures Shr(b, i) % 2 == 1 <==> Bit(b, i)
    decreases i
  {
    BitHalf(b, i);
    if i > 0 {
      HalveFirst(b, i);
      LowBit(b / 2, i - 1);
    }
  }

  lemma OffsetStep(vals: nat, u: nat)
    requires Bit(vals, u)
    ensures OffsetOf(vals, u + 1) == OffsetOf(vals, u) + 1
  {
    RankIsCount(vals, u);
    RankIsCount(vals, u + 1);
  }

  /** Every offset has an index. */
  lemma {:induction false} IndexExists(vals: nat, offset: nat) returns (u: nat)
    requires offset < PopCount(vals)
    ensures Bit(vals, u) && OffsetOf(vals, u) == offset
  {
    var n := WordFits(vals);
    PopIsCount(vals, n);
    u := IndexBelow(vals, offset, n);
    RankIsCount(vals, u);
  }

  lemma {:induction false} WordFits(b: nat) returns (n: nat)
    ensures b < Pow2(n)
  {
    if b == 0 {
      n := 0;
    } else {
      n := WordFits(b / 2);
      n := n + 1;
    }
  }

  lemma {:induction false} IndexBelow(vals: nat, offset: nat, n: nat) returns (u: nat)
    requires offset < Count(vals, n)
    ensures Bit(vals, u) && Count(vals, u) == offset
  {
    if Bit(vals, n - 1) && Count(vals, n - 1) == offset {
      u := n - 1;
    } else {
      u := IndexBelow(vals, offset, n - 1);
    }
  }

  /** How many places a full value array grows by, at medium sparsity. */
  const CAPACITY_GROWTH_STEP: nat := 4

  /** The mutable `sparse_array`: `data` has room for more values than there are, and they are
      shifted in place. */
  class SparseBuffer<V(0)> {
    var data: array<V>
    var vals: nat
    var deleted: nat
    var nbElements: nat

    ghost predicate Valid()
      reads this, data
    {
      nbElements <= data.Length && View().Valid()
    }

    ghost function View(): Sparse<V>
      requires nbElements <= data.Length
      reads this, data
    {
      Sparse(data[..nbElements], vals, deleted)
    }

    constructor ()
      ensures Valid() && View() == Sparse([], 0, 0) && fresh(data)
    {
      data := new V[0];
      vals, deleted, nbElements := 0, 0, 0;
      new;
      assert forall i: nat :: !Bit(0, i);
      assert 0 <= AllOnes();
    }

    method ShiftUp(offset: nat)
      requires offset <= nbElements < data.Length
      modifies data
      ensures data[..offset] == old(data[..offset]) && data[offset + 1..nbElements + 1] == old(data[offset..nbElements])
    {
      var i := nbElements;
      while i > offset
        invariant offset <= i <= nbElements
        invariant data[..i] == old(data[..i]) && data[i + 1..nbElements + 1] == old(data[i..nbElements])
      {
        data[i] := data[i - 1];
        assert data[i..nbElements + 1] == [data[i]] + data[i + 1..nbElements + 1];
        assert old(data[i - 1..nbElements]) == [old(data[i - 1])] + old(data[i..nbElements]);
        i := i - 1;
      }
    }

    /** Copy the values to a larger array, with `v` at the offset. */
    method CopyWith(offset: nat, v: V) returns (newData: array<V>)
      requires offset <= nbElements == data.Length
      ensures fresh(newData) && newData.Length == nbElements + CAPACITY_GROWTH_STEP
      ensures newData[..nbElements + 1] == data[..offset] + [v] + data[offset..nbElements]
    {
      newData := new V[nbElements + CAPACITY_GROWTH_STEP];
      newData[offset] := v;
      for i := 0 to offset
        invariant newData[..i] == data[..i] && newData[offset] == v
      {
        newData[i] := data[i];
      }
      for i := offset to nbElements
        invariant newData[..offset] == data[..offset] && newData[offset] == v
        invariant newData[offset + 1..i + 1] == data[offset..i]
      {
        newData[i + 1] := data[i];
      }
      assert newData[..nbElements + 1] == newData[..offset] + [v] + newData[offset + 1..nbElements + 1];
    }

    /** `insert_at_offset`: shift the values after the offset up in place while there is room, else
        move everything to a larger array. */
    method InsertAtOffset(offset: nat, v: V)
      requires offset <= nbElements <= data.Length
      modifies this`data, data
      ensures data == old(data) || fresh(data)
      ensures nbElements + 1 <= data.Length
      ensures data[..nbElements + 1] == old(data[..offset]) + [v] + old(data[offset..nbElements])
    {
      if nbElements < data.Length {
        ShiftUp(offset);
        data[offset] := v;
        assert data[..nbElements + 1] == data[..offset] + [v] + data[offset + 1..nbElements + 1];
      } else {
        data := CopyWith(offset, v);
      }
    }

    /** `erase_at_offset`: shift the values after the offset down in place. */
    method EraseAtOffset(offset: nat)
      requires offset < nbElements <= data.Length
      modifies data
      ensures data[..nbElements - 1] == old(data[..offset]) + old(data[offset + 1..nbElements])
    {
      for i := offset + 1 to nbElements
        invariant data[..i - 1] == old(data[..offset]) + old(data[offset + 1..i])
        invariant data[i..nbElements] == old(data[i..nbElements])
      {
        assert old(data[offset + 1..i + 1]) == old(data[offset + 1..i]) + [old(data[i])];
        assert data[i] == old(data[i]) by { assert data[i..nbElements][0] == old(data[i..nbElements])[0]; }
        data[i - 1] := data[i];
        assert data[..i] == data[..i - 1] + [data[i - 1]];
      }
    }

    /** `set(index, value)` of a bucket without a value. */
    method Set(i: nat, v: V)
      requires Valid() && i < BITMAP_NB_BITS && !View().HasValue(i)
      modifies this, data
      ensures Valid() && View() == old(View().Set(i, v)) && (data == old(data) || fresh(data))
    {
      hide OffsetOf, PopCount, Pow2, Or, And, Sparse.HasValue;
      View().OffsetInRange(i);
      SetValid(View(), i, v);
      OneFits(i);
      InsertAtOffset(OffsetOf(vals, i), v);
      vals := Or(vals, Pow2(i));
      deleted := And(deleted, Not(Pow2(i)));
      nbElements := nbElements + 1;
    }

    /** `erase(position, index)` */
    method Erase(i: nat)
      requires Valid() && i < BITMAP_NB_BITS && View().HasValue(i)
      modifies this, data
      ensures Valid() && View() == old(View().Erase(i)) && data == old(data)
    {
      View().OffsetInRange(i);
      EraseValid(View(), i);
      OneFits(i);
      EraseAtOffset(OffsetOf(vals, i));
      vals := And(vals, Not(Pow2(i)));
      deleted := Or(deleted, Pow2(i));
      nbElements := nbElements - 1;
    }
  }
}
