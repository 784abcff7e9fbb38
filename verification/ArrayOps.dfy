/** The operations that change an array value in place, on its map of indices. */
module ArrayOps {
  import opened JsonValue

  // What an index of an array holds: a value, or nothing where an index was skipped.
  datatype Slot = Present(v: Value) | Missing

  predicate IndexKeys(es: Entries) {
    forall k :: 0 <= k < |es| ==> es[k].key.Index?
  }

  // The map of an array value.
  predicate ArrayMap(es: Entries) {
    Sorted(es) && IndexKeys(es)
  }

  function SlotAt(es: Entries, i: nat): Slot {
    if Has(es, Index(i)) then Present(Get(es, Index(i))) else Missing
  }

  /** An array, possibly with gaps, as the sequence of its slots. */
  function Slots(es: Entries): (vs: seq<Slot>)
    ensures |vs| == ArraySize(es)
    ensures forall k :: 0 <= k < |vs| ==> vs[k] == SlotAt(es, k)
  {
    seq(ArraySize(es), k requires 0 <= k => SlotAt(es, k))
  }

  // An index present in the map is below its size, and the last one is present.
  lemma SizeBounds(es: Entries, i: nat)
    requires ArrayMap(es)
    ensures Has(es, Index(i)) ==> i < ArraySize(es)
    ensures ArraySize(es) > 0 ==> Has(es, Index(ArraySize(es) - 1))
  {
    if es != [] {
      FoundAt(es, |es| - 1);
    }
  }

  // The slots of a map, recognized.
  lemma SlotsAre(es: Entries, vs: seq<Slot>)
    requires ArrayMap(es) && (vs == [] || vs[|vs| - 1].Present?)
    requires forall k: nat :: SlotAt(es, k) == if k < |vs| then vs[k] else Missing
    ensures Slots(es) == vs
  {
    hide Sorted, IndexKeys, Has, Get;
    SizeAtMost(es, |vs|);
    if vs != [] {
      assert SlotAt(es, |vs| - 1).Present?;
      SizeBounds(es, |vs| - 1);
    }
  }

  lemma SizeAtMost(es: Entries, n: nat)
    requires ArrayMap(es) && forall k: nat :: k >= n ==> SlotAt(es, k) == Missing
    ensures ArraySize(es) <= n
  {
    hide Sorted, IndexKeys, Has, Get;
    SizeBounds(es, 0);
    if ArraySize(es) > 0 {
      var last := SlotAt(es, ArraySize(es) - 1);
    }
  }

  lemma PastTheEnd(es: Entries, k: nat)
    requires ArrayMap(es) && k >= ArraySize(es)
    ensures SlotAt(es, k) == Missing
  {
    SizeBounds(es, k);
  }

  /** The slots say everything about an array: equal slots, equal maps. */
  lemma {:induction false} SlotsDetermine(xs: Entries, ys: Entries)
    requires ArrayMap(xs) && ArrayMap(ys) && Slots(xs) == Slots(ys)
    ensures xs == ys
  {
    hide Sorted, KeyLess, Has, Get, LowerBound, Erase, Trimmed;
    if xs != [] && ys != [] {
      var m, n := |xs| - 1, |ys| - 1;
      LastEntry(xs);
      LastEntry(ys);
      LastErased(xs);
      LastErased(ys);
      SlotsDetermine(xs[..m], ys[..n]);
      assert xs == xs[..m] + [xs[m]] && ys == ys[..n] + [ys[n]];
    }
  }

  // The last entry is the last slot.
  lemma LastEntry(es: Entries)
    requires ArrayMap(es) && es != []
    ensures ArraySize(es) > 0 && es[|es| - 1].key == Index(ArraySize(es) - 1)
    ensures Slots(es)[ArraySize(es) - 1] == Present(es[|es| - 1].val)
  {
    hide Sorted, LowerBound, KeyLess;
    FoundAt(es, |es| - 1);
    assert Slots(es)[ArraySize(es) - 1] == SlotAt(es, ArraySize(es) - 1);
  }

  // Slots without those missing at the end.
  function Trimmed(vs: seq<Slot>): seq<Slot> {
    if vs == [] || vs[|vs| - 1].Present? then vs else Trimmed(vs[..|vs| - 1])
  }

  lemma {:induction false} TrimmedIs(vs: seq<Slot>, n: nat)
    requires n <= |vs| && (n > 0 ==> vs[n - 1].Present?)
    requires forall k :: n <= k < |vs| ==> vs[k] == Missing
    ensures Trimmed(vs) == vs[..n]
  {
    if n < |vs| {
      TrimmedIs(vs[..|vs| - 1], n);
      assert vs[..|vs| - 1][..n] == vs[..n];
    } else {
      assert vs[..n] == vs;
    }
  }

  // Cutting an array off at n: exactly the slots below n stay.
  lemma CutSlots(es: Entries, r: Entries, n: nat)
    requires ArrayMap(es) && ArrayMap(r) && n <= ArraySize(es)
    requires forall k: nat :: SlotAt(r, k) == if k < n then SlotAt(es, k) else Missing
    ensures Slots(r) == Trimmed(Slots(es)[..n])
  {
    hide Sorted, IndexKeys, Has, Get, Trimmed;
    var m := ArraySize(r);
    SizeBounds(r, 0);
    if m > 0 {
      assert SlotAt(r, m - 1).Present?;
    }
    forall k | m <= k < n ensures Slots(es)[k] == Missing {
      PastTheEnd(r, k);
      assert SlotAt(r, k) == SlotAt(es, k);
    }
    TrimmedIs(Slots(es)[..n], m);
    assert Slots(r) == Slots(es)[..n][..m];
  }

  lemma LastEntryErased(es: Entries)
    requires ArrayMap(es) && es != []
    ensures ArraySize(es) > 0
    ensures Erase(es, Index(ArraySize(es) - 1)) == es[..|es| - 1] && ArrayMap(es[..|es| - 1])
  {
    hide KeyLess, LowerBound;
    FoundAt(es, |es| - 1);
  }

  // Erasing the last index.
  lemma LastErased(es: Entries)
    requires ArrayMap(es) && es != []
    ensures Erase(es, Index(ArraySize(es) - 1)) == es[..|es| - 1] && ArrayMap(es[..|es| - 1])
    ensures Slots(es[..|es| - 1]) == Trimmed(Slots(es)[..ArraySize(es) - 1])
  {
    hide Sorted, IndexKeys, Has, Get, Trimmed, LowerBound, Erase;
    var n, r := ArraySize(es), es[..|es| - 1];
    LastEntryErased(es);
    forall k: nat ensures SlotAt(r, k) == if k < n - 1 then SlotAt(es, k) else Missing {
      EraseThenGet(es, Index(n - 1), Index(k));
      if k >= n {
        PastTheEnd(es, k);
      }
    }
    CutSlots(es, r, n - 1);
  }

  // Writing --------------------------------------------------------------------------------------

  // The slots after slot i has been given a value.
  function Written(vs: seq<Slot>, i: nat, v: Value): seq<Slot> {
    if i < |vs| then vs[i := Present(v)] else vs + seq(i - |vs|, _ => Missing) + [Present(v)]
  }

  lemma PutKeepsMap(es: Entries, i: nat, v: Value)
    requires ArrayMap(es)
    ensures ArrayMap(Put(es, Index(i), v))
  {
    PutKeepsSorted(es, Index(i), v);
    hide KeyLess, Sorted, Has;
    var n := LowerBound(es, Index(i));
    assert forall k :: n <= k < |es| ==> es[k].key.Index?;
  }

  lemma LastPresent(es: Entries)
    requires ArrayMap(es) && ArraySize(es) > 0
    ensures Slots(es)[ArraySize(es) - 1].Present?
  {
    SizeBounds(es, 0);
  }

  lemma SlotsPut(es: Entries, i: nat, v: Value)
    requires ArrayMap(es)
    ensures ArrayMap(Put(es, Index(i), v)) && Slots(Put(es, Index(i), v)) == Written(Slots(es), i, v)
  {
    hide Has, Get, Sorted, IndexKeys;
    var r, vs := Put(es, Index(i), v), Written(Slots(es), i, v);
    PutKeepsMap(es, i, v);
    forall k: nat ensures SlotAt(r, k) == if k < |vs| then vs[k] else Missing {
      PutThenGet(es, Index(i), v, Index(k));
      if k >= ArraySize(es) {
        PastTheEnd(es, k);
      }
    }
    if ArraySize(es) > 0 {
      LastPresent(es);
    }
    SlotsAre(r, vs);
  }

  // operator[]: the element is created as a null value when it is missing.
  function Touched(es: Entries, i: nat): Entries {
    if Has(es, Index(i)) then es else Put(es, Index(i), NullValue)
  }

  // The value of a slot; null where there is none.
  function Elem(s: Slot): Value {
    if s.Present? then s.v else NullValue
  }

  function TouchedSlots(vs: seq<Slot>, i: nat): seq<Slot> {
    Written(vs, i, if i < |vs| then Elem(vs[i]) else NullValue)
  }

  lemma SlotsTouched(es: Entries, i: nat)
    requires ArrayMap(es)
    ensures ArrayMap(Touched(es, i)) && Slots(Touched(es, i)) == TouchedSlots(Slots(es), i)
  {
    hide Has, Get, Sorted, IndexKeys;
    SizeBounds(es, i);
    SlotsPut(es, i, NullValue);
    assert i < ArraySize(es) ==> Slots(es)[i] == SlotAt(es, i);
    if Has(es, Index(i)) {
      assert Slots(es)[i] == Present(Elem(Slots(es)[i]));
      assert Slots(es)[i := Slots(es)[i]] == Slots(es);
    }
  }

  // Every slot filled, with null where nothing was.
  function Filled(vs: seq<Slot>): (r: seq<Slot>)
    ensures |r| == |vs| && forall k :: 0 <= k < |vs| ==> r[k] == Present(Elem(vs[k]))
  {
    seq(|vs|, k requires 0 <= k < |vs| => Present(Elem(vs[k])))
  }

  // Resizing -------------------------------------------------------------------------------------

  // What resize leaves in the map: missing elements created, or indices erased one by one.
  function Grown(es: Entries, from: nat, end: nat): Entries
    decreases end - from
  {
    if from >= end then es else Grown(Touched(es, from), from + 1, end)
  }

  function Shrunk(es: Entries, from: nat, end: nat): Entries
    decreases end - from
  {
    if from >= end then es else Shrunk(Erase(es, Index(from)), from + 1, end)
  }

  function Resized(es: Entries, newSize: nat): Entries {
    if newSize == 0 then []
    else if newSize > ArraySize(es) then Grown(es, ArraySize(es), newSize)
    else Shrunk(es, newSize, ArraySize(es))
  }

  lemma {:induction false} SlotsGrown(es: Entries, end: nat)
    requires ArrayMap(es) && ArraySize(es) <= end
    ensures ArrayMap(Grown(es, ArraySize(es), end))
    ensures Slots(Grown(es, ArraySize(es), end)) == Slots(es) + seq(end - ArraySize(es), _ => Present(NullValue))
    decreases end - ArraySize(es)
  {
    hide Touched, Sorted, IndexKeys;
    var n := ArraySize(es);
    if n < end {
      SlotsTouched(es, n);
      SlotsGrown(Touched(es, n), end);
      assert Slots(es) + [Present(NullValue)] + seq(end - n - 1, _ => Present(NullValue))
          == Slots(es) + seq(end - n, _ => Present(NullValue));
    } else {
      assert Slots(es) + seq(0, _ => Present(NullValue)) == Slots(es);
    }
  }

  // Erasing the indices from `from` up removes exactly those.
  lemma {:induction false} ShrunkGet(es: Entries, from: nat, end: nat, q: CZString)
    requires ArrayMap(es)
    ensures ArrayMap(Shrunk(es, from, end))
    ensures Has(Shrunk(es, from, end), q) <==> Has(es, q) && !(q.Index? && from <= q.i < end)
    ensures Get(Shrunk(es, from, end), q) == if q.Index? && from <= q.i < end then NullValue else Get(es, q)
    decreases end - from
  {
    hide KeyLess, LowerBound;
    if from < end {
      EraseKeepsSorted(es, Index(from));
      EraseThenGet(es, Index(from), q);
      ShrunkGet(Erase(es, Index(from)), from + 1, end, q);
    }
  }

  lemma SlotsShrunk(es: Entries, n: nat)
    requires ArrayMap(es) && n <= ArraySize(es)
    ensures ArrayMap(Shrunk(es, n, ArraySize(es)))
    ensures Slots(Shrunk(es, n, ArraySize(es))) == Trimmed(Slots(es)[..n])
  {
    hide Has, Get, Shrunk, Trimmed;
    var r := Shrunk(es, n, ArraySize(es));
    ShrunkGet(es, n, ArraySize(es), Index(0));
    forall k: nat ensures SlotAt(r, k) == if k < n then SlotAt(es, k) else Missing {
      ShrunkGet(es, n, ArraySize(es), Index(k));
      if k >= ArraySize(es) {
        PastTheEnd(es, k);
      }
    }
    CutSlots(es, r, n);
  }

  /** resize on any array: its slots cut off and then trimmed at the end, or extended with nulls. */
  lemma SlotsResized(es: Entries, newSize: nat)
    requires ArrayMap(es)
    ensures ArrayMap(Resized(es, newSize))
    ensures Slots(Resized(es, newSize)) ==
              if newSize <= ArraySize(es) then Trimmed(Slots(es)[..newSize])
              else Slots(es) + seq(newSize - ArraySize(es), _ => Present(NullValue))
  {
    hide Sorted, IndexKeys, Shrunk, Grown;
    if newSize == 0 {
      NoSlots();
    } else if newSize > ArraySize(es) {
      SlotsGrown(es, newSize);
    } else {
      SlotsShrunk(es, newSize);
    }
  }

  lemma NoSlots()
    ensures ArrayMap([]) && Slots([]) == []
  {
  }

  /** The size assertion at the end of resize, for every array: shrinking to newSize > 0 leaves an
      array of that size exactly when its last element was really present. */
  lemma ShrinkAssertion(es: Entries, newSize: nat)
    requires ArrayMap(es) && 0 < newSize <= ArraySize(es)
    ensures ArraySize(Resized(es, newSize)) == newSize <==> Has(es, Index(newSize - 1))
  {
    hide Sorted, IndexKeys, Shrunk, Grown, Resized;
    SlotsResized(es, newSize);
    TrimmedShorter(Slots(es)[..newSize]);
    assert Slots(es)[newSize - 1] == SlotAt(es, newSize - 1);
  }

  lemma {:induction false} TrimmedShorter(vs: seq<Slot>)
    ensures |Trimmed(vs)| <= |vs|
    ensures |Trimmed(vs)| == |vs| <==> vs == [] || vs[|vs| - 1].Present?
  {
    if vs != [] && vs[|vs| - 1].Missing? {
      TrimmedShorter(vs[..|vs| - 1]);
    }
  }

  // So on a sparse array it can fail: indices 0 and 5, shrunk to 3, leave size 1.
  lemma SparseShrinkFails(a: Value, b: Value)
    ensures var es := [Entry(Index(0), a), Entry(Index(5), b)];
            ArrayMap(es) && ArraySize(es) == 6 && ArraySize(Resized(es, 3)) == 1
  {
    hide Shrunk, Trimmed;
    var es := [Entry(Index(0), a), Entry(Index(5), b)];
    SlotsResized(es, 3);
    TrimmedIs(Slots(es)[..3], 1);
  }

  // Arrays without gaps --------------------------------------------------------------------------

  /** The arrays the reader builds are exactly those with every slot present. */
  lemma DenseSlots(es: Entries)
    requires ArrayMap(es)
    ensures Dense(es) <==> forall k :: 0 <= k < ArraySize(es) ==> Slots(es)[k].Present?
  {
    hide Sorted, IndexKeys, Has, Get;
    if Dense(es) {
      DenseIsSorted(es);
    }
    if forall k :: 0 <= k < ArraySize(es) ==> Slots(es)[k].Present? {
      forall k | 0 <= k < ArraySize(es) ensures SlotAt(es, k).Present? {
        assert Slots(es)[k].Present?;
      }
      AllPresent(es, |es|);
    }
  }

  // With every slot present the entries stand at their indices.
  lemma {:induction false} AllPresent(es: Entries, n: nat)
    requires ArrayMap(es) && n <= |es| && forall k :: 0 <= k < ArraySize(es) ==> SlotAt(es, k).Present?
    ensures forall k :: 0 <= k < n ==> es[k].key == Index(k)
  {
    if n > 0 {
      AllPresent(es, n - 1);
      var m := n - 1;
      FoundAt(es, |es| - 1);
      assert es[m].key.i <= ArraySize(es) - 1;
      assert SlotAt(es, m).Present?;
    }
  }

  /** ... and for them resize is truncation or padding with nulls, and the assertion holds. */
  lemma ResizedDense(es: Entries, newSize: nat)
    requires Dense(es)
    ensures Dense(Resized(es, newSize)) && |Resized(es, newSize)| == newSize
    ensures forall k :: 0 <= k < newSize ==>
              Resized(es, newSize)[k].val == if k < |es| then es[k].val else NullValue
  {
    hide Shrunk, Grown, Resized, Has, Get, Sorted, IndexKeys;
    var r, vs := Resized(es, newSize), Slots(es);
    DenseMap(es);
    DenseSlots(es);
    DenseValues(es);
    SlotsResized(es, newSize);
    if newSize <= |es| {
      TrimmedIs(vs[..newSize], newSize);
    }
    assert ArraySize(r) == newSize;
    assert forall k :: 0 <= k < newSize ==> Slots(r)[k] == Present(if k < |es| then es[k].val else NullValue);
    DenseSlots(r);
    DenseValues(r);
  }

  lemma DenseMap(es: Entries)
    requires Dense(es)
    ensures ArrayMap(es) && ArraySize(es) == |es|
  {
    DenseIsSorted(es);
  }

  lemma DenseValues(es: Entries)
    requires Dense(es)
    ensures ArraySize(es) == |es| && forall k :: 0 <= k < |es| ==> Slots(es)[k] == Present(es[k].val)
  {
    hide Has, Get, Sorted;
    DenseIsSorted(es);
  }
}
