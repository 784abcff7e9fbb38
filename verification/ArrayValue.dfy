/** A Value used as an array: the methods of the source, on its map, in place. */
module ArrayValue {
  import opened JsonValue
  import opened ArrayOps

  class JsonArray {
    var p: Payload  // null until first used as an array

    ghost predicate Valid()
      reads this
    {
      p.Null? || (p.Arr? && ArrayMap(p.entries))
    }

    // The map, empty while the value is null.
    function Map(): Entries
      reads this
    {
      if p.Arr? then p.entries else []
    }

    // The array as a sequence of slots, some of which may be missing.
    ghost function Contents(): seq<Slot>
      reads this
    {
      Slots(Map())
    }

    constructor ()
      ensures Valid() && Contents() == []
    {
      p := Null;
    }

    /** size: every index present is below it and, unless it is 0, the last index below it is present. */
    method Size() returns (n: nat)
      requires Valid()
      ensures n == ArraySize(Map()) == |Contents()|
      ensures forall i: nat :: Has(Map(), Index(i)) ==> i < n
      ensures n > 0 ==> Has(Map(), Index(n - 1))
    {
      n := if p.Null? || p.entries == [] then 0 else p.entries[|p.entries| - 1].key.i + 1;
      NoSlots();
      SizeBounds(Map(), 0);
      forall i: nat ensures Has(Map(), Index(i)) ==> i < n {
        SizeBounds(Map(), i);
      }
    }

    // operator[](ArrayIndex): the element, created as null if it is missing.
    method At(index: nat) returns (v: Value)
      requires Valid()
      modifies this
      ensures Valid() && p == Arr(Touched(old(Map()), index))
      ensures Contents() == TouchedSlots(old(Contents()), index) && Contents()[index] == Present(v)
      ensures v == if index < |old(Contents())| then Elem(old(Contents())[index]) else NullValue
    {
      hide Sorted, IndexKeys, Has, Get, Put;
      NoSlots();
      SlotsTouched(Map(), index);
      if p.Null? {
        p := Arr([]);
      }
      if !Has(p.entries, Index(index)) {
        p := Arr(Put(p.entries, Index(index), NullValue));
      }
      v := Get(p.entries, Index(index));
      assert Slots(p.entries)[index] == SlotAt(p.entries, index);
    }

    // An assignment through the reference operator[] returns.
    method Assign(index: nat, v: Value)
      requires Valid()
      modifies this
      ensures Valid() && p == Arr(Put(old(Map()), Index(index), v))
      ensures Contents() == Written(old(Contents()), index, v)
    {
      hide Sorted, IndexKeys, Has, Get, Put;
      NoSlots();
      SlotsPut(Map(), index, v);
      if p.Null? {
        p := Arr([]);
      }
      p := Arr(Put(p.entries, Index(index), v));
    }

    method Grow(from: nat, newSize: nat)
      requires Valid() && p.Arr?
      modifies this
      ensures Valid() && p == Arr(Grown(old(Map()), from, newSize))
    {
      hide Put, Has, Get;
      ghost var es := Map();
      ghost var goal := Grown(es, from, newSize);
      var i := from;
      while i < newSize
        invariant from <= i && (i <= newSize || i == from) && Valid() && p == Arr(es)
        invariant GrowsTo(es, i, newSize, goal)
      {
        GrowStep(es, Touched(es, i), i, newSize, goal);
        es := Touched(es, i);
        var _ := At(i);
        i := i + 1;
      }
    }

    method Shrink(newSize: nat, oldSize: nat)
      requires Valid() && p.Arr?
      modifies this
      ensures Valid() && p == Arr(Shrunk(old(Map()), newSize, oldSize))
    {
      ghost var goal := Shrunk(Map(), newSize, oldSize);
      var i := newSize;
      while i < oldSize
        invariant newSize <= i && (i <= oldSize || i == newSize) && Valid() && p.Arr?
        invariant Shrunk(Map(), i, oldSize) == goal
      {
        ShrunkGet(p.entries, i, i + 1, Index(i));
        p := Arr(Erase(p.entries, Index(i)));
        i := i + 1;
      }
    }

    /** resize: the slots cut off and trimmed at the end, or nulls added; `sized` is the assertion
        the source makes when it shrinks. */
    method Resize(newSize: nat) returns (sized: bool)
      requires Valid()
      modifies this
      ensures Valid() && p == Arr(Resized(old(Map()), newSize))
      ensures Contents() == if newSize <= |old(Contents())| then Trimmed(old(Contents())[..newSize])
                            else old(Contents()) + seq(newSize - |old(Contents())|, _ => Present(NullValue))
      ensures var was := old(Contents());
              sized <==> newSize == 0 || newSize > |was| || was[newSize - 1].Present?
    {
      hide Sorted, IndexKeys, Has, Get, Put, Shrunk, Grown, Trimmed;
      ghost var was := Map();
      NoSlots();
      var oldSize := Size();
      SlotsResized(was, newSize);
      if p.Null? {
        p := Arr([]);
      }
      sized := true;
      if newSize == 0 {
        p := Arr([]);
      } else if newSize > oldSize {
        Grow(oldSize, newSize);
      } else {
        ShrinkAssertion(was, newSize);
        assert Slots(was)[newSize - 1] == SlotAt(was, newSize - 1);
        Shrink(newSize, oldSize);
        var size := Size();
        sized := size == newSize;
      }
    }

    /** append, on any array: one more slot, behind the last one present. */
    method Append(v: Value)
      requires Valid()
      modifies this
      ensures Valid() && Contents() == old(Contents()) + [Present(v)]
    {
      hide Sorted, IndexKeys, Has, Put;
      var size := Size();
      Assign(size, v);
      assert old(Contents()) + seq(0, _ => Missing) == old(Contents());
    }

    // (*this)[i] = std::move((*this)[i - 1]): the two elements are exchanged.
    method MoveUp(i: nat)
      requires Valid() && 0 < i <= |Contents()|
      modifies this
      ensures Valid() && Contents() == MovedUp(old(Contents()), i)
    {
      hide Sorted, IndexKeys, Has, Slots, Put, Touched, TouchedSlots, Written, ArraySize, MovedUp;
      ghost var vs := Contents();
      var below := At(i - 1);
      var above := At(i);
      Assign(i, below);
      Assign(i - 1, above);
      Exchanged(vs, i, below, above);
    }

    /** insert, on any array: the slots from `index` on move up, one swap at a time, and are all
        present afterwards; an index beyond the size changes nothing. */
    method Insert(index: nat, v: Value) returns (ok: bool)
      requires Valid()
      modifies this
      ensures Valid() && (ok <==> index <= |old(Contents())|) && (!ok ==> p == old(p))
      ensures ok ==> Contents() == old(Contents())[..index] + [Present(v)] + Filled(old(Contents())[index..])
    {
      hide Sorted, IndexKeys, Has, Slots, Put, GapAt, MovedUp, Filled, Written, ArraySize;
      var length := Size();
      if index > length {
        return false;
      }
      ghost var was, ws := Contents(), Contents();
      NoGapYet(was);
      var i := length;
      while i > index
        invariant index <= i <= length == |was| && Valid()
        invariant Contents() == ws && GapAt(was, ws, i)
      {
        GapMoves(was, ws, i);
        MoveUp(i);
        ws := MovedUp(ws, i);
        i := i - 1;
      }
      FillGap(was, ws, index, v);
      Assign(index, v);
      ok := true;
    }

    /** removeIndex, on any array: true exactly when the element is present; the later slots move
        down and are all present afterwards, and the last index is erased, with the gap before it if
        nothing moved. */
    method RemoveIndex(index: nat) returns (ok: bool, removed: Value)
      requires Valid()
      modifies this
      ensures var was := old(Contents());
              && Valid() && (ok <==> index < |was| && was[index].Present?) && (!ok ==> p == old(p))
              && (ok ==> was[index] == Present(removed)
                         && Contents() == Trimmed(was[..index] + Filled(was[index + 1..])))
    {
      hide Sorted, IndexKeys, Has, Slots, Get, Put, Trimmed, SlidTo, TouchedSlots, Written, Filled, ArraySize;
      ghost var was, ws := Contents(), Contents();
      removed := NullValue;
      NoSlots();
      PresentAt(Map(), index);
      if !p.Arr? || !Has(p.entries, Index(index)) {
        return false, removed;
      }
      removed := Get(p.entries, Index(index));
      var oldSize := Size();
      NotSlidYet(was, index);
      var i := index;
      while i < oldSize - 1
        invariant index <= i < oldSize == |was| && Valid() && p.Arr?
        invariant Contents() == ws && SlidTo(was, ws, index, i)
      {
        SlideOne(was, ws, index, i);
        var next := At(i + 1);
        Assign(i, next);
        ws := Written(TouchedSlots(ws, i + 1), i, Elem(ws[i + 1]));
        i := i + 1;
      }
      SlideEnd(was, ws, index);
      EraseTop();
      ok := true;
    }

    // The end of removeIndex: erase the last index.
    method EraseTop()
      requires Valid() && p.Arr? && Contents() != []
      modifies this
      ensures Valid() && Contents() == Trimmed(old(Contents())[..|old(Contents())| - 1])
    {
      hide Sorted, IndexKeys, Has, Trimmed, Erase;
      var size := Size();
      LastErased(p.entries);
      p := Arr(Erase(p.entries, Index(size - 1)));
    }
  }

  lemma PresentAt(es: Entries, i: nat)
    requires ArrayMap(es)
    ensures Has(es, Index(i)) <==> i < |Slots(es)| && Slots(es)[i].Present?
    ensures Has(es, Index(i)) ==> Slots(es)[i] == Present(Get(es, Index(i)))
  {
    hide Sorted, IndexKeys, Has, Get;
    SizeBounds(es, i);
    assert i < |Slots(es)| ==> Slots(es)[i] == SlotAt(es, i);
  }

  // One step of insert, and the state it keeps: everything from i on has moved up by one.

  ghost function MovedUp(vs: seq<Slot>, i: nat): seq<Slot>
    requires 0 < i <= |vs|
  {
    if i < |vs| then vs[i := Present(Elem(vs[i - 1]))][i - 1 := Present(Elem(vs[i]))]
    else vs[i - 1 := Present(NullValue)] + [Present(Elem(vs[i - 1]))]
  }

  lemma Exchanged(vs: seq<Slot>, i: nat, below: Value, above: Value)
    requires 0 < i <= |vs| && below == Elem(vs[i - 1])
    requires var us := TouchedSlots(vs, i - 1); above == if i < |us| then Elem(us[i]) else NullValue
    ensures Written(Written(TouchedSlots(TouchedSlots(vs, i - 1), i), i, below), i - 1, above) == MovedUp(vs, i)
  {
    var us := TouchedSlots(vs, i - 1);
    if i == |vs| {
      assert us + seq(0, _ => Missing) == us;
    }
  }

  ghost predicate GapAt(vs: seq<Slot>, ws: seq<Slot>, i: nat) {
    && i <= |vs|
    && if i == |vs| then ws == vs
       else |ws| == |vs| + 1 && ws[..i] == vs[..i] && ws[i + 1..] == Filled(vs[i..])
  }

  lemma NoGapYet(vs: seq<Slot>)
    ensures GapAt(vs, vs, |vs|)
  {
  }

  lemma GapMoves(vs: seq<Slot>, ws: seq<Slot>, i: nat)
    requires 0 < i && GapAt(vs, ws, i)
    ensures i <= |ws| && GapAt(vs, MovedUp(ws, i), i - 1)
  {
    var us := MovedUp(ws, i);
    forall k | 0 <= k < |vs| - i + 1 ensures us[i..][k] == Filled(vs[i - 1..])[k] {
      if k > 0 && i < |vs| {
        assert ws[i + 1..][k - 1] == Filled(vs[i..])[k - 1];
      }
    }
  }

  // The state removeIndex keeps: the slots from index + 1 to i have moved down by one. (What slot
  // i holds no longer matters.)
  ghost predicate SlidTo(vs: seq<Slot>, ws: seq<Slot>, index: nat, i: nat) {
    && |ws| == |vs| && index <= i < |vs|
    && (forall k :: 0 <= k < index || i < k < |vs| ==> ws[k] == vs[k])
    && (forall k :: index <= k < i ==> ws[k] == Present(Elem(vs[k + 1])))
  }

  lemma NotSlidYet(vs: seq<Slot>, index: nat)
    requires index < |vs|
    ensures SlidTo(vs, vs, index, index)
  {
  }

  lemma SlideOne(vs: seq<Slot>, ws: seq<Slot>, index: nat, i: nat)
    requires SlidTo(vs, ws, index, i) && i + 1 < |vs|
    ensures |ws| == |vs| && SlidTo(vs, Written(TouchedSlots(ws, i + 1), i, Elem(ws[i + 1])), index, i + 1)
  {
  }

  lemma SlideEnd(vs: seq<Slot>, ws: seq<Slot>, index: nat)
    requires index < |vs| && SlidTo(vs, ws, index, |vs| - 1)
    ensures |ws| == |vs| && ws[..|ws| - 1] == vs[..index] + Filled(vs[index + 1..])
  {
  }

  ghost predicate GrowsTo(es: Entries, i: nat, end: nat, goal: Entries) {
    Grown(es, i, end) == goal
  }

  lemma GrowStep(before: Entries, after: Entries, i: nat, end: nat, goal: Entries)
    requires i < end && GrowsTo(before, i, end, goal) && after == Touched(before, i)
    ensures GrowsTo(after, i + 1, end, goal)
  {
  }

  lemma FillGap(vs: seq<Slot>, ws: seq<Slot>, i: nat, v: Value)
    requires GapAt(vs, ws, i)
    ensures Written(ws, i, v) == vs[..i] + [Present(v)] + Filled(vs[i..])
  {
    if i < |vs| {
      assert ws == ws[..i] + [ws[i]] + ws[i + 1..];
    } else {
      assert vs + seq(0, _ => Missing) == vs && Filled(vs[i..]) == [];
    }
  }
}
