/** Value::operator< and Value::operator==, and why they form a strict total order. */
module ValueOrder {
  import opened JsonValue

  // The numeric order of the ValueType enumeration.
  function TypeRank(p: Payload): nat {
    match p
    case Null => 0
    case Int(_) => 1
    case UInt(_) => 2
    case Real(_) => 3
    case Str(_) => 4
    case Bool(_) => 5
    case Arr(_) => 6
    case Obj(_) => 7
  }

  // IEEE comparison: a NaN is not less than, and not equal to, anything.
  predicate DoubleLess(a: Double, b: Double) {
    match (a, b)
    case (Fin(x), Fin(y)) => x < y
    case (NegInf, Fin(_)) => true
    case (NegInf, PosInf) => true
    case (Fin(_), PosInf) => true
    case _ => false
  }

  predicate DoubleEqual(a: Double, b: Double) {
    !a.NaN? && a == b
  }

  // A measure for recursions that exchange their two arguments.
  function Size(v: Value): nat
    decreases v, 1
  {
    if v.p.Arr? || v.p.Obj? then 1 + EntriesSize(v.p.entries) else 1
  }

  function EntriesSize(es: Entries): nat
    decreases es, 0
  {
    if es == [] then 0 else EntrySize(es[0]) + EntriesSize(es[1..])
  }

  function EntrySize(e: Entry): nat
    decreases e, 2
  {
    1 + Size(e.val)
  }

  /** Value::operator<. */
  predicate Less(a: Value, b: Value)
    decreases Size(a) + Size(b)
  {
    if TypeRank(a.p) != TypeRank(b.p) then TypeRank(a.p) < TypeRank(b.p)
    else
      match a.p
      case Null => false
      case Int(i) => i < b.p.i
      case UInt(u) => u < b.p.u
      case Real(d) => DoubleLess(d, b.p.d)
      case Bool(x) => !x && b.p.b
      case Str(s) => BytesLess(s, b.p.s)
      case _ =>
        if |a.p.entries| != |b.p.entries| then |a.p.entries| < |b.p.entries|
        else EntriesLess(a.p.entries, b.p.entries)
  }

  // std::map::operator<, a lexicographical_compare of the entries.
  predicate EntriesLess(xs: Entries, ys: Entries)
    decreases EntriesSize(xs) + EntriesSize(ys), 1
  {
    if xs == [] || ys == [] then xs == [] && ys != []
    else if EntryLess(xs[0], ys[0]) then true
    else if EntryLess(ys[0], xs[0]) then false
    else EntriesLess(xs[1..], ys[1..])
  }

  // std::pair::operator<.
  predicate EntryLess(x: Entry, y: Entry)
    decreases EntrySize(x) + EntrySize(y), 0
  {
    KeyLess(x.key, y.key) || (!KeyLess(y.key, x.key) && Less(x.val, y.val))
  }

  /** Value::operator==. */
  predicate Equal(a: Value, b: Value)
    decreases a, 1
  {
    TypeRank(a.p) == TypeRank(b.p) &&
    match a.p
    case Null => true
    case Int(i) => i == b.p.i
    case UInt(u) => u == b.p.u
    case Real(d) => DoubleEqual(d, b.p.d)
    case Bool(x) => x == b.p.b
    case Str(s) => s == b.p.s
    case _ => |a.p.entries| == |b.p.entries| && EntriesEqual(a.p.entries, b.p.entries)
  }

  predicate EntriesEqual(xs: Entries, ys: Entries)
    decreases xs, 0
  {
    |xs| == |ys| && (xs != [] ==> EntryEqual(xs[0], ys[0]) && EntriesEqual(xs[1..], ys[1..]))
  }

  predicate EntryEqual(x: Entry, y: Entry)
    decreases x, 2
  {
    x.key == y.key && Equal(x.val, y.val)
  }

  predicate NaNFree(v: Value)
    decreases v, 1
  {
    && (v.p.Real? ==> !v.p.d.NaN?)
    && (v.p.Arr? || v.p.Obj? ==> EntriesNaNFree(v.p.entries))
  }

  predicate EntriesNaNFree(es: Entries)
    decreases es, 0
  {
    es != [] ==> EntryNaNFree(es[0]) && EntriesNaNFree(es[1..])
  }

  predicate EntryNaNFree(e: Entry)
    decreases e, 2
  {
    NaNFree(e.val)
  }

  /** Values of different types are ordered by type: null, int, uint, real, string, bool, array, object. */
  lemma TypesInOrder(a: Value, b: Value)
    requires Less(a, b)
    ensures !b.p.Null?
    ensures b.p.Int? ==> a.p.Null? || a.p.Int?
    ensures b.p.UInt? ==> a.p.Null? || a.p.Int? || a.p.UInt?
    ensures b.p.Real? ==> a.p.Null? || a.p.Int? || a.p.UInt? || a.p.Real?
    ensures b.p.Str? ==> !a.p.Bool? && !a.p.Arr? && !a.p.Obj?
    ensures b.p.Bool? ==> !a.p.Arr? && !a.p.Obj?
    ensures b.p.Arr? ==> !a.p.Obj?
  {
  }

  /** Any two values of different types are ordered one way or the other. */
  lemma TypesApart(a: Value, b: Value)
    ensures a.p.Null? || a.p.Int? || a.p.UInt? || a.p.Real? ==>
              ((b.p.Str? || b.p.Bool? || b.p.Arr? || b.p.Obj?) ==> Less(a, b) && !Less(b, a))
    ensures a.p.Null? && !b.p.Null? ==> Less(a, b)
    ensures a.p.Int? && (b.p.UInt? || b.p.Real?) ==> Less(a, b)
    ensures a.p.UInt? && b.p.Real? ==> Less(a, b)
    ensures a.p.Str? && (b.p.Bool? || b.p.Arr? || b.p.Obj?) ==> Less(a, b)
    ensures a.p.Bool? && (b.p.Arr? || b.p.Obj?) ==> Less(a, b)
    ensures a.p.Arr? && b.p.Obj? ==> Less(a, b)
  {
  }

  /** Numbers of one type are ordered as numbers, false comes before true, strings are in dictionary order,
      and the smaller of two containers comes first. */
  lemma SameTypeOrder(a: Value, b: Value)
    ensures a.p.Int? && b.p.Int? ==> (Less(a, b) <==> a.p.i < b.p.i)
    ensures a.p.UInt? && b.p.UInt? ==> (Less(a, b) <==> a.p.u < b.p.u)
    ensures a.p.Real? && b.p.Real? && a.p.d.Fin? && b.p.d.Fin? ==> (Less(a, b) <==> a.p.d.r < b.p.d.r)
    ensures a.p.Real? && b.p.Real? && (a.p.d.NaN? || b.p.d.NaN?) ==> !Less(a, b)
    ensures a.p.Real? && b.p.Real? && a.p.d.NegInf? && !b.p.d.NaN? && !b.p.d.NegInf? ==> Less(a, b)
    ensures a.p.Real? && b.p.Real? && b.p.d.PosInf? && !a.p.d.NaN? && !a.p.d.PosInf? ==> Less(a, b)
    ensures a.p.Bool? && b.p.Bool? ==> (Less(a, b) <==> !a.p.b && b.p.b)
    ensures a.p.Str? && b.p.Str? ==> (Less(a, b) <==> BytesLess(a.p.s, b.p.s))
    ensures ((a.p.Arr? && b.p.Arr?) || (a.p.Obj? && b.p.Obj?)) && |a.p.entries| < |b.p.entries| ==>
              Less(a, b) && !Less(b, a)
  {
    hide EntriesLess, BytesLess;
  }

  /** Of two containers of one type and size, the first entry that differs decides: its key, or its value. */
  lemma {:induction false} FirstDifference(xs: Entries, ys: Entries) returns (k: nat)
    requires |xs| == |ys|
    ensures k <= |xs|
    ensures forall j :: 0 <= j < k ==> !EntryLess(xs[j], ys[j]) && !EntryLess(ys[j], xs[j])
    ensures k < |xs| ==> EntryLess(xs[k], ys[k]) || EntryLess(ys[k], xs[k])
    ensures EntriesLess(xs, ys) <==> k < |xs| && EntryLess(xs[k], ys[k])
    decreases |xs|
  {
    hide EntryLess;
    k := 0;
    if xs != [] && !EntryLess(xs[0], ys[0]) && !EntryLess(ys[0], xs[0]) {
      k := FirstDifference(xs[1..], ys[1..]);
      k := k + 1;
    }
  }

  // A three-way reference comparison: one recursion, by type, then size, then entry by entry.

  function CmpDouble(a: Double, b: Double): int {
    if a == b then 0 else if DoubleLess(a, b) then -1 else 1
  }

  function Cmp(a: Value, b: Value): int
    decreases a, 1
  {
    if TypeRank(a.p) != TypeRank(b.p) then CmpInt(TypeRank(a.p), TypeRank(b.p))
    else
      match a.p
      case Null => 0
      case Int(i) => CmpInt(i, b.p.i)
      case UInt(u) => CmpInt(u, b.p.u)
      case Real(d) => CmpDouble(d, b.p.d)
      case Bool(x) => CmpInt(if x then 1 else 0, if b.p.b then 1 else 0)
      case Str(s) => CmpBytes(s, b.p.s)
      case _ =>
        if |a.p.entries| != |b.p.entries| then CmpInt(|a.p.entries|, |b.p.entries|)
        else CmpEntries(a.p.entries, b.p.entries)
  }

  function CmpEntries(xs: Entries, ys: Entries): int
    decreases xs, 0
  {
    if xs == [] then (if ys == [] then 0 else -1)
    else if ys == [] then 1
    else
      var c := CmpEntry(xs[0], ys[0]);
      if c != 0 then c else CmpEntries(xs[1..], ys[1..])
  }

  function CmpEntry(x: Entry, y: Entry): int
    decreases x, 2
  {
    var c := CmpKey(x.key, y.key);
    if c != 0 then c else Cmp(x.val, y.val)
  }

  // The two operators are this comparison, which is antisymmetric.

  ghost predicate Agrees(less: bool, greater: bool, equal: bool, cmp: int, back: int) {
    && (cmp == -1 || cmp == 0 || cmp == 1) && back == -cmp
    && less == (cmp == -1) && greater == (cmp == 1) && equal == (cmp == 0)
  }

  lemma {:induction false} OperatorsAgree(a: Value, b: Value)
    requires NaNFree(a) && NaNFree(b)
    ensures Agrees(Less(a, b), Less(b, a), Equal(a, b), Cmp(a, b), Cmp(b, a))
    decreases a, 1
  {
    if a.p.Str? && b.p.Str? {
      BytesLessIsDictionaryOrder(a.p.s, b.p.s);
      BytesLessIsDictionaryOrder(b.p.s, a.p.s);
    } else if (a.p.Arr? && b.p.Arr?) || (a.p.Obj? && b.p.Obj?) {
      EntriesAgree(a.p.entries, b.p.entries);
    }
  }

  lemma {:induction false} EntriesAgree(xs: Entries, ys: Entries)
    requires EntriesNaNFree(xs) && EntriesNaNFree(ys)
    ensures |xs| == |ys| ==> Agrees(EntriesLess(xs, ys), EntriesLess(ys, xs), EntriesEqual(xs, ys),
                                    CmpEntries(xs, ys), CmpEntries(ys, xs))
    decreases xs, 0
  {
    if xs != [] && ys != [] {
      EntryAgrees(xs[0], ys[0]);
      EntriesAgree(xs[1..], ys[1..]);
    }
  }

  lemma {:induction false} EntryAgrees(x: Entry, y: Entry)
    requires EntryNaNFree(x) && EntryNaNFree(y)
    ensures Agrees(EntryLess(x, y), EntryLess(y, x), EntryEqual(x, y), CmpEntry(x, y), CmpEntry(y, x))
    decreases x, 2
  {
    KeyOrder(x.key, y.key);
    KeyOrder(y.key, x.key);
    OperatorsAgree(x.val, y.val);
  }

  // Transitivity of the three-way comparison.

  ghost predicate Chains(ab: int, bc: int, ac: int) {
    ab <= 0 && bc <= 0 ==> ac <= 0 && (ab < 0 || bc < 0 ==> ac < 0)
  }

  lemma {:induction false} CmpTransitive(a: Value, b: Value, c: Value)
    requires NaNFree(a) && NaNFree(b) && NaNFree(c)
    ensures Chains(Cmp(a, b), Cmp(b, c), Cmp(a, c))
    decreases a, 1
  {
    if a.p.Str? && b.p.Str? && c.p.Str? && CmpBytes(a.p.s, b.p.s) <= 0 && CmpBytes(b.p.s, c.p.s) <= 0 {
      CmpBytesTransitive(a.p.s, b.p.s, c.p.s);
    } else if (a.p.Arr? && b.p.Arr? && c.p.Arr?) || (a.p.Obj? && b.p.Obj? && c.p.Obj?) {
      CmpEntriesTransitive(a.p.entries, b.p.entries, c.p.entries);
    }
  }

  lemma {:induction false} CmpEntriesTransitive(xs: Entries, ys: Entries, zs: Entries)
    requires EntriesNaNFree(xs) && EntriesNaNFree(ys) && EntriesNaNFree(zs)
    ensures Chains(CmpEntries(xs, ys), CmpEntries(ys, zs), CmpEntries(xs, zs))
    decreases xs, 0
  {
    if xs != [] && ys != [] && zs != [] {
      CmpEntryTransitive(xs[0], ys[0], zs[0]);
      CmpEntriesTransitive(xs[1..], ys[1..], zs[1..]);
      EntryAgrees(xs[0], ys[0]);
      EntryAgrees(ys[0], zs[0]);
      EntryAgrees(xs[0], zs[0]);
    }
  }

  lemma {:induction false} CmpEntryTransitive(x: Entry, y: Entry, z: Entry)
    requires EntryNaNFree(x) && EntryNaNFree(y) && EntryNaNFree(z)
    ensures Chains(CmpEntry(x, y), CmpEntry(y, z), CmpEntry(x, z))
    decreases x, 2
  {
    KeyOrder(x.key, y.key);
    KeyOrder(y.key, z.key);
    KeyOrder(x.key, z.key);
    if CmpKey(x.key, y.key) <= 0 && CmpKey(y.key, z.key) <= 0 {
      CmpKeyTransitive(x.key, y.key, z.key);
    }
    CmpTransitive(x.val, y.val, z.val);
  }

  // The laws of a strict total order whose incomparability is operator==.
  predicate OrderLaws(a: Value, b: Value, c: Value) {
    && !Less(a, a)
    && (Less(a, b) && Less(b, c) ==> Less(a, c))
    && !(Less(a, b) && Less(b, a))
    && (!Less(a, b) && !Less(b, a) <==> Equal(a, b))
    && (Equal(a, b) && Less(b, c) ==> Less(a, c))
    && (Less(a, b) && Equal(b, c) ==> Less(a, c))
    && (Equal(a, b) && Equal(b, c) ==> Equal(a, c))
  }

  /** On trees without NaN, operator< is a strict total order, and two values are incomparable
      exactly when operator== holds of them. */
  lemma StrictTotalOrder(a: Value, b: Value, c: Value)
    requires NaNFree(a) && NaNFree(b) && NaNFree(c)
    ensures OrderLaws(a, b, c)
  {
    OperatorsAgree(a, a);
    OperatorsAgree(a, b);
    OperatorsAgree(b, c);
    OperatorsAgree(a, c);
    CmpTransitive(a, b, c);
    CmpTransitive(c, b, a);
  }

  // Where NaN comes in: no value is less than itself, and one is equal to itself exactly when
  // there is no NaN in it.
  lemma {:induction false} SelfComparison(a: Value)
    ensures !Less(a, a) && (Equal(a, a) <==> NaNFree(a))
    decreases a, 1
  {
    if a.p.Str? {
      BytesLessIsDictionaryOrder(a.p.s, a.p.s);
    } else if a.p.Arr? || a.p.Obj? {
      EntriesSelfComparison(a.p.entries);
    }
  }

  lemma {:induction false} EntriesSelfComparison(es: Entries)
    ensures !EntriesLess(es, es) && (EntriesEqual(es, es) <==> EntriesNaNFree(es))
    decreases es, 0
  {
    if es != [] {
      EntrySelfComparison(es[0]);
      EntriesSelfComparison(es[1..]);
    }
  }

  lemma {:induction false} EntrySelfComparison(e: Entry)
    ensures !EntryLess(e, e) && (EntryEqual(e, e) <==> EntryNaNFree(e))
    decreases e, 2
  {
    KeyOrder(e.key, e.key);
    SelfComparison(e.val);
  }

  /** The laws hold among the values of a collection if and only if none of them contains a NaN. */
  lemma OrderedExactly(vs: set<Value>)
    ensures (forall a, b, c | a in vs && b in vs && c in vs :: OrderLaws(a, b, c)) <==> forall v | v in vs :: NaNFree(v)
  {
    hide Less, Equal, NaNFree;
    if forall v | v in vs :: NaNFree(v) {
      forall a, b, c | a in vs && b in vs && c in vs ensures OrderLaws(a, b, c) {
        StrictTotalOrder(a, b, c);
      }
    }
    if forall a, b, c | a in vs && b in vs && c in vs :: OrderLaws(a, b, c) {
      forall v | v in vs ensures NaNFree(v) {
        assert OrderLaws(v, v, v);
        SelfComparison(v);
      }
    }
  }

  // A witness: NaN is incomparable to itself and yet not equal to itself.
  lemma NaNIsNotOrdered()
    ensures var v := Value(Real(NaN), 0, 0); !Less(v, v) && !Equal(v, v)
  {
  }
}
