/**
  The Value tree. Arrays and objects both hold an ordered map from CZString keys to values
  (std::map<CZString, Value>): an array's keys are indices, possibly with gaps, an object's
  keys are names. The map is represented by its entries in key order.
 */
module JsonValue {
  import opened Bytes

  datatype CZString = Index(i: nat) | Name(s: bytes)

  // A double, as far as comparisons are concerned.
  datatype Double = Fin(r: real) | NegInf | PosInf | NaN

  // A value and the offsets of the text it was read from.
  datatype Value = Value(p: Payload, start: int, limit: int)

  datatype Payload =
    | Null
    | Int(i: int)
    | UInt(u: int)
    | Real(d: Double)
    | Str(s: bytes)
    | Bool(b: bool)
    | Arr(entries: Entries)
    | Obj(entries: Entries)

  datatype Entry = Entry(key: CZString, val: Value)
  type Entries = seq<Entry>

  const NullValue: Value := Value(Null, 0, 0)

  // Keys --------------------------------------------------------------------------------------

  // The sign of memcmp on the first n bytes.
  function MemCmp(a: bytes, b: bytes, n: nat): int
    requires n <= |a| && n <= |b|
    decreases n
  {
    if n == 0 then 0
    else if a[0] != b[0] then a[0] as int - b[0] as int
    else MemCmp(a[1..], b[1..], n - 1)
  }

  function Min(a: nat, b: nat): nat { if a < b then a else b }

  // memcmp on the common length, then the lengths.
  predicate BytesLess(a: bytes, b: bytes) {
    var comp := MemCmp(a, b, Min(|a|, |b|));
    comp < 0 || (comp == 0 && |a| < |b|)
  }

  // CZString::operator<. A map never mixes the two kinds; that case is settled arbitrarily.
  predicate KeyLess(a: CZString, b: CZString) {
    match (a, b)
    case (Index(i), Index(j)) => i < j
    case (Name(s), Name(t)) => BytesLess(s, t)
    case (Index(_), Name(_)) => true
    case (Name(_), Index(_)) => false
  }

  // The dictionary order on byte strings, as a reference.
  function CmpBytes(a: bytes, b: bytes): int {
    if a == [] then (if b == [] then 0 else -1)
    else if b == [] then 1
    else if a[0] < b[0] then -1
    else if a[0] > b[0] then 1
    else CmpBytes(a[1..], b[1..])
  }

  function CmpInt(a: int, b: int): int {
    if a < b then -1 else if a > b then 1 else 0
  }

  function CmpKey(a: CZString, b: CZString): int {
    match (a, b)
    case (Index(i), Index(j)) => CmpInt(i, j)
    case (Name(s), Name(t)) => CmpBytes(s, t)
    case (Index(_), Name(_)) => -1
    case (Name(_), Index(_)) => 1
  }

  lemma {:induction false} BytesLessIsDictionaryOrder(a: bytes, b: bytes)
    ensures BytesLess(a, b) <==> CmpBytes(a, b) == -1
    ensures CmpBytes(b, a) == -CmpBytes(a, b)
    ensures CmpBytes(a, b) == 0 <==> a == b
    ensures -1 <= CmpBytes(a, b) <= 1
  {
    if a != [] && b != [] && a[0] == b[0] {
      BytesLessIsDictionaryOrder(a[1..], b[1..]);
      assert a == [a[0]] + a[1..] && b == [b[0]] + b[1..];
    }
  }

  lemma {:induction false} CmpBytesTransitive(a: bytes, b: bytes, c: bytes)
    requires CmpBytes(a, b) <= 0 && CmpBytes(b, c) <= 0
    ensures CmpBytes(a, c) <= 0
    ensures CmpBytes(a, b) < 0 || CmpBytes(b, c) < 0 ==> CmpBytes(a, c) < 0
  {
    if a != [] && b != [] && c != [] && a[0] == b[0] == c[0] {
      CmpBytesTransitive(a[1..], b[1..], c[1..]);
    }
  }

  lemma KeyOrder(a: CZString, b: CZString)
    ensures KeyLess(a, b) <==> CmpKey(a, b) == -1
    ensures CmpKey(b, a) == -CmpKey(a, b)
    ensures CmpKey(a, b) == 0 <==> a == b
    ensures -1 <= CmpKey(a, b) <= 1
  {
    if a.Name? && b.Name? {
      BytesLessIsDictionaryOrder(a.s, b.s);
    }
  }

  lemma CmpKeyTransitive(a: CZString, b: CZString, c: CZString)
    requires CmpKey(a, b) <= 0 && CmpKey(b, c) <= 0
    ensures CmpKey(a, c) <= 0
    ensures CmpKey(a, b) < 0 || CmpKey(b, c) < 0 ==> CmpKey(a, c) < 0
  {
    if a.Name? && b.Name? && c.Name? {
      CmpBytesTransitive(a.s, b.s, c.s);
    }
  }

  lemma KeyLessTransitive(a: CZString, b: CZString, c: CZString)
    requires KeyLess(a, b) && KeyLess(b, c)
    ensures KeyLess(a, c)
  {
    KeyOrder(a, b);
    KeyOrder(b, c);
    KeyOrder(a, c);
    CmpKeyTransitive(a, b, c);
  }

  /** CZString::operator< is a strict total order. */
  lemma KeyStrictOrder(a: CZString, b: CZString, c: CZString)
    ensures !KeyLess(a, a)
    ensures KeyLess(a, b) && KeyLess(b, c) ==> KeyLess(a, c)
    ensures a == b || KeyLess(a, b) || KeyLess(b, a)
  {
    KeyOrder(a, a);
    KeyOrder(a, b);
    KeyOrder(b, a);
    if KeyLess(a, b) && KeyLess(b, c) {
      KeyLessTransitive(a, b, c);
    }
  }

  // The map -----------------------------------------------------------------------------------

  // Strictly increasing keys.
  predicate Sorted(es: Entries) {
    forall j, k :: 0 <= j < k < |es| ==> KeyLess(es[j].key, es[k].key)
  }

  // lower_bound: the first position whose key is not less than k.
  function LowerBound(es: Entries, k: CZString): (n: nat)
    ensures n <= |es|
    ensures forall j :: 0 <= j < n ==> KeyLess(es[j].key, k)
    ensures n < |es| ==> !KeyLess(es[n].key, k)
  {
    if es == [] || !KeyLess(es[0].key, k) then 0 else 1 + LowerBound(es[1..], k)
  }

  predicate Has(es: Entries, k: CZString) {
    LowerBound(es, k) < |es| && es[LowerBound(es, k)].key == k
  }

  // The value under k; a null value when there is none (nullSingleton).
  function Get(es: Entries, k: CZString): Value {
    if Has(es, k) then es[LowerBound(es, k)].val else NullValue
  }

  // Insert the key or replace its value.
  function Put(es: Entries, k: CZString, v: Value): Entries {
    var n := LowerBound(es, k);
    if Has(es, k) then es[n := Entry(k, v)] else es[..n] + [Entry(k, v)] + es[n..]
  }

  function Erase(es: Entries, k: CZString): Entries {
    var n := LowerBound(es, k);
    if Has(es, k) then es[..n] + es[n + 1..] else es
  }

  // In a sorted map a key is found exactly where it stands.
  lemma FoundAt(es: Entries, n: nat)
    requires Sorted(es) && n < |es|
    ensures LowerBound(es, es[n].key) == n && Has(es, es[n].key) && Get(es, es[n].key) == es[n].val
  {
    var k, m := es[n].key, LowerBound(es, es[n].key);
    KeyOrder(k, k);
    assert m <= n;
  }

  lemma PutKeepsSorted(es: Entries, k: CZString, v: Value)
    requires Sorted(es)
    ensures Sorted(Put(es, k, v))
  {
    var n := LowerBound(es, k);
    var r := Put(es, k, v);
    if !Has(es, k) {
      forall j | n <= j < |es| ensures KeyLess(k, es[j].key) {
        KeyOrder(es[n].key, k);
        KeyOrder(k, es[n].key);
        if n < j {
          KeyLessTransitive(k, es[n].key, es[j].key);
        }
      }
    }
  }

  // Where an entry of the map stands after Put ...
  lemma PutMoves(es: Entries, k: CZString, v: Value, q: CZString)
    requires Sorted(es) && q != k && Has(es, q)
    ensures Has(Put(es, k, v), q) && Get(Put(es, k, v), q) == Get(es, q)
  {
    var n, m, r := LowerBound(es, k), LowerBound(es, q), Put(es, k, v);
    PutKeepsSorted(es, k, v);
    var at := if Has(es, k) || m < n then m else m + 1;
    assert r[at] == es[m];
    FoundAt(r, at);
  }

  // ... and where one of the result stood before.
  lemma PutMovedFrom(es: Entries, k: CZString, v: Value, q: CZString)
    requires Sorted(es) && q != k && Has(Put(es, k, v), q)
    ensures Has(es, q)
  {
    var n, r := LowerBound(es, k), Put(es, k, v);
    var m := LowerBound(r, q);
    assert m != n;
    var at := if Has(es, k) || m < n then m else m - 1;
    assert es[at] == r[m];
    FoundAt(es, at);
  }

  /** The map laws: what was put under a key is found there, and nothing else changes. */
  lemma PutThenGet(es: Entries, k: CZString, v: Value, q: CZString)
    requires Sorted(es)
    ensures Has(Put(es, k, v), q) <==> q == k || Has(es, q)
    ensures Get(Put(es, k, v), q) == if q == k then v else Get(es, q)
  {
    if q == k {
      PutKeepsSorted(es, k, v);
      FoundAt(Put(es, k, v), LowerBound(es, k));
    } else {
      if Has(es, q) {
        PutMoves(es, k, v, q);
      }
      if Has(Put(es, k, v), q) {
        PutMovedFrom(es, k, v, q);
      }
    }
  }

  lemma EraseKeepsSorted(es: Entries, k: CZString)
    requires Sorted(es)
    ensures Sorted(Erase(es, k))
    ensures Has(es, k) ==> forall e | e in Erase(es, k) :: e.key != k
  {
    var n := LowerBound(es, k);
    if Has(es, k) {
      KeyOrder(k, k);
    }
  }

  // Where an entry stands when the n-th is gone.
  lemma Without(es: Entries, r: Entries, n: nat, m: nat) returns (at: nat)
    requires n < |es| && m < |es| && m != n && r == es[..n] + es[n + 1..]
    ensures at < |r| && r[at] == es[m]
  {
    at := if m < n then m else m - 1;
  }

  lemma EraseMoves(es: Entries, k: CZString, q: CZString)
    requires Sorted(es) && q != k && Has(es, k) && Has(es, q)
    ensures Has(Erase(es, k), q) && Get(Erase(es, k), q) == Get(es, q)
  {
    EraseKeepsSorted(es, k);
    hide KeyLess, Sorted;
    var at := Without(es, Erase(es, k), LowerBound(es, k), LowerBound(es, q));
    FoundAt(Erase(es, k), at);
  }

  lemma EraseMovedFrom(es: Entries, k: CZString, q: CZString)
    requires Sorted(es) && q != k && Has(es, k) && Has(Erase(es, k), q)
    ensures Has(es, q)
  {
    hide KeyLess;
    var n, m, r := LowerBound(es, k), LowerBound(Erase(es, k), q), Erase(es, k);
    var at := if m < n then m else m + 1;
    assert es[at] == r[m];
    FoundAt(es, at);
  }

  /** Erasing removes one key and nothing else. */
  lemma EraseThenGet(es: Entries, k: CZString, q: CZString)
    requires Sorted(es)
    ensures Has(Erase(es, k), q) <==> q != k && Has(es, q)
    ensures Get(Erase(es, k), q) == if q == k then NullValue else Get(es, q)
  {
    if q == k {
      EraseKeepsSorted(es, k);
    } else if Has(es, k) {
      if Has(es, q) {
        EraseMoves(es, k, q);
      }
      if Has(Erase(es, k), q) {
        EraseMovedFrom(es, k, q);
      }
    }
  }

  // Arrays ------------------------------------------------------------------------------------

  // Keys exactly 0 .. n-1.
  predicate Dense(es: Entries) {
    forall k :: 0 <= k < |es| ==> es[k].key == Index(k)
  }

  // The size of an array: its highest index + 1.
  function ArraySize(es: Entries): nat {
    if es == [] || es[|es| - 1].key.Name? then 0 else es[|es| - 1].key.i + 1
  }

  lemma DenseIsSorted(es: Entries)
    requires Dense(es)
    ensures Sorted(es) && ArraySize(es) == |es|
    ensures forall k :: 0 <= k < |es| ==> Has(es, Index(k)) && Get(es, Index(k)) == es[k].val
  {
    forall k | 0 <= k < |es| ensures Has(es, Index(k)) && Get(es, Index(k)) == es[k].val {
      FoundAt(es, k);
    }
  }

  /** Writing just past the end of a dense array appends. */
  lemma {:induction false} PutAtEnd(es: Entries, v: Value)
    requires Dense(es)
    ensures Put(es, Index(|es|), v) == es + [Entry(Index(|es|), v)]
    ensures Dense(Put(es, Index(|es|), v))
  {
    var n := LowerBound(es, Index(|es|));
    assert n == |es|;
  }

  // How deeply the containers of a value nest, the value itself included.
  function Nesting(v: Value): (n: nat)
    ensures n >= 1
    decreases v, 1
  {
    if v.p.Arr? || v.p.Obj? then 1 + ItemsNesting(v.p.entries) else 1
  }

  function ItemsNesting(es: Entries): nat
    decreases es, 0
  {
    if es == [] then 0
    else
      var a, b := EntryNesting(es[0]), ItemsNesting(es[1..]);
      if a > b then a else b
  }

  function EntryNesting(en: Entry): nat
    decreases en, 2
  {
    Nesting(en.val)
  }

  // No value in a map nests more deeply than the map.
  lemma {:induction false} NestingAt(es: Entries, k: nat)
    requires k < |es|
    ensures Nesting(es[k].val) <= ItemsNesting(es)
  {
    if k > 0 {
      NestingAt(es[1..], k - 1);
    } else {
      assert Nesting(es[0].val) == EntryNesting(es[0]);
    }
  }

  lemma GetNesting(es: Entries, key: CZString)
    requires es != []
    ensures Nesting(Get(es, key)) <= ItemsNesting(es)
  {
    NestingAt(es, if Has(es, key) then LowerBound(es, key) else 0);
  }

  // Offsets -----------------------------------------------------------------------------------

  // A tree without its offsets.
  function Bare(v: Value): Value
    decreases v, 1
  {
    match v.p
    case Arr(es) => Value(Arr(BareItems(es)), 0, 0)
    case Obj(es) => Value(Obj(BareItems(es)), 0, 0)
    case _ => Value(v.p, 0, 0)
  }

  function BareItems(es: Entries): (r: Entries)
    ensures |r| == |es| && forall k :: 0 <= k < |es| ==> r[k] == BareEntry(es[k])
    decreases es, 0
  {
    if es == [] then [] else [BareEntry(es[0])] + BareItems(es[1..])
  }

  function BareEntry(en: Entry): Entry
    decreases en, 2
  {
    Entry(en.key, Bare(en.val))
  }

  lemma BareKind(v: Value)
    ensures (Bare(v).p.Arr? <==> v.p.Arr?) && (Bare(v).p.Obj? <==> v.p.Obj?)
  {
    hide BareItems;
  }

  lemma {:induction false} BareItemsConcat(xs: Entries, ys: Entries)
    ensures BareItems(xs + ys) == BareItems(xs) + BareItems(ys)
  {
    if xs == [] {
      assert xs + ys == ys;
    } else {
      assert (xs + ys)[1..] == xs[1..] + ys;
      BareItemsConcat(xs[1..], ys);
    }
  }

  // Only the keys matter for where an entry stands.
  lemma {:induction false} SameBound(xs: Entries, ys: Entries, k: CZString)
    requires |xs| == |ys| && forall j :: 0 <= j < |xs| ==> xs[j].key == ys[j].key
    ensures LowerBound(xs, k) == LowerBound(ys, k)
  {
    if xs != [] {
      SameBound(xs[1..], ys[1..], k);
    }
  }

  lemma BarePut(es: Entries, k: CZString, v: Value)
    ensures Has(BareItems(es), k) <==> Has(es, k)
    ensures Put(BareItems(es), k, Bare(v)) == BareItems(Put(es, k, v))
  {
    hide LowerBound, Bare, BareItems, KeyLess;
    SameBound(BareItems(es), es, k);
  }
}
