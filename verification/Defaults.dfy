/** What the reader takes with the settings of CharReaderBuilder, which the service uses. */
module Defaults {
  import opened Bytes
  import opened JsonValue
  import opened Lexer
  import opened Literals
  import opened Parser
  import opened Tokens
  import opened Grammar
  import opened GrammarCorrect
  import opened Texts

  /** The settings. */
  lemma DefaultsAre(parseDouble: bytes -> Option<Double>, printDouble: Double -> bytes)
    ensures var f := DefaultFeatures(parseDouble, printDouble);
            && f.allowComments && f.allowTrailingCommas && !f.strictRoot && !f.allowDroppedNullPlaceholders
            && !f.allowNumericKeys && !f.allowSingleQuotes && !f.failIfExtra && !f.rejectDupKeys
            && !f.allowSpecialFloats && f.skipBom && f.stackLimit == 1000
            && f.parseDouble == parseDouble && f.printDouble == printDouble
  {
  }

  /** Every number of a tree is a 64-bit integer or can be converted, every string can be decoded, and every
      name is shorter than 2^30 bytes. */
  predicate Decodable(f: Features, t: Json)
    requires Readable(t)
    decreases t, 0
  {
    match t
    case JNumber(n) => NumberMeaning(f, n).Some?
    case JString(cs) => Unescaped(cs).Some?
    case JArray(items, comma) => AllDecodable(f, items)
    case JObject(members, comma) => PairsDecodable(f, members)
    case _ => true
  }

  predicate AllDecodable(f: Features, items: seq<Json>)
    requires AllReadable(items)
    decreases items, 1
  {
    items != [] ==> Decodable(f, items[0]) && AllDecodable(f, items[1..])
  }

  predicate PairsDecodable(f: Features, members: seq<Pair>)
    requires PairsReadable(members)
    decreases members, 1
  {
    members != [] ==> PairDecodable(f, members[0]) && PairsDecodable(f, members[1..])
  }

  predicate PairDecodable(f: Features, m: Pair)
    requires PairReadable(m)
    decreases m, 1
  {
    Unescaped(m.name).Some? && |Unescaped(m.name).value| < 1073741824 && Decodable(f, m.value)
  }

  // Without the checks that are off by default.
  predicate Lenient(f: Features) { f.allowTrailingCommas && !f.rejectDupKeys }

  lemma {:induction false} DecodableIsClear(f: Features, t: Json)
    requires Readable(t) && Lenient(f)
    ensures Clear(f, t) <==> Decodable(f, t)
    decreases t, 0
  {
    hide NumberMeaning, Unescaped, ReadableChars, ReadableNumeral;
    match t
    case JArray(items, comma) => AllDecodableAreClear(f, items, comma);
    case JObject(members, comma) => PairsDecodableAreClear(f, members, comma, [], {});
    case _ =>
  }

  lemma {:induction false} AllDecodableAreClear(f: Features, items: seq<Json>, comma: bool)
    requires AllReadable(items) && Lenient(f)
    ensures AllClear(f, items, comma) <==> AllDecodable(f, items)
    decreases items, 1
  {
    hide Clear, Decodable;
    if items != [] {
      DecodableIsClear(f, items[0]);
      AllDecodableAreClear(f, items[1..], comma);
    }
  }

  lemma {:induction false} PairsDecodableAreClear(f: Features, members: seq<Pair>, comma: bool, last: bytes,
                                                  seen: set<bytes>)
    requires PairsReadable(members) && Lenient(f)
    ensures PairsClear(f, members, comma, last, seen) <==> PairsDecodable(f, members)
    decreases members, 1
  {
    hide PairClear, PairDecodable, NameSet, LastName;
    if members != [] {
      PairDecodableIsClear(f, members[0], seen);
      PairsDecodableAreClear(f, members[1..], comma, LastName(members[0]), seen + NameSet(members[0]));
    }
  }

  lemma {:induction false} PairDecodableIsClear(f: Features, m: Pair, seen: set<bytes>)
    requires PairReadable(m) && Lenient(f)
    ensures PairClear(f, m, seen) <==> PairDecodable(f, m)
    decreases m, 1
  {
    hide Clear, Decodable, Unescaped;
    DecodableIsClear(f, m.value);
  }

  /** By default a text is accepted if and only if everything in it can be decoded and it nests at most 1000
      levels deep, whatever its root, its trailing commas and its duplicate names; and its value is the one
      it denotes. */
  lemma DefaultAccepts(parseDouble: bytes -> Option<Double>, printDouble: Double -> bytes, document: bytes, was: Value,
                       t: Json)
    requires Readable(t) && Document(Unmarked(DefaultFeatures(parseDouble, printDouble), document), Toks(t))
    ensures var f := DefaultFeatures(parseDouble, printDouble);
            var o := Parse(f, document, was);
            && (o.Done? && o.ok <==> Decodable(f, t) && Depth(t) <= 1000)
            && (o.Done? && o.ok ==> o.errors == [] && Bare(o.value) == Meaning(f, t))
            && (Decodable(f, t) && Depth(t) > 1000 ==> o == Thrown(StackLimitExceeded))
  {
    hide Toks, Document, Parse, Readable, Meaning, Simple, Bare, Clear, Decodable;
    var f := DefaultFeatures(parseDouble, printDouble);
    DecodableIsClear(f, t);
    AcceptedExactly(f, document, was, t);
  }

  // What values consist of ------------------------------------------------------------------------

  /** The k-th element of an array's value is the value of its k-th element. */
  lemma {:induction false} ElementsInOrder(f: Features, items: seq<Json>, n: nat, k: nat)
    requires AllReadable(items) && k < |items|
    ensures Readable(items[k]) && |ItemsMeaning(f, items, false, n)| == |items|
    ensures ItemsMeaning(f, items, false, n)[k] == Entry(Index(n + k), Meaning(f, items[k]))
    decreases |items|
  {
    hide Meaning, Readable;
    assert ItemsMeaning(f, [], false, n + |items|) == [];
    if |items| > 1 {
      ElementsInOrder(f, items[1..], n + 1, if k > 0 then k - 1 else 0);
    }
  }

  // A member with this name.
  predicate Bears(m: Pair, name: bytes) { PairReadable(m) && Unescaped(m.name) == Some(name) }

  /** The member of an object's value is the last one of that name. */
  lemma {:induction false} LastMember(f: Features, members: seq<Pair>, es: Entries, name: bytes) returns (k: nat)
    requires PairsReadable(members) && Sorted(es)
    ensures k < |members| ==> Bears(members[k], name)
    ensures forall j :: 0 <= j < |members| && (k < j || k >= |members|) ==> !Bears(members[j], name)
    ensures Get(PairsMeaning(f, members, es), Name(name))
         == if k < |members| then Meaning(f, members[k].value) else Get(es, Name(name))
    decreases |members|
  {
    hide Meaning, Readable, ReadableChars, Unescaped, Sorted, Get, Put;
    k := 0;
    if members != [] {
      var next := PutPair(f, members[0], es);
      PutSorted(f, members[0], es, name);
      k := LastMember(f, members[1..], next, name);
      k := if k < |members| - 1 then k + 1 else if Bears(members[0], name) then 0 else |members|;
    }
  }

  lemma PutSorted(f: Features, m: Pair, es: Entries, name: bytes)
    requires PairReadable(m) && Sorted(es)
    ensures Sorted(PutPair(f, m, es))
    ensures Get(PutPair(f, m, es), Name(name))
         == if Bears(m, name) then Meaning(f, m.value) else Get(es, Name(name))
  {
    hide Meaning, Readable, ReadableChars, Unescaped, Sorted, Get, Put;
    if Unescaped(m.name).Some? {
      PutKeepsSorted(es, Name(Unescaped(m.name).value), Meaning(f, m.value));
      PutThenGet(es, Name(Unescaped(m.name).value), Meaning(f, m.value), Name(name));
    }
  }
}
