/**
  What OurReader computes, as functions of the document and the position: the specification the
  reader's methods are proved against. A position counts from begin_, that is, after a byte
  order mark; nodes_.size() is the parameter `depth`.
 */
module Parser {
  import opened Bytes
  import opened Numbers
  import opened Unquoting
  import opened JsonValue
  import opened Lexer

  datatype Message =
    | SyntaxError               // "Syntax error: value, object or array expected."
    | MissingColon              // "Missing ':' after object member name"
    | MissingCommaOrBrace       // "Missing ',' or '}' in object declaration"
    | MissingBraceOrName        // "Missing '}' or object member name"
    | MissingCommaOrBracket     // "Missing ',' or ']' in array declaration"
    | DuplicateKey(key: bytes)  // "Duplicate key: '...'"
    | NotANumber(text: bytes)   // "'...' is not a number."
    | InString(error: StringError)
    | ExtraAfterValue           // "Extra non-whitespace after JSON value."
    | NotArrayOrObject          // "A valid JSON document must be either an array or an object value."

  datatype ErrorInfo = ErrorInfo(message: Message, kind: TokenType, start: int, end: int)

  datatype Exception = StackLimitExceeded | KeyTooLong

  // The current value after readValue, the cursor, the errors added and the result; or an exception.
  datatype Outcome =
    | Done(value: Value, cur: nat, errors: seq<ErrorInfo>, ok: bool)
    | Thrown(why: Exception)

  // The same for the loops of readObject and readArray, with the entries of the container.
  datatype Items =
    | Items(entries: Entries, cur: nat, errors: seq<ErrorInfo>, ok: bool)
    | ItemsThrown(why: Exception)

  // Success leaves no error, failure exactly one.
  predicate Accounted(errors: seq<ErrorInfo>, ok: bool) {
    if ok then errors == [] else |errors| == 1
  }

  function At(message: Message, t: Token): ErrorInfo {
    ErrorInfo(message, t.kind, t.start, t.end)
  }

  function Text(doc: bytes, t: Token): bytes
    requires t.start <= t.end <= |doc|
  {
    doc[t.start..t.end]
  }

  // Tokens --------------------------------------------------------------------------------------

  // The first token from i on that is not a comment.
  function NextToken(f: Features, doc: bytes, i: nat): (t: Token)
    requires i <= |doc|
    ensures i <= t.start <= t.end <= |doc|
    ensures t.start < |doc| ==> t.start < t.end
    ensures t.start == |doc| ==> t.kind == EndOfStream
    ensures t.kind != Comment && (t.kind == StringToken ==> t.start + 2 <= t.end)
    decreases |doc| - i
  {
    var t := ReadToken(f, doc, i);
    if t.kind == Comment then NextToken(f, doc, t.end) else t
  }

  // skipCommentTokens: comments are skipped only when they are allowed.
  function ValueToken(f: Features, doc: bytes, i: nat): (t: Token)
    requires i <= |doc|
    ensures i <= t.start <= t.end <= |doc|
    ensures t.start < |doc| ==> t.start < t.end
    ensures t.start == |doc| ==> t.kind == EndOfStream
    ensures t.kind == StringToken ==> t.start + 2 <= t.end
  {
    if f.allowComments then NextToken(f, doc, i) else ReadToken(f, doc, i)
  }

  // recoverFromError: the position after the first token of the given kind, or after the end of stream.
  function Recover(f: Features, doc: bytes, i: nat, skipUntil: TokenType): (j: nat)
    requires i <= |doc|
    ensures i <= j <= |doc|
    decreases |doc| - i
  {
    var t := ReadToken(f, doc, i);
    if t.kind == skipUntil || t.kind == EndOfStream then t.end else Recover(f, doc, t.end, skipUntil)
  }

  // Scalars -------------------------------------------------------------------------------------

  datatype Scalar = Scalar(p: Payload) | BadScalar(message: Message)

  // decodeNumber, falling back to decodeDouble.
  function NumberScalar(f: Features, text: bytes): (r: Scalar)
    ensures r.Scalar? ==> r.p.Int? || r.p.UInt? || r.p.Real?
  {
    match DecodeInteger(text)
    case IntNumber(i) => Scalar(Int(i))
    case UIntNumber(u) => Scalar(UInt(u))
    case AsDouble =>
      match f.parseDouble(text)
      case Some(d) => Scalar(Real(d))
      case None => BadScalar(NotANumber(text))
  }

  // decodeString: the text between the first and the last byte of the token.
  function StringScalar(text: bytes): (r: Scalar)
    requires |text| >= 2
    ensures r.Scalar? ==> r.p.Str?
  {
    match DecodeText(text[1..|text| - 1])
    case Decoded(s) => Scalar(Str(s))
    case BadString(e) => BadScalar(InString(e))
  }

  // The scalar a token denotes, for the kinds that denote one.
  function TokenScalar(f: Features, kind: TokenType, text: bytes): Scalar {
    match kind
    case NumberToken => NumberScalar(f, text)
    case StringToken => if |text| >= 2 then StringScalar(text) else BadScalar(SyntaxError)
    case TrueToken => Scalar(Bool(true))
    case FalseToken => Scalar(Bool(false))
    case NullToken => Scalar(Null)
    case NaNToken => Scalar(Real(NaN))
    case PosInfToken => Scalar(Real(PosInf))
    case NegInfToken => Scalar(Real(NegInf))
    case _ => BadScalar(SyntaxError)
  }

  predicate Dropped(f: Features, kind: TokenType) {
    f.allowDroppedNullPlaceholders && kind in {ArraySeparator, ObjectEnd, ArrayEnd}
  }

  // The name an object key token gives; a number is printed again (Value::asString).
  datatype KeyName = Key(name: bytes) | BadKey(message: Message) | NoKey

  function TokenKey(f: Features, kind: TokenType, text: bytes): KeyName {
    if kind == StringToken || (kind == NumberToken && f.allowNumericKeys) then
      match TokenScalar(f, kind, text)
      case BadScalar(m) => BadKey(m)
      case Scalar(Str(s)) => Key(s)
      case Scalar(Int(i)) => Key(IntText(i))
      case Scalar(UInt(u)) => Key(IntText(u))
      case Scalar(Real(d)) => Key(f.printDouble(d))
      case Scalar(_) => NoKey
    else NoKey
  }

  // Values --------------------------------------------------------------------------------------

  /** readValue at position i, with nodes_.size() == depth and the current value as it was. */
  function ReadValue(f: Features, doc: bytes, i: nat, depth: nat, was: Value): (o: Outcome)
    requires i <= |doc|
    ensures o.Done? ==> i <= o.cur <= |doc| && Accounted(o.errors, o.ok)
    ensures o.Done? ==> depth <= f.stackLimit
    decreases |doc| - i, 0
  {
    hide Lexer.ReadToken, NextToken, ValueToken, NumberScalar, StringScalar, TokenScalar, Text;
    if depth > f.stackLimit then Thrown(StackLimitExceeded)
    else
      var t := ValueToken(f, doc, i);
      if t.kind == ObjectBegin then
        match ReadMembers(f, doc, t.end, depth, [], [])
        case Items(es, cur, errors, ok) => Done(Value(Obj(es), t.start, cur), cur, errors, ok)
        case ItemsThrown(e) => Thrown(e)
      else if t.kind == ArrayBegin then
        match ReadElements(f, doc, t.end, depth, [])
        case Items(es, cur, errors, ok) => Done(Value(Arr(es), t.start, cur), cur, errors, ok)
        case ItemsThrown(e) => Thrown(e)
      else if Dropped(f, t.kind) then
        Done(Value(Null, t.end - 2, t.end - 1), t.end - 1, [], true)
      else
        match TokenScalar(f, t.kind, Text(doc, t))
        case Scalar(p) => Done(Value(p, t.start, t.end), t.end, [], true)
        case BadScalar(m) =>
          if t.kind == NumberToken || t.kind == StringToken then Done(was, t.end, [At(m, t)], false)
          else Done(was.(start := t.start, limit := t.end), t.end, [At(m, t)], false)
  }

  function Failed(f: Features, doc: bytes, es: Entries, errors: seq<ErrorInfo>, from: nat, skipUntil: TokenType): Items
    requires from <= |doc|
  {
    Items(es, Recover(f, doc, from, skipUntil), errors, false)
  }

  const KEY_LIMIT := 0x4000_0000

  /** The loop of readObject, with the members read so far and the last name: one turn reads a
      name, then (MemberValue) the colon and the value, then (AfterMember) the separator. */
  function ReadMembers(f: Features, doc: bytes, i: nat, depth: nat, es: Entries, name: bytes): (r: Items)
    requires i <= |doc|
    ensures r.Items? ==> i <= r.cur <= |doc| && Accounted(r.errors, r.ok)
    decreases |doc| - i, 4
  {
    var t := NextToken(f, doc, i);
    if t.kind == ObjectEnd && (name == [] || f.allowTrailingCommas) then Items(es, t.end, [], true)
    else KeyedMember(f, doc, t, depth, es)
  }

  function KeyedMember(f: Features, doc: bytes, t: Token, depth: nat, es: Entries): (r: Items)
    requires t.start <= t.end <= |doc|
    ensures r.Items? ==> t.end <= r.cur <= |doc| && Accounted(r.errors, r.ok)
    decreases |doc| - t.end, 3
  {
    match TokenKey(f, t.kind, Text(doc, t))
    case NoKey => Failed(f, doc, es, [At(MissingBraceOrName, t)], t.end, ObjectEnd)
    case BadKey(m) => Failed(f, doc, es, [At(m, t)], t.end, ObjectEnd)
    case Key(key) => NamedMember(f, doc, t, depth, es, key)
  }

  function NamedMember(f: Features, doc: bytes, t: Token, depth: nat, es: Entries, key: bytes): (r: Items)
    requires t.end <= |doc|
    ensures r.Items? ==> t.end <= r.cur <= |doc| && Accounted(r.errors, r.ok)
    decreases |doc| - t.end, 2
  {
    if |key| >= KEY_LIMIT then ItemsThrown(KeyTooLong)
    else if f.rejectDupKeys && Has(es, Name(key)) then
      Failed(f, doc, es, [At(DuplicateKey(key), t)], t.end, ObjectEnd)
    else MemberValue(f, doc, t.end, depth, es, key)
  }

  function MemberValue(f: Features, doc: bytes, i: nat, depth: nat, es: Entries, key: bytes): (r: Items)
    requires i <= |doc|
    ensures r.Items? ==> i <= r.cur <= |doc| && Accounted(r.errors, r.ok)
    decreases |doc| - i, 1
  {
    var colon := ReadToken(f, doc, i);
    if colon.kind != MemberSeparator then
      Failed(f, doc, es, [At(MissingColon, colon)], colon.end, ObjectEnd)
    else StoredMember(f, doc, colon.end, depth, es, key)
  }

  function StoredMember(f: Features, doc: bytes, i: nat, depth: nat, es: Entries, key: bytes): (r: Items)
    requires i <= |doc|
    ensures r.Items? ==> i <= r.cur <= |doc| && Accounted(r.errors, r.ok)
    decreases |doc| - i, 2
  {
    match ReadValue(f, doc, i, depth + 1, Get(es, Name(key)))
    case Thrown(e) => ItemsThrown(e)
    case Done(v, cur, errors, ok) =>
      if !ok then Failed(f, doc, Put(es, Name(key), v), errors, cur, ObjectEnd)
      else AfterMember(f, doc, cur, depth, Put(es, Name(key), v), key)
  }

  function AfterMember(f: Features, doc: bytes, i: nat, depth: nat, es: Entries, key: bytes): (r: Items)
    requires i <= |doc|
    ensures r.Items? ==> i <= r.cur <= |doc| && Accounted(r.errors, r.ok)
    decreases |doc| - i, 1
  {
    var comma := ReadToken(f, doc, i);
    if comma.kind !in {ObjectEnd, ArraySeparator, Comment} then
      Failed(f, doc, es, [At(MissingCommaOrBrace, comma)], comma.end, ObjectEnd)
    else
      // After a comment any token at all is taken for the comma.
      var last := NextToken(f, doc, i);
      if last.kind == ObjectEnd then Items(es, last.end, [], true)
      else ReadMembers(f, doc, last.end, depth, es, key)
  }

  /** The loop of readArray; the index of the next element is the number of those read so far. */
  function ReadElements(f: Features, doc: bytes, i: nat, depth: nat, es: Entries): (r: Items)
    requires i <= |doc|
    ensures r.Items? ==> i <= r.cur <= |doc| && Accounted(r.errors, r.ok)
    decreases |doc| - i, 1
  {
    var at := i + Spaces(doc[i..]);
    if at < |doc| && doc[at] == 0x5D
       && (es == [] || (f.allowTrailingCommas && !f.allowDroppedNullPlaceholders)) then
      Items(es, at + 1, [], true)
    else
      match ReadValue(f, doc, at, depth + 1, NullValue)
      case Thrown(e) => ItemsThrown(e)
      case Done(v, cur, errors, ok) =>
        if !ok then Failed(f, doc, Put(es, Index(|es|), v), errors, cur, ArrayEnd)
        else AfterElement(f, doc, cur, depth, Put(es, Index(|es|), v))
  }

  function AfterElement(f: Features, doc: bytes, i: nat, depth: nat, es: Entries): (r: Items)
    requires i <= |doc|
    ensures r.Items? ==> i <= r.cur <= |doc| && Accounted(r.errors, r.ok)
    decreases |doc| - i, 0
  {
    var t := NextToken(f, doc, i);
    if t.kind == ArrayEnd then Items(es, t.end, [], true)
    else if t.kind == ArraySeparator then ReadElements(f, doc, t.end, depth, es)
    else Failed(f, doc, es, [At(MissingCommaOrBracket, t)], t.end, ArrayEnd)
  }

  // A name in the place of a name leads to its member, and nothing else does.
  lemma MembersStep(f: Features, doc: bytes, i: nat, depth: nat, es: Entries, name: bytes)
    requires i <= |doc|
    ensures var t := NextToken(f, doc, i);
            !(t.kind == ObjectEnd && (name == [] || f.allowTrailingCommas)) ==>
              var key := TokenKey(f, t.kind, Text(doc, t));
              if key.Key? then ReadMembers(f, doc, i, depth, es, name) == NamedMember(f, doc, t, depth, es, key.name)
              else ReadMembers(f, doc, i, depth, es, name).Items? && !ReadMembers(f, doc, i, depth, es, name).ok
                   && ReadMembers(f, doc, i, depth, es, name).entries == es
  {
    hide NextToken, TokenKey, Text, NamedMember;
    var t := NextToken(f, doc, i);
    KeyedStep(f, doc, t, depth, es);
    hide KeyedMember;
  }

  lemma KeyedStep(f: Features, doc: bytes, t: Token, depth: nat, es: Entries)
    requires t.start <= t.end <= |doc|
    ensures var key := TokenKey(f, t.kind, Text(doc, t));
            if key.Key? then KeyedMember(f, doc, t, depth, es) == NamedMember(f, doc, t, depth, es, key.name)
            else KeyedMember(f, doc, t, depth, es).Items? && !KeyedMember(f, doc, t, depth, es).ok
                 && KeyedMember(f, doc, t, depth, es).entries == es
  {
    hide TokenKey, Text, NamedMember;
  }

  // A colon leads to the value, and the value to what follows it.
  lemma MemberValueStep(f: Features, doc: bytes, i: nat, depth: nat, es: Entries, key: bytes)
    requires i <= |doc| && ReadToken(f, doc, i).kind == MemberSeparator
    ensures var o := ReadValue(f, doc, ReadToken(f, doc, i).end, depth + 1, Get(es, Name(key)));
            MemberValue(f, doc, i, depth, es, key) ==
              if o.Thrown? then ItemsThrown(o.why)
              else if !o.ok then Failed(f, doc, Put(es, Name(key), o.value), o.errors, o.cur, ObjectEnd)
              else AfterMember(f, doc, o.cur, depth, Put(es, Name(key), o.value), key)
  {
    hide Lexer.ReadToken, ReadValue, AfterMember, Failed, Get, Put;
  }

  // Documents -----------------------------------------------------------------------------------

  const BOM: bytes := [0xEF, 0xBB, 0xBF]

  function SkippedBom(f: Features, document: bytes): nat {
    if f.skipBom && BOM <= document then 3 else 0
  }

  /** parse: the outcome for a whole document, read into a root that holds `was`. */
  function Parse(f: Features, document: bytes, was: Value): (o: Outcome)
    ensures o.Done? ==> (o.ok <==> o.errors == [])
  {
    var doc := document[SkippedBom(f, document)..];
    match ReadValue(f, doc, 0, 1, was)
    case Thrown(e) => Thrown(e)
    case Done(root, cur, errors, ok) =>
      var t := ValueToken(f, doc, cur);
      if f.failIfExtra && t.kind != EndOfStream then
        Done(root, t.end, errors + [At(ExtraAfterValue, t)], false)
      else if f.strictRoot && !root.p.Arr? && !root.p.Obj? then
        Done(root, t.end,
             errors + [ErrorInfo(NotArrayOrObject, Error, -(SkippedBom(f, document) as int), |doc|)], false)
      else Done(root, t.end, errors, ok)
  }
}
