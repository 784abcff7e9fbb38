/** Surrogates in strings: when decodeString takes their escapes, when it reads them as section 2.2 of
    RFC 2781 does, and when what it gives is UTF-8. */
module Surrogates {
  import opened Bytes
  import opened Utf8
  import opened Unquoting
  import opened Lexer
  import opened Literals

  predicate LowSurrogate(u: int) { 0xDC00 <= u <= 0xDFFF }

  predicate HighAt(cs: seq<Char>, k: nat)
    requires ReadableChars(cs)
  {
    k < |cs| && cs[k].Unicode? && HighSurrogate(Unit(cs[k].digits))
  }

  predicate LowAt(cs: seq<Char>, k: nat)
    requires ReadableChars(cs)
  {
    k < |cs| && cs[k].Unicode? && LowSurrogate(Unit(cs[k].digits))
  }

  // How many high surrogates stand in a row right before position k.
  function HighsBefore(cs: seq<Char>, k: nat): (n: nat)
    requires ReadableChars(cs) && k <= |cs|
    ensures n <= k
  {
    if k == 0 || !HighAt(cs, k - 1) then 0 else 1 + HighsBefore(cs, k - 1)
  }

  // A turn of decodeString takes one character, or a high surrogate and the escape behind it.
  predicate Turn(cs: seq<Char>, n: nat)
    requires ReadableChars(cs)
  {
    && n <= |cs| && ((n == 1 && !HighAt(cs, 0)) || (n == 2 && HighAt(cs, 0) && cs[1].Unicode?))
  }

  // Behind a turn the rows of high surrogates are as long as before, or shorter by two.
  lemma {:induction false} HighsBehind(cs: seq<Char>, n: nat, k: nat)
    requires ReadableChars(cs) && Turn(cs, n) && n <= k <= |cs|
    ensures HighsBefore(cs[n..], k - n) % 2 == HighsBefore(cs, k) % 2
    decreases k
  {
    hide Unit;
    if k > n {
      assert cs[n..][k - n - 1] == cs[k - 1];
      HighsBehind(cs, n, k - 1);
    }
  }

  // Where decodeString gives up -----------------------------------------------------------------------

  // The characters behind an odd row of high surrogates: the last of them is at the front of a turn.
  predicate OddRow(cs: seq<Char>, k: nat)
    requires ReadableChars(cs) && k <= |cs|
  {
    HighsBefore(cs, k) % 2 == 1
  }

  /** No odd row of high surrogates ends where no escape of that form follows. */
  predicate RowsAreEven(cs: seq<Char>)
    requires ReadableChars(cs)
  {
    forall k :: 0 <= k <= |cs| && (k == |cs| || !cs[k].Unicode?) ==> !OddRow(cs, k)
  }

  lemma EvenBehind(cs: seq<Char>, n: nat)
    requires ReadableChars(cs) && Turn(cs, n)
    ensures RowsAreEven(cs[n..]) <==> RowsAreEven(cs)
  {
    hide HighsBefore, HighAt;
    var rest := cs[n..];
    forall k | n <= k <= |cs| ensures OddRow(rest, k - n) <==> OddRow(cs, k) {
      HighsBehind(cs, n, k);
    }
    assert forall k :: n <= k < |cs| ==> rest[k - n] == cs[k];
    if RowsAreEven(cs) {
      forall j | 0 <= j <= |rest| && (j == |rest| || !rest[j].Unicode?) ensures !OddRow(rest, j) {
        assert !OddRow(cs, j + n);
      }
    }
    if RowsAreEven(rest) {
      forall k | 0 <= k <= |cs| && (k == |cs| || !cs[k].Unicode?) ensures !OddRow(cs, k) {
        if k >= n {
          assert !OddRow(rest, k - n);
        } else {
          FirstRow(cs);
        }
      }
    }
  }

  lemma FirstRow(cs: seq<Char>)
    requires ReadableChars(cs)
    ensures !OddRow(cs, 0)
  {
  }

  /** decodeString takes the characters if and only if every row of high surrogates that is not followed
      by another escape of that form is even. */
  lemma {:induction false} UnescapedExactly(cs: seq<Char>)
    requires ReadableChars(cs)
    ensures Unescaped(cs).Some? <==> RowsAreEven(cs)
    decreases |cs|
  {
    hide Unit, CodePointToUTF8, RowsAreEven, HighsBefore;
    if cs == [] {
      NoRows();
    } else if !HighAt(cs, 0) {
      EvenBehind(cs, 1);
      UnescapedExactly(cs[1..]);
    } else if |cs| > 1 && cs[1].Unicode? {
      EvenBehind(cs, 2);
      UnescapedExactly(cs[2..]);
    } else {
      OneRow(cs);
    }
  }

  lemma NoRows()
    ensures RowsAreEven([])
  {
  }

  lemma OneRow(cs: seq<Char>)
    requires ReadableChars(cs) && HighAt(cs, 0) && (|cs| == 1 || !cs[1].Unicode?)
    ensures !RowsAreEven(cs)
  {
    assert OddRow(cs, 1);
  }

  // What the escapes denote ---------------------------------------------------------------------------

  /** The characters by section 2.2 of RFC 2781: a high and a low surrogate denote one code point, and
      a surrogate without the other half nothing. */
  function Denotation(cs: seq<Char>): Option<bytes>
    requires ReadableChars(cs)
    decreases |cs|
  {
    if cs == [] then Some([])
    else
      match cs[0]
      case Plain(c) => Then([c], Denotation(cs[1..]))
      case Escape(letter) => Then([Meant(letter)], Denotation(cs[1..]))
      case Unicode(digits) =>
        if LowAt(cs, 0) then None
        else if !HighAt(cs, 0) then Then(CodePointToUTF8(Unit(digits)), Denotation(cs[1..]))
        else if LowAt(cs, 1) then
          var cp := 0x10000 + (Unit(digits) - 0xD800) * 0x400 + (Unit(cs[1].digits) - 0xDC00);
          Then(CodePointToUTF8(cp), Denotation(cs[2..]))
        else None
  }

  /** Every high surrogate stands right before a low one, and every low one right behind a high one. */
  predicate WellPaired(cs: seq<Char>)
    requires ReadableChars(cs)
  {
    forall k :: 0 <= k < |cs| ==> PairedAt(cs, k)
  }

  predicate PairedAt(cs: seq<Char>, k: nat)
    requires ReadableChars(cs)
  {
    (HighAt(cs, k) ==> LowAt(cs, k + 1)) && (LowAt(cs, k) ==> k > 0 && HighAt(cs, k - 1))
  }

  lemma PairedBehind(cs: seq<Char>, n: nat)
    requires ReadableChars(cs) && 0 < n <= |cs| && !HighAt(cs, n - 1) && forall k :: 0 <= k < n ==> PairedAt(cs, k)
    ensures WellPaired(cs[n..]) <==> WellPaired(cs)
  {
    hide PairedAt;
    forall k | n <= k < |cs| ensures PairedAt(cs[n..], k - n) <==> PairedAt(cs, k) {
      SamePairing(cs, n, k);
    }
    if WellPaired(cs) {
      forall j | 0 <= j < |cs[n..]| ensures PairedAt(cs[n..], j) {
        assert PairedAt(cs, j + n);
      }
    }
    if WellPaired(cs[n..]) {
      forall k | n <= k < |cs| ensures PairedAt(cs, k) {
        assert PairedAt(cs[n..], k - n);
      }
    }
  }

  lemma SamePairing(cs: seq<Char>, n: nat, k: nat)
    requires ReadableChars(cs) && 0 < n <= k < |cs| && !HighAt(cs, n - 1)
    ensures PairedAt(cs[n..], k - n) <==> PairedAt(cs, k)
  {
    hide Unit;
    var rest := cs[n..];
    assert rest[k - n] == cs[k];
    assert k + 1 < |cs| ==> rest[k + 1 - n] == cs[k + 1];
    assert k > n ==> rest[k - 1 - n] == cs[k - 1];
  }

  /** The denotation exists if and only if the surrogates are well paired ... */
  lemma {:induction false} DenotesExactly(cs: seq<Char>)
    requires ReadableChars(cs)
    ensures Denotation(cs).Some? <==> WellPaired(cs)
    decreases |cs|
  {
    hide Unit, CodePointToUTF8;
    if cs == [] {
    } else if LowAt(cs, 0) {
      assert !PairedAt(cs, 0);
    } else if !HighAt(cs, 0) {
      PairedBehind(cs, 1);
      DenotesExactly(cs[1..]);
    } else if LowAt(cs, 1) {
      PairedBehind(cs, 2);
      DenotesExactly(cs[2..]);
    } else {
      assert !PairedAt(cs, 0);
    }
  }

  /** ... and then it is what decodeString gives. */
  lemma {:induction false} DenotationIsUnescaped(cs: seq<Char>)
    requires ReadableChars(cs) && Denotation(cs).Some?
    ensures Unescaped(cs) == Denotation(cs)
    decreases |cs|
  {
    hide Unit, CodePointToUTF8;
    if cs == [] {
    } else if HighAt(cs, 0) {
      SamePair(Unit(cs[0].digits), Unit(cs[1].digits));
      DenotationIsUnescaped(cs[2..]);
    } else {
      DenotationIsUnescaped(cs[1..]);
    }
  }

  lemma SamePair(high: nat, low: nat)
    requires HighSurrogate(high) && LowSurrogate(low)
    ensures 0x10000 + (high - 0xD800) * 0x400 + (low - 0xDC00) == Paired(high, low)
  {
  }

  /** decodeString gives what the characters denote if and only if it fails or the surrogates are well
      paired: it takes any escape for the second half, and a low surrogate by itself. */
  lemma AgreesExactly(cs: seq<Char>)
    requires ReadableChars(cs)
    ensures Agree(DecodeText(Spelled(cs)), Denotation(cs)) <==> !RowsAreEven(cs) || WellPaired(cs)
  {
    hide Unescaped, Denotation, RowsAreEven, WellPaired, DecodeText, Spelled;
    CharsDecoded(cs);
    UnescapedExactly(cs);
    DenotesExactly(cs);
    if Denotation(cs).Some? {
      DenotationIsUnescaped(cs);
    }
  }

  const D800: Char := Unicode([0x44, 0x38, 0x30, 0x30])
  const DC00: Char := Unicode([0x44, 0x43, 0x30, 0x30])
  const LETTER_A: Char := Unicode([0x30, 0x30, 0x34, 0x31])

  /** Strings it takes although they denote nothing: \uD800\u0041 for the code point 0x10041, and
      \uDC00 for three bytes that are no UTF-8. */
  lemma TakenAnyway()
    ensures ReadableChars([D800, LETTER_A]) && ReadableChars([DC00])
    ensures Denotation([D800, LETTER_A]) == None && Unescaped([D800, LETTER_A]) == Some(CodePointToUTF8(0x10041))
    ensures Denotation([DC00]) == None && Unescaped([DC00]) == Some([0xED, 0xB0, 0x80])
    ensures !ValidUtf8([0xED, 0xB0, 0x80])
  {
    hide CodePointToUTF8;
    assert Unit(D800.digits) == 0xD800 && Unit(DC00.digits) == 0xDC00 && Unit(LETTER_A.digits) == 0x41;
    assert [D800, LETTER_A][2..] == [] && [DC00][1..] == [];
    assert CodePointToUTF8(0x10041) + [] == CodePointToUTF8(0x10041);
    DC00IsThreeBytes();
  }

  lemma DC00IsThreeBytes()
    ensures CodePointToUTF8(0xDC00) == [0xED, 0xB0, 0x80] && [0xED, 0xB0, 0x80] + [] == CodePointToUTF8(0xDC00)
  {
  }

  // When it gives UTF-8 -------------------------------------------------------------------------------

  /** Every low surrogate stands behind an odd row of high ones, so that it is taken for a second half. */
  predicate NoneAlone(cs: seq<Char>)
    requires ReadableChars(cs)
  {
    forall k :: 0 <= k < |cs| && LowAt(cs, k) ==> OddRow(cs, k)
  }

  lemma NoneAloneBehind(cs: seq<Char>, n: nat)
    requires ReadableChars(cs) && Turn(cs, n) && (n == 1 ==> !LowAt(cs, 0))
    ensures NoneAlone(cs[n..]) <==> NoneAlone(cs)
  {
    hide HighsBefore, Unit;
    var rest := cs[n..];
    forall k | n <= k < |cs|
      ensures (OddRow(rest, k - n) <==> OddRow(cs, k)) && (LowAt(rest, k - n) <==> LowAt(cs, k))
    {
      HighsBehind(cs, n, k);
      assert rest[k - n] == cs[k];
    }
    hide OddRow, LowAt;
    if NoneAlone(cs) {
      forall j | 0 <= j < |rest| && LowAt(rest, j) ensures OddRow(rest, j) {
        assert LowAt(cs, j + n);
      }
    }
    if NoneAlone(rest) {
      forall k | 0 <= k < |cs| && LowAt(cs, k) ensures OddRow(cs, k) {
        if k >= n {
          assert LowAt(rest, k - n);
        } else {
          SecondHalf(cs, k);
        }
      }
    }
  }

  lemma SecondHalf(cs: seq<Char>, k: nat)
    requires ReadableChars(cs) && LowAt(cs, k) && k < 2 && (k == 0 ==> HighAt(cs, 0)) && (k == 1 ==> HighAt(cs, 0))
    ensures OddRow(cs, k)
  {
    hide Unit;
    if k == 1 {
      assert HighsBefore(cs, 1) == 1 + HighsBefore(cs, 0);
    }
  }

  // Only the bytes of a character matter for its length.
  lemma SameLength(s: bytes, t: bytes)
    requires 0 < CharLength(s) <= |t| && t[..CharLength(s)] == s[..CharLength(s)]
    ensures CharLength(t) == CharLength(s)
  {
    var n := CharLength(s);
    assert forall k :: 0 <= k < n ==> t[..n][k] == s[..n][k];
  }

  lemma TailsOfChar(s: bytes)
    requires CharLength(s) > 1
    ensures s[0] >= 0x80 && AllTails(s[1..CharLength(s)])
  {
  }

  predicate AllTails(s: bytes) { forall k :: 0 <= k < |s| ==> Tail(s[k]) }

  // What is encoded does not begin with a tail byte.
  lemma LeadByte(cp: nat)
    requires cp <= 0x10FFFF
    ensures var e := CodePointToUTF8(cp); e != [] && !Tail(e[0])
  {
  }

  lemma PairedIsScalar(high: nat, low: nat)
    ensures 0x10000 <= Paired(high, low) <= 0x10FFFF
  {
  }

  // A tail byte in front, of the text or of the string, is a plain character.
  lemma TailInFront(cs: seq<Char>)
    requires ReadableChars(cs) && Unescaped(cs).Some?
    ensures var s, t := Spelled(cs), Unescaped(cs).value;
            && ((t != [] && Tail(t[0])) || (s != [] && Tail(s[0])) ==> cs != [] && cs[0].Plain?)
            && (cs != [] && cs[0].Plain? ==>
                  && Unescaped(cs[1..]).Some? && t == [cs[0].c] + Unescaped(cs[1..]).value
                  && s == [cs[0].c] + Spelled(cs[1..]))
  {
    hide CodePointToUTF8;
    if cs != [] && cs[0].Unicode? {
      LeadByte(Unit(cs[0].digits));
      if |cs| > 1 && cs[1].Unicode? {
        PairedIsScalar(Unit(cs[0].digits), Unit(cs[1].digits));
        LeadByte(Paired(Unit(cs[0].digits), Unit(cs[1].digits)));
      }
    }
  }

  // So a row of them is copied.
  lemma {:induction false} TailsInFront(cs: seq<Char>, n: nat)
    requires ReadableChars(cs) && Unescaped(cs).Some?
    requires var s, t := Spelled(cs), Unescaped(cs).value;
             (n <= |t| && AllTails(t[..n])) || (n <= |s| && AllTails(s[..n]))
    ensures n <= |cs| && forall k :: 0 <= k < n ==> cs[k].Plain?
    ensures var s, t, rest := Spelled(cs), Unescaped(cs).value, cs[n..];
            && n <= |s| && n <= |t| && s[..n] == t[..n]
            && Spelled(rest) == s[n..] && Unescaped(rest) == Some(t[n..])
    decreases n
  {
    hide Unescaped, Spelled;
    if n > 0 {
      var s, t := Spelled(cs), Unescaped(cs).value;
      assert n <= |t| && AllTails(t[..n]) ==> Tail(t[..n][0]);
      assert n <= |s| && AllTails(s[..n]) ==> Tail(s[..n][0]);
      TailInFront(cs);
      var s1, t1 := Spelled(cs[1..]), Unescaped(cs[1..]).value;
      if n <= |t| && AllTails(t[..n]) {
        assert t1[..n - 1] == t[..n][1..];
      } else {
        assert s1[..n - 1] == s[..n][1..];
      }
      TailsInFront(cs[1..], n - 1);
      assert cs[1..][n - 1..] == cs[n..];
      assert s[..n] == [s[0]] + s1[..n - 1] && t[..n] == [t[0]] + t1[..n - 1];
      forall k | 0 <= k < n ensures cs[k].Plain? {
        if k > 0 {
          assert cs[1..][k - 1].Plain?;
        }
      }
      assert s1[n - 1..] == s[n..] && t1[n - 1..] == t[n..];
    } else {
      assert cs[0..] == cs && Spelled(cs)[0..] == Spelled(cs) && Unescaped(cs).value[0..] == Unescaped(cs).value;
    }
  }

  lemma {:induction false} AsciiInFront(a: bytes, s: bytes)
    requires forall k :: 0 <= k < |a| ==> a[k] < 0x80
    ensures ValidUtf8(a + s) <==> ValidUtf8(s)
  {
    if a == [] {
      assert a + s == s;
    } else {
      assert (a + s)[1..] == a[1..] + s;
      AsciiInFront(a[1..], s);
    }
  }

  lemma LowIsNoChar(cp: nat, rest: bytes)
    requires LowSurrogate(cp)
    ensures CharLength(CodePointToUTF8(cp) + rest) == 0
  {
    var s := CodePointToUTF8(cp) + rest;
    assert s[0] == 0xED && s[1] == 0x80 + cp / 64 % 64 && cp / 64 == 0x370 + (cp - 0xDC00) / 64;
  }

  lemma {:induction false} PlainRowBehind(cs: seq<Char>, n: nat)
    requires ReadableChars(cs) && n <= |cs| && forall k :: 0 <= k < n ==> cs[k].Plain?
    ensures NoneAlone(cs[n..]) <==> NoneAlone(cs)
  {
    hide NoneAlone, Unit;
    if n == 0 {
      assert cs[0..] == cs;
    } else {
      NoneAloneBehind(cs, 1);
      forall k | 0 <= k < n - 1 ensures cs[1..][k].Plain? {
        assert cs[1..][k] == cs[k + 1];
      }
      PlainRowBehind(cs[1..], n - 1);
      assert cs[1..][n - 1..] == cs[n..];
    }
  }

  /** What decodeString gives is valid UTF-8 if and only if what it reads is, and no low surrogate in it is
      alone. */
  lemma {:induction false} ValidExactly(cs: seq<Char>)
    requires ReadableChars(cs) && Unescaped(cs).Some?
    ensures ValidUtf8(Unescaped(cs).value) <==> ValidUtf8(Spelled(cs)) && NoneAlone(cs)
    decreases |cs|
  {
    hide CodePointToUTF8, Unit, NoneAlone, CharLength, ValidUtf8;
    if cs == [] {
      NothingAlone();
    } else if cs[0].Plain? {
      PlainValid(cs);
    } else if cs[0].Escape? {
      EscapeValid(cs);
    } else if HighAt(cs, 0) {
      PairValid(cs);
    } else if LowAt(cs, 0) {
      LowInvalid(cs);
    } else {
      UnicodeValid(cs);
    }
  }

  lemma NothingAlone()
    ensures NoneAlone([]) && ValidUtf8([])
  {
  }

  lemma {:induction false} PlainValid(cs: seq<Char>)
    requires ReadableChars(cs) && Unescaped(cs).Some? && cs != [] && cs[0].Plain?
    ensures ValidUtf8(Unescaped(cs).value) <==> ValidUtf8(Spelled(cs)) && NoneAlone(cs)
    decreases |cs|, 0
  {
    hide Unescaped, Spelled, NoneAlone, CharLength, AllTails;
    var s, t := Spelled(cs), Unescaped(cs).value;
    TailInFront(cs);
    if CharLength(t) > 0 || CharLength(s) > 0 {
      var u := if CharLength(t) > 0 then t else s;
      var n := CharLength(u);
      if n > 1 {
        TailsOfChar(u);
        assert u[1..n] == u[1..][..n - 1];
        assert t[1..] == Unescaped(cs[1..]).value && s[1..] == Spelled(cs[1..]);
        TailsInFront(cs[1..], n - 1);
        assert cs[1..][n - 1..] == cs[n..];
        assert s[1..][n - 1..] == s[n..] && t[1..][n - 1..] == t[n..];
        assert s[..n] == [s[0]] + s[1..][..n - 1] && t[..n] == [t[0]] + t[1..][..n - 1];
        forall k | 0 <= k < n ensures cs[k].Plain? {
          if k > 0 {
            assert cs[1..][k - 1].Plain?;
          }
        }
      }
      SameLength(u, s);
      SameLength(u, t);
      PlainRowBehind(cs, n);
      ValidExactly(cs[n..]);
    }
  }

  lemma {:induction false} EscapeValid(cs: seq<Char>)
    requires ReadableChars(cs) && Unescaped(cs).Some? && cs != [] && cs[0].Escape?
    ensures ValidUtf8(Unescaped(cs).value) <==> ValidUtf8(Spelled(cs)) && NoneAlone(cs)
    decreases |cs|, 0
  {
    hide NoneAlone, ValidUtf8;
    AsciiInFront([Meant(cs[0].letter)], Unescaped(cs[1..]).value);
    AsciiInFront(CharText(cs[0]), Spelled(cs[1..]));
    NoneAloneBehind(cs, 1);
    ValidExactly(cs[1..]);
  }

  lemma UnicodeIsAscii(ch: Char)
    requires ReadableChar(ch) && ch.Unicode?
    ensures forall k :: 0 <= k < |CharText(ch)| ==> CharText(ch)[k] < 0x80
  {
    assert forall k :: 2 <= k < 6 ==> HexValue(CharText(ch)[k]) >= 0;
  }

  // One character in front, as it is encoded.
  lemma ScalarInFront(cp: nat, rest: bytes)
    requires Scalar(cp)
    ensures ValidUtf8(CodePointToUTF8(cp) + rest) <==> ValidUtf8(rest)
  {
    hide CodePointToUTF8, CharLength;
    EncodeThenDecode(cp, rest);
    var e := CodePointToUTF8(cp);
    assert (e + rest)[|e|..] == rest;
  }

  lemma {:induction false} UnicodeValid(cs: seq<Char>)
    requires ReadableChars(cs) && Unescaped(cs).Some? && cs != [] && cs[0].Unicode?
    requires !HighAt(cs, 0) && !LowAt(cs, 0)
    ensures ValidUtf8(Unescaped(cs).value) <==> ValidUtf8(Spelled(cs)) && NoneAlone(cs)
    decreases |cs|, 0
  {
    hide NoneAlone, ValidUtf8, Unit, CodePointToUTF8;
    ScalarInFront(Unit(cs[0].digits), Unescaped(cs[1..]).value);
    UnicodeIsAscii(cs[0]);
    AsciiInFront(CharText(cs[0]), Spelled(cs[1..]));
    NoneAloneBehind(cs, 1);
    ValidExactly(cs[1..]);
  }

  lemma {:induction false} PairValid(cs: seq<Char>)
    requires ReadableChars(cs) && Unescaped(cs).Some? && HighAt(cs, 0)
    ensures ValidUtf8(Unescaped(cs).value) <==> ValidUtf8(Spelled(cs)) && NoneAlone(cs)
    decreases |cs|, 0
  {
    hide NoneAlone, ValidUtf8, Unit, CodePointToUTF8, CharText;
    var cp := Paired(Unit(cs[0].digits), Unit(cs[1].digits));
    PairedIsScalar(Unit(cs[0].digits), Unit(cs[1].digits));
    ScalarInFront(cp, Unescaped(cs[2..]).value);
    UnicodeIsAscii(cs[0]);
    UnicodeIsAscii(cs[1]);
    assert cs[1..][1..] == cs[2..];
    AsciiInFront(CharText(cs[1]), Spelled(cs[2..]));
    AsciiInFront(CharText(cs[0]), Spelled(cs[1..]));
    NoneAloneBehind(cs, 2);
    ValidExactly(cs[2..]);
  }

  lemma LowInvalid(cs: seq<Char>)
    requires ReadableChars(cs) && Unescaped(cs).Some? && LowAt(cs, 0)
    ensures !ValidUtf8(Unescaped(cs).value) && !NoneAlone(cs)
  {
    hide Unit, CodePointToUTF8, CharLength;
    LowIsNoChar(Unit(cs[0].digits), Unescaped(cs[1..]).value);
    LeadByte(Unit(cs[0].digits));
    assert !OddRow(cs, 0);
  }
}
