/** How the writers quote a string: valueToQuotedStringN and its helpers. */
module Quoting {
  import opened Bytes
  import opened Utf8

  const QUOTE: byte := 0x22
  const BACKSLASH: byte := 0x5C
  const LETTER_U: byte := 0x75

  function HexDigit(d: int): byte
    requires 0 <= d < 16
  {
    if d < 10 then 0x30 + d else 0x57 + d
  }

  // Entry k of the table hex2 is the two digits of the byte k.
  function Hex2(k: int): bytes
    requires 0 <= k < 256
  {
    [HexDigit(k / 16), HexDigit(k % 16)]
  }

  function ToHex16Bit(x: nat): bytes {
    Hex2(x / 256 % 256) + Hex2(x % 256)
  }

  function HexEscape(ch: nat): bytes {
    [BACKSLASH, LETTER_U] + ToHex16Bit(ch)
  }

  // The seven characters with an escape of their own; [] for all others.
  function ShortEscape(c: int): bytes {
    if c == 0x22 then [BACKSLASH, 0x22]
    else if c == 0x5C then [BACKSLASH, 0x5C]
    else if c == 0x08 then [BACKSLASH, 0x62]
    else if c == 0x0C then [BACKSLASH, 0x66]
    else if c == 0x0A then [BACKSLASH, 0x6E]
    else if c == 0x0D then [BACKSLASH, 0x72]
    else if c == 0x09 then [BACKSLASH, 0x74]
    else []
  }

  function EscapeByte(c: byte): bytes {
    if ShortEscape(c) != [] then ShortEscape(c)
    else if c < 0x20 then HexEscape(c)
    else [c]
  }

  function EscapeCodePoint(cp: nat): bytes {
    if ShortEscape(cp) != [] then ShortEscape(cp)
    else if cp < 0x20 then HexEscape(cp)
    else if cp < 0x80 then [cp]
    else if cp < 0x10000 then HexEscape(cp)
    else
      var v := cp - 0x10000;
      HexEscape(0xD800 + v / 1024 % 1024) + HexEscape(0xDC00 + v % 1024)
  }

  // The text between the quotes: byte by byte, or code point by code point.
  function Escaped(s: bytes, emitUTF8: bool): bytes
    decreases |s|
  {
    if s == [] then []
    else if emitUTF8 then EscapeByte(s[0]) + Escaped(s[1..], emitUTF8)
    else
      var st := Utf8ToCodepoint(s);
      EscapeCodePoint(st.cp) + Escaped(s[st.last + 1..], emitUTF8)
  }

  function Quoted(s: bytes, emitUTF8: bool): bytes {
    [QUOTE] + Escaped(s, emitUTF8) + [QUOTE]
  }

  predicate RequiresEscaping(c: byte) {
    c == BACKSLASH || c == QUOTE || c < 0x20 || c > 0x7F
  }

  lemma PlainTurn(s: bytes, emitUTF8: bool)
    requires s != [] && !RequiresEscaping(s[0])
    ensures Escaped(s, emitUTF8) == [s[0]] + Escaped(s[1..], emitUTF8)
  {
    hide HexEscape;
  }

  /** The shortcut for strings without special characters writes what the loop would. */
  lemma {:induction false} NothingToEscape(s: bytes, emitUTF8: bool)
    requires forall c | c in s :: !RequiresEscaping(c)
    ensures Escaped(s, emitUTF8) == s
    decreases |s|
  {
    if s != [] {
      PlainTurn(s, emitUTF8);
      NothingToEscape(s[1..], emitUTF8);
      assert s == [s[0]] + s[1..];
    }
  }

  method DoesAnyCharRequireEscaping(s: bytes) returns (any: bool)
    ensures any <==> exists c | c in s :: c == 92 || c == 34 || c < 32 || c > 127
  {
    any := false;
    for k := 0 to |s|
      invariant forall c | c in s[..k] :: !RequiresEscaping(c)
    {
      if RequiresEscaping(s[k]) {
        assert s[k] in s;
        return true;
      }
    }
    assert s[..|s|] == s;
  }

  // The last branch of the loop, for a code point without a short escape.
  method AppendCodePoint(result: bytes, cp: nat) returns (r: bytes)
    requires ShortEscape(cp) == []
    ensures r == result + EscapeCodePoint(cp)
  {
    if cp < 0x20 {
      r := result + HexEscape(cp);
    } else if cp < 0x80 {
      r := result + [cp];
    } else if cp < 0x10000 {
      r := result + HexEscape(cp);
    } else {
      var v := cp - 0x10000;
      r := result + HexEscape(0xD800 + v / 1024 % 1024);
      r := r + HexEscape(0xDC00 + v % 1024);
    }
  }

  // One turn of the loop: what it writes, and how far the pointer moves.
  datatype Piece = Piece(text: bytes, size: nat)

  function Turn(s: bytes, emitUTF8: bool): (p: Piece)
    requires s != []
    ensures 0 < p.size <= |s|
  {
    if emitUTF8 then Piece(EscapeByte(s[0]), 1)
    else Piece(EscapeCodePoint(Utf8ToCodepoint(s).cp), Utf8ToCodepoint(s).last + 1)
  }

  // The loop has written the pieces before c: with the rest of the value escaped it gives the goal.
  ghost predicate Written(result: bytes, value: bytes, c: nat, emitUTF8: bool, goal: bytes) {
    c <= |value| && result + Escaped(value[c..], emitUTF8) == goal
  }

  lemma WriteTurn(result: bytes, value: bytes, c: nat, emitUTF8: bool, goal: bytes)
    requires c < |value| && Written(result, value, c, emitUTF8, goal)
    ensures var p := Turn(value[c..], emitUTF8);
            Written(result + p.text, value, c + p.size, emitUTF8, goal)
  {
    var rest, p := value[c..], Turn(value[c..], emitUTF8);
    assert rest[p.size..] == value[c + p.size..];
    assert Escaped(rest, emitUTF8) == p.text + Escaped(rest[p.size..], emitUTF8);
    Resume(result, p.text, Escaped(rest[p.size..], emitUTF8));
  }

  lemma WriteEnds(result: bytes, value: bytes, emitUTF8: bool, goal: bytes)
    ensures Written([QUOTE], value, 0, emitUTF8, [QUOTE] + Escaped(value, emitUTF8))
    ensures Written(result, value, |value|, emitUTF8, goal) ==> result == goal
  {
    assert value[0..] == value && value[|value|..] == [];
  }

  method AppendPiece(value: bytes, at: nat, emitUTF8: bool, result: bytes) returns (r: bytes, next: nat)
    requires at < |value|
    ensures r == result + Turn(value[at..], emitUTF8).text
    ensures next == at + Turn(value[at..], emitUTF8).size
  {
    next := at;
    if ShortEscape(value[at]) != [] {
      r := result + ShortEscape(value[at]);
    } else if emitUTF8 {
      r := result + if value[at] < 0x20 then HexEscape(value[at]) else [value[at]];
    } else {
      var st := Utf8ToCodepoint(value[at..]);
      next := at + st.last;
      r := AppendCodePoint(result, st.cp);
    }
    next := next + 1;
  }

  /** The loop of the source, with the pointer that utf8ToCodepoint moves, and its shortcut. */
  method ValueToQuotedStringN(value: bytes, emitUTF8: bool := false) returns (result: bytes)
    ensures result == Quoted(value, emitUTF8)
  {
    var special := DoesAnyCharRequireEscaping(value);
    if !special {
      NothingToEscape(value, emitUTF8);
      return [QUOTE] + value + [QUOTE];
    }
    hide Turn, Written;
    result := [QUOTE];
    var c := 0;
    ghost var goal := [QUOTE] + Escaped(value, emitUTF8);
    WriteEnds([], value, emitUTF8, goal);
    while c != |value|
      invariant c <= |value| && Written(result, value, c, emitUTF8, goal)
      decreases |value| - c
    {
      WriteTurn(result, value, c, emitUTF8, goal);
      result, c := AppendPiece(value, c, emitUTF8, result);
    }
    WriteEnds(result, value, emitUTF8, goal);
    result := result + [QUOTE];
  }
}
