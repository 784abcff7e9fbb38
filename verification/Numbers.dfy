/** Integers as text: the readers' decodeNumber and the writers' valueToString. */
module Numbers {
  import opened Bytes

  const MINUS: byte := 0x2D

  const MAX_INT64: int := 0x7FFF_FFFF_FFFF_FFFF
  const MIN_INT64: int := -0x8000_0000_0000_0000
  const MAX_UINT64: int := 0xFFFF_FFFF_FFFF_FFFF
  const MAX_INT32: int := 0x7FFF_FFFF

  // The 64-bit machine types: every arithmetic result of these types is proved to fit.
  newtype uint64 = x: int | 0 <= x <= 0xFFFF_FFFF_FFFF_FFFF
  newtype int64 = x: int | -0x8000_0000_0000_0000 <= x <= 0x7FFF_FFFF_FFFF_FFFF

  // A decoded number: a signed or an unsigned integer, or text left to the conversion to double.
  datatype Number = IntNumber(i: int) | UIntNumber(u: int) | AsDouble

  predicate Digit(c: byte) { 0x30 <= c <= 0x39 }

  predicate AllDigits(s: bytes) { forall k :: 0 <= k < |s| ==> Digit(s[k]) }

  // The number that decimal digits denote.
  function NatOf(s: bytes): nat
    requires AllDigits(s)
  {
    if s == [] then 0 else NatOf(s[..|s| - 1]) * 10 + (s[|s| - 1] as int - 0x30)
  }

  function Unsigned(token: bytes): bytes {
    if token != [] && token[0] == MINUS then token[1..] else token
  }

  // An optional '-' and digits (for the readers a lone '-' is one too, and denotes 0).
  predicate IntegerToken(token: bytes) { AllDigits(Unsigned(token)) }

  // The mathematical integer such a token denotes.
  function IntegerOf(token: bytes): int
    requires IntegerToken(token)
  {
    if token != [] && token[0] == MINUS then -(NatOf(token[1..]) as int) else NatOf(token)
  }

  /** What OurReader::decodeNumber must give: the exact integer, whenever 64 bits can hold it. */
  function DecodeInteger(token: bytes): (r: Number)
    ensures r.IntNumber? ==> MIN_INT64 <= r.i <= MAX_INT64
    ensures r.UIntNumber? ==> MAX_INT64 < r.u <= MAX_UINT64
  {
    if !IntegerToken(token) then AsDouble
    else
      var n := IntegerOf(token);
      if n < MIN_INT64 || n > MAX_UINT64 then AsDouble
      else if n <= MAX_INT64 then IntNumber(n)
      else UIntNumber(n)
  }

  /** What the older Reader::decodeNumber gives: signed only up to 2^31 - 1. */
  function OldDecodeInteger(token: bytes): Number {
    if !IntegerToken(token) then AsDouble
    else
      var n := IntegerOf(token);
      if n < MIN_INT64 || n > MAX_UINT64 then AsDouble
      else if n <= MAX_INT32 then IntNumber(n)
      else UIntNumber(n)
  }

  /** The number of an integer token: signed if it fits, unsigned if only that does, and otherwise left to
      the conversion to double; for the older reader signed only up to 2^31 - 1. */
  lemma DecodedTypes(token: bytes, n: int)
    requires IntegerToken(token) && IntegerOf(token) == n
    ensures DecodeInteger(token) == IntNumber(n) <==> -9223372036854775808 <= n <= 9223372036854775807
    ensures DecodeInteger(token) == UIntNumber(n) <==> 9223372036854775807 < n <= 18446744073709551615
    ensures DecodeInteger(token) == AsDouble <==> n < -9223372036854775808 || n > 18446744073709551615
    ensures OldDecodeInteger(token) == IntNumber(n) <==> -9223372036854775808 <= n <= 2147483647
    ensures OldDecodeInteger(token) == UIntNumber(n) <==> 2147483647 < n <= 18446744073709551615
    ensures OldDecodeInteger(token) == AsDouble <==> n < -9223372036854775808 || n > 18446744073709551615
  {
  }

  function NumberValue(r: Number): int
    requires !r.AsDouble?
  {
    if r.IntNumber? then r.i else r.u
  }

  lemma ReadersAgree(token: bytes)
    ensures DecodeInteger(token).AsDouble? <==> OldDecodeInteger(token).AsDouble?
    ensures !DecodeInteger(token).AsDouble? ==>
              NumberValue(DecodeInteger(token)) == NumberValue(OldDecodeInteger(token))
  {
  }

  // A longer digit string denotes at least ten times the number.
  lemma {:induction false} LongerIsLarger(s: bytes, k: nat)
    requires AllDigits(s) && k <= |s|
    ensures AllDigits(s[..k]) && NatOf(s) >= NatOf(s[..k])
    ensures k < |s| ==> NatOf(s) >= 10 * NatOf(s[..k])
  {
    if k == |s| {
      assert s[..k] == s;
    } else {
      var t := s[..|s| - 1];
      LongerIsLarger(t, k);
      assert t[..k] == s[..k];
    }
  }

  lemma NextDigit(s: bytes, k: nat)
    requires k < |s| && AllDigits(s[..k])
    ensures Digit(s[k]) ==> AllDigits(s[..k + 1])
                            && NatOf(s[..k + 1]) == NatOf(s[..k]) * 10 + (s[k] as int - 0x30)
    ensures !Digit(s[k]) ==> !AllDigits(s)
  {
    assert s[..k + 1][..k] == s[..k];
    assert s[..k + 1] == s[..k] + [s[k]];
  }

  /** The loop both readers share: accumulate in 64 bits, giving up on a non-digit or just before
      the value would exceed threshold * 10 + lastDigit. */
  method AccumulateDigits(digits: bytes, threshold: uint64, lastDigit: uint64) returns (ok: bool, value: uint64)
    requires lastDigit < 10
    requires 0 < threshold as int && threshold as int * 10 + lastDigit as int <= MAX_UINT64
    ensures ok <==> AllDigits(digits) && NatOf(digits) <= threshold as int * 10 + lastDigit as int
    ensures ok ==> value as int == NatOf(digits)
  {
    value := 0;
    var current := 0;
    ghost var max := threshold as int * 10 + lastDigit as int;
    while current < |digits|
      invariant current <= |digits|
      invariant AllDigits(digits[..current]) && value as int == NatOf(digits[..current]) <= max
    {
      var c := digits[current];
      ghost var before := current;
      NextDigit(digits, before);
      current := current + 1;
      if c < 0x30 || c > 0x39 {
        return false, value;
      }
      var digit := (c - 0x30) as uint64;
      if value >= threshold {
        if value > threshold || current != |digits| || digit > lastDigit {
          if AllDigits(digits) {
            LongerIsLarger(digits, before);
            LongerIsLarger(digits, current);
            assert digits[..|digits|] == digits;
          }
          return false, value;
        }
      }
      value := value * 10 + digit;
    }
    assert digits[..current] == digits;
    ok := true;
  }

  /** OurReader::decodeNumber on the text of a number token. */
  method DecodeNumber(token: bytes) returns (r: Number)
    requires token != []
    ensures r == DecodeInteger(token)
  {
    var isNegative := token[0] == MINUS;
    if isNegative {
      var ok, value := AccumulateDigits(token[1..], 922337203685477580, 8);
      if !ok {
        return AsDouble;
      }
      var lastDigit := (value % 10) as int64;
      var decoded: int64 := -((value / 10) as int64) * 10 - lastDigit;
      return IntNumber(decoded as int);
    }
    var ok, value := AccumulateDigits(token, 1844674407370955161, 5);
    if !ok {
      return AsDouble;
    }
    if value as int <= MAX_INT64 {
      return IntNumber(value as int);
    }
    return UIntNumber(value as int);
  }

  /** The older Reader::decodeNumber. */
  method OldDecodeNumber(token: bytes) returns (r: Number)
    requires token != []
    ensures r == OldDecodeInteger(token)
  {
    var isNegative := token[0] == MINUS;
    var maxIntegerValue: uint64 := if isNegative then 0x7FFF_FFFF_FFFF_FFFF + 1 else 0xFFFF_FFFF_FFFF_FFFF;
    var threshold := maxIntegerValue / 10;
    var ok, value := AccumulateDigits(if isNegative then token[1..] else token, threshold, maxIntegerValue % 10);
    if !ok {
      return AsDouble;
    }
    if isNegative && value == maxIntegerValue {
      return IntNumber(MIN_INT64);
    } else if isNegative {
      var decoded := -(value as int64);
      return IntNumber(decoded as int);
    } else if value as int <= MAX_INT32 {
      return IntNumber(value as int);
    }
    return UIntNumber(value as int);
  }

  // Printing ----------------------------------------------------------------------------------

  function Decimal(n: nat): (s: bytes)
    ensures s != [] && AllDigits(s)
    ensures s[0] != MINUS
  {
    if n < 10 then [n + 0x30] else Decimal(n / 10) + [n % 10 + 0x30]
  }

  function IntText(i: int): bytes {
    if i < 0 then [MINUS] + Decimal(-i) else Decimal(i)
  }

  lemma {:induction false} DecimalDenotes(n: nat)
    ensures NatOf(Decimal(n)) == n
  {
    if n < 10 {
      assert Decimal(n)[..0] == [];
    } else {
      DecimalDenotes(n / 10);
      assert Decimal(n)[..|Decimal(n)| - 1] == Decimal(n / 10);
    }
  }

  /** Printing then reading is exact, and settles the tag: signed whenever that is possible. */
  lemma IntegerRoundTrip(i: int)
    requires MIN_INT64 <= i <= MAX_UINT64
    ensures IntegerToken(IntText(i)) && IntegerOf(IntText(i)) == i
    ensures DecodeInteger(IntText(i)) == if i <= MAX_INT64 then IntNumber(i) else UIntNumber(i)
  {
    if i < 0 {
      DecimalDenotes(-i);
      assert IntText(i)[1..] == Decimal(-i);
    } else {
      DecimalDenotes(i);
    }
  }

  function Power10(k: nat): nat { if k == 0 then 1 else 10 * Power10(k - 1) }

  lemma {:induction false} DecimalLength(n: nat, k: nat)
    requires k > 0 && n < Power10(k)
    ensures |Decimal(n)| <= k
  {
    if n >= 10 {
      assert k > 1;
      DecimalLength(n / 10, k - 1);
    }
  }

  lemma LastDigit(n: nat)
    ensures Decimal(n) == (if n / 10 == 0 then [] else Decimal(n / 10)) + [n % 10 + 0x30]
  {
  }

  lemma Uint64Length(n: nat)
    requires n <= MAX_UINT64
    ensures |Decimal(n)| <= 20
  {
    assert Power10(5) == 100000;
    assert Power10(10) == 10000000000;
    assert Power10(15) == 1000000000000000;
    assert Power10(20) == 100000000000000000000;
    DecimalLength(n, 20);
  }

  lemma MoveDigit(todo: bytes, d: byte, done: bytes, before: bytes)
    requires before == [d] + done
    ensures todo + [d] + done == todo + before
  {
  }

  // *--current = c
  method PutBefore(buffer: array<byte>, current: nat, end: nat, c: byte)
    requires 0 < current <= end <= buffer.Length
    modifies buffer
    ensures buffer[current - 1..end] == [c] + old(buffer[current..end])
    ensures buffer[end..] == old(buffer[end..])
  {
    buffer[current - 1] := c;
  }

  /** uintToString: digits and a terminating 0, written downwards from `end`. */
  method UintToString(value: uint64, buffer: array<byte>, end: nat) returns (current: nat)
    requires 21 <= end <= buffer.Length
    modifies buffer
    ensures end - 21 <= current < end
    ensures buffer[current..end] == Decimal(value as int) + [0]
    ensures buffer[end..] == old(buffer[end..])
  {
    Uint64Length(value as int);
    ghost var text := Decimal(value as int) + [0];
    current := end - 1;
    buffer[current] := 0;
    var rest := value;
    while true
      invariant current < end
      invariant Decimal(rest as int) + buffer[current..end] == text
      invariant buffer[end..] == old(buffer[end..])
      decreases rest
    {
      ghost var written := buffer[current..end];
      ghost var todo := if rest / 10 == 0 then [] else Decimal((rest / 10) as int);
      LastDigit(rest as int);
      var digit: byte := (rest % 10) as int + 0x30;
      PutBefore(buffer, current, end, digit);
      current := current - 1;
      MoveDigit(todo, digit, written, buffer[current..end]);
      rest := rest / 10;
      if rest == 0 {
        break;
      }
    }
  }

  // The C string that starts at `from`: the bytes before the first 0.
  function CString(s: bytes): bytes
  {
    if s == [] || s[0] == 0 then [] else [s[0]] + CString(s[1..])
  }

  lemma {:induction false} CStringOfDigits(s: bytes)
    requires AllDigits(s)
    ensures CString(s + [0]) == s
  {
    if s != [] {
      assert (s + [0])[1..] == s[1..] + [0];
      CStringOfDigits(s[1..]);
    }
  }

  lemma CStringOfSigned(digits: bytes)
    requires CString(digits + [0]) == digits
    ensures CString([MINUS] + (digits + [0])) == [MINUS] + digits
  {
    assert ([MINUS] + (digits + [0]))[1..] == digits + [0];
  }

  const BUFFER_SIZE := 25  // uintToStringBufferSize: 3 * sizeof(LargestUInt) + 1

  /** valueToString(LargestUInt): never writes before its buffer. */
  method UIntToText(value: uint64) returns (text: bytes)
    ensures text == IntText(value as int)
  {
    var buffer := new byte[BUFFER_SIZE];
    var current := UintToString(value, buffer, BUFFER_SIZE);
    CStringOfDigits(Decimal(value as int));
    text := CString(buffer[current..BUFFER_SIZE]);
  }

  /** valueToString(LargestInt): the smallest value is negated without overflow. */
  method IntToText(value: int64) returns (text: bytes)
    ensures text == IntText(value as int)
  {
    hide Decimal, CString, AllDigits;
    var buffer := new byte[BUFFER_SIZE];
    var current: nat;
    if value as int == MIN_INT64 {
      current := UintToString(0x7FFF_FFFF_FFFF_FFFF + 1, buffer, BUFFER_SIZE);
    } else if value < 0 {
      current := UintToString((-value) as uint64, buffer, BUFFER_SIZE);
    } else {
      current := UintToString(value as uint64, buffer, BUFFER_SIZE);
    }
    ghost var digits := Decimal(if value < 0 then -(value as int) else value as int);
    CStringOfDigits(digits);
    if value < 0 {
      CStringOfSigned(digits);
      PutBefore(buffer, current, BUFFER_SIZE, MINUS);
      current := current - 1;
    }
    text := CString(buffer[current..BUFFER_SIZE]);
  }
}
