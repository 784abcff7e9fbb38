/** Bytes and byte strings: what a `char` buffer of the program holds. */
module Bytes {
  type byte = b: int | 0 <= b < 256
  type bytes = seq<byte>

  // The bytes of an ASCII literal.
  function Ascii(s: string): bytes {
    seq(|s|, k requires 0 <= k < |s| => if s[k] < 128 as char then s[k] as int else 0)
  }

  lemma Rejoin<T>(s: seq<T>, n: nat)
    requires n <= |s|
    ensures s[..n] + s[n..] == s
  {
  }

  lemma SliceOfSlice<T>(s: seq<T>, a: int, m: int, i: int, j: int)
    requires 0 <= a <= m <= |s| && 0 <= i <= j <= m - a
    ensures s[a..m][i..j] == s[a + i..a + j]
  {
    var x, y := s[a..m][i..j], s[a + i..a + j];
    assert |x| == |y|;
    forall k | 0 <= k < |y| ensures x[k] == y[k] {
      assert x[k] == s[a..m][i + k];
    }
  }

  lemma DropTwice<T>(s: seq<T>, i: nat, k: nat)
    requires i + k <= |s|
    ensures s[i..][k..] == s[i + k..]
  {
  }

  lemma Resume<T>(done: seq<T>, piece: seq<T>, rest: seq<T>)
    ensures done + piece + rest == done + (piece + rest)
  {
  }
}
