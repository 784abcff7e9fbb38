/** A token depends on its own bytes only: cutting the text off behind it changes nothing. */
module LexLocal {
  import opened Bytes
  import opened Numbers
  import opened Quoting
  import opened Unquoting
  import opened Lexer

  lemma {:induction false} SpacesLocal(s: bytes, n: nat)
    requires Spaces(s) <= n <= |s|
    ensures Spaces(s[..n]) == Spaces(s)
  {
    if s != [] && Space(s[0]) {
      assert s[..n][1..] == s[1..][..n - 1];
      SpacesLocal(s[1..], n - 1);
    }
  }

  lemma {:induction false} DigitsLocal(s: bytes, n: nat)
    requires DigitRun(s) <= n <= |s|
    ensures DigitRun(s[..n]) == DigitRun(s)
  {
    if s != [] && Digit(s[0]) {
      assert s[..n][1..] == s[1..][..n - 1];
      DigitsLocal(s[1..], n - 1);
    }
  }

  lemma ExponentLocal(s: bytes, n: nat)
    requires ExponentRun(s) <= n <= |s|
    ensures ExponentRun(s[..n]) == ExponentRun(s)
  {
    if s != [] && (s[0] == 0x65 || s[0] == 0x45) {
      if |s| > 1 && (s[1] == 0x2B || s[1] == 0x2D) {
        assert s[..n][2..] == s[2..][..n - 2];
        DigitsLocal(s[2..], n - 2);
      } else {
        assert s[..n][1..] == s[1..][..n - 1];
        DigitsLocal(s[1..], n - 1);
      }
    }
  }

  lemma FractionLocal(s: bytes, n: nat)
    requires FractionRun(s) <= n <= |s|
    ensures FractionRun(s[..n]) == FractionRun(s)
  {
    if s != [] && s[0] == 0x2E {
      assert s[..n][1..] == s[1..][..n - 1];
      DigitsLocal(s[1..], n - 1);
    }
  }

  lemma NumberLocal(s: bytes, n: nat)
    requires NumberRun(s) <= n <= |s|
    ensures NumberRun(s[..n]) == NumberRun(s)
  {
    hide DigitRun, FractionRun, ExponentRun;
    var d := DigitRun(s);
    var p := d + FractionRun(s[d..]);
    DigitsLocal(s, n);
    assert s[..n][d..] == s[d..][..n - d] && s[..n][p..] == s[p..][..n - p];
    FractionLocal(s[d..], n - d);
    ExponentLocal(s[p..], n - p);
  }

  lemma {:induction false} StringLocal(s: bytes, q: byte, n: nat)
    requires 0 < ScanString(s, q) <= n <= |s|
    ensures ScanString(s[..n], q) == ScanString(s, q)
    decreases |s|
  {
    if s[0] == BACKSLASH {
      assert s[..n][2..] == s[2..][..n - 2];
      StringLocal(s[2..], q, n - 2);
    } else if s[0] != q {
      assert s[..n][1..] == s[1..][..n - 1];
      StringLocal(s[1..], q, n - 1);
    }
  }

  lemma {:induction false} BlockLocal(s: bytes, n: nat)
    requires BlockComment(s).size <= n <= |s|
    ensures s != [] ==> BlockComment(s).size > 0
    ensures BlockComment(s[..n]) == BlockComment(s)
    decreases |s|
  {
    if |s| > 1 && !(s[0] == 0x2A && s[1] == 0x2F) {
      var m := BlockComment(s[1..]).size;
      assert s[1..][..n - 1] == s[..n][1..];
      BlockLocal(s[1..], n - 1);
    } else {
      assert n == |s| ==> s[..n] == s;
    }
  }

  lemma {:induction false} LineLocal(s: bytes, n: nat)
    requires LineComment(s) <= n <= |s|
    ensures LineComment(s[..n]) == LineComment(s)
    decreases |s|
  {
    if s != [] && s[0] != 0x0A && s[0] != 0x0D {
      assert s[1..][..n - 1] == s[..n][1..];
      LineLocal(s[1..], n - 1);
    }
  }

  lemma WordLocal(s: bytes, kind: TokenType, rest: bytes, used: nat, n: nat)
    requires used <= |s| && Word(s, kind, rest, used).size <= n <= |s|
    ensures Word(s[..n], kind, rest, used) == Word(s, kind, rest, used)
  {
    assert s[..n][used..] == s[used..][..n - used];
    if rest <= s[..n][used..] {
      assert s[used..][..|rest|] == s[..n][used..][..|rest|] == rest;
    }
  }

  lemma CommentLocal(s: bytes, n: nat)
    requires s != [] && LexComment(s).size <= n <= |s|
    ensures LexComment(s[..n]) == LexComment(s)
  {
    hide BlockComment, LineComment;
    if |s| > 1 && s[1] == 0x2A {
      assert s[..n][2..] == s[2..][..n - 2];
      BlockLocal(s[2..], n - 2);
    } else if |s| > 1 && s[1] == 0x2F {
      assert s[..n][2..] == s[2..][..n - 2];
      LineLocal(s[2..], n - 2);
    }
  }

  lemma QuotedLocal(s: bytes, q: byte, n: nat)
    requires s != [] && LexString(s, q).size <= n <= |s|
    ensures LexString(s[..n], q) == LexString(s, q)
  {
    hide ScanString;
    if ScanString(s[1..], q) < 0 {
      assert s[..n] == s;
    } else {
      assert s[..n][1..] == s[1..][..n - 1];
      StringLocal(s[1..], q, n - 1);
    }
  }

  lemma SignedLocal(f: Features, s: bytes, infinity: TokenType, n: nat)
    requires s != [] && LexSigned(f, s, infinity).size <= n <= |s|
    ensures LexSigned(f, s[..n], infinity) == LexSigned(f, s, infinity)
  {
    hide NumberRun, Word;
    if |s| > 1 && s[1] == 0x49 {
      if f.allowSpecialFloats {
        WordLocal(s, infinity, INFINITY_REST, 2, n);
      }
    } else {
      assert s[..n][1..] == s[1..][..n - 1];
      NumberLocal(s[1..], n - 1);
    }
  }

  lemma WordsLocal(f: Features, s: bytes, n: nat)
    requires s != [] && s[0] in {0x74, 0x66, 0x6E, 0x4E, 0x49} && LexAt(f, s).size <= n <= |s|
    ensures LexAt(f, s[..n]) == LexAt(f, s)
  {
    hide Word;
    if s[0] == 0x74 {
      WordLocal(s, TrueToken, TRUE_REST, 1, n);
    } else if s[0] == 0x66 {
      WordLocal(s, FalseToken, FALSE_REST, 1, n);
    } else if s[0] == 0x6E {
      WordLocal(s, NullToken, NULL_REST, 1, n);
    } else if f.allowSpecialFloats {
      if s[0] == 0x4E {
        WordLocal(s, NaNToken, NAN_REST, 1, n);
      } else {
        WordLocal(s, PosInfToken, INFINITY_REST, 1, n);
      }
    }
  }

  lemma LexLocally(f: Features, s: bytes, n: nat)
    requires s != [] && LexAt(f, s).size <= n <= |s|
    ensures LexAt(f, s[..n]) == LexAt(f, s)
  {
    hide NumberRun, LexString, LexComment, LexSigned, Word;
    var c := s[0];
    if c in {0x74, 0x66, 0x6E, 0x4E, 0x49} {
      WordsLocal(f, s, n);
    } else if c == 0x22 || (c == 0x27 && f.allowSingleQuotes) {
      QuotedLocal(s, c, n);
    } else if c == 0x2F {
      CommentLocal(s, n);
    } else if Digit(c) {
      assert s[..n][1..] == s[1..][..n - 1];
      NumberLocal(s[1..], n - 1);
    } else if c == 0x2D {
      SignedLocal(f, s, NegInfToken, n);
    } else if c == 0x2B {
      SignedLocal(f, s, PosInfToken, n);
    }
  }

  function Shifted(t: Token, a: int): Token
    requires t.start >= a && t.end >= a
  {
    Token(t.kind, t.start - a, t.end - a)
  }

  // w is the part [a, m) of the document.
  ghost predicate IsWindow(w: bytes, doc: bytes, a: nat, m: nat) {
    a <= m <= |doc| && w == doc[a..m]
  }

  lemma WindowTail(doc: bytes, w: bytes, a: nat, m: nat, i: nat)
    requires IsWindow(w, doc, a, m) && a <= i <= m
    ensures m <= |doc| && |w| == m - a && w[i - a..] == doc[i..][..m - i]
    ensures i < m ==> w[i - a] == doc[i]
  {
  }

  lemma SpacesInWindow(doc: bytes, w: bytes, a: nat, m: nat, i: nat)
    requires IsWindow(w, doc, a, m) && a <= i && i <= m && i + Spaces(doc[i..]) <= m
    ensures Spaces(w[i - a..]) == Spaces(doc[i..])
  {
    WindowTail(doc, w, a, m, i);
    SpacesLocal(doc[i..], m - i);
  }

  /** In any window of the document that contains a token, the lexer reads that same token. */
  lemma TokenInWindow(f: Features, doc: bytes, w: bytes, a: nat, m: nat, i: nat)
    requires IsWindow(w, doc, a, m) && a <= i <= m && ReadToken(f, doc, i).end <= m
    ensures ReadToken(f, w, i - a) == Shifted(ReadToken(f, doc, i), a)
  {
    hide LexAt, Spaces, Space, IsWindow;
    var at := i + Spaces(doc[i..]);
    WindowTail(doc, w, a, m, i);
    SpacesInWindow(doc, w, a, m, i);
    if at < |doc| {
      WindowTail(doc, w, a, m, at);
      LexLocally(f, doc[at..], m - at);
    }
  }
}
