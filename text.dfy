/** The two JavaScript string operations the core relies on:
    `String.prototype.trim` and `String.prototype.toUpperCase`. */
module Text {

  /** The characters `trim` removes: ECMAScript WhiteSpace (TAB, VT, FF,
      SPACE, NBSP, ZWNBSP and every other Zs character) and LineTerminator
      (LF, CR, LS, PS). */
  predicate IsWhitespace(c: char)
  {
    || c == '\t' || c == '\n' || c == '\U{B}' || c == '\U{C}' || c == '\r' || c == ' '
    || c == '\U{A0}' || c == '\U{1680}' || ('\U{2000}' <= c <= '\U{200A}')
    || c == '\U{2028}' || c == '\U{2029}' || c == '\U{202F}' || c == '\U{205F}'
    || c == '\U{3000}' || c == '\U{FEFF}'
  }

  predicate AllWhitespace(s: string)
  {
    forall i :: 0 <= i < |s| ==> IsWhitespace(s[i])
  }

  /** Drops the leading whitespace. */
  function TrimStart(s: string): string
  {
    if s != [] && IsWhitespace(s[0]) then TrimStart(s[1..]) else s
  }

  /** Drops the trailing whitespace. */
  function TrimEnd(s: string): string
  {
    if s != [] && IsWhitespace(s[|s| - 1]) then TrimEnd(s[..|s| - 1]) else s
  }

  /** `TrimStart` leaves a suffix of `s`, what it dropped is all whitespace,
      and the suffix does not start with any. */
  lemma {:induction false} TrimStartShape(s: string)
    ensures var r := TrimStart(s);
            && |r| <= |s| && r == s[|s| - |r|..]
            && AllWhitespace(s[..|s| - |r|])
            && (r == [] || !IsWhitespace(r[0]))
  {
    if s != [] && IsWhitespace(s[0]) {
      TrimStartShape(s[1..]);
      TrimStartStep(s, TrimStart(s));
    } else {
      assert s[..0] == [];
    }
  }

  /** `TrimEnd` leaves a prefix of `s`, what it dropped is all whitespace,
      and the prefix does not end with any. */
  lemma {:induction false} TrimEndShape(s: string)
    ensures var r := TrimEnd(s);
            && |r| <= |s| && r == s[..|r|]
            && AllWhitespace(s[|r|..])
            && (r == [] || !IsWhitespace(r[|r| - 1]))
  {
    if s != [] && IsWhitespace(s[|s| - 1]) {
      TrimEndShape(s[..|s| - 1]);
      TrimEndStep(s, TrimEnd(s));
    } else {
      assert s[|s|..] == [];
    }
  }

  /** The step of `TrimStartShape`: a whitespace character in front joins
      the dropped part. */
  lemma TrimStartStep(s: string, r: string)
    requires s != [] && IsWhitespace(s[0])
    requires var u := s[1..]; |r| <= |u| && r == u[|u| - |r|..] && AllWhitespace(u[..|u| - |r|])
    ensures r == s[|s| - |r|..] && AllWhitespace(s[..|s| - |r|])
  {
    DropFirst(s, |r|);
    WhitespaceJoin([s[0]], s[1..][..|s| - 1 - |r|]);
  }

  /** The step of `TrimEndShape`: a whitespace character at the end joins
      the dropped part. */
  lemma TrimEndStep(s: string, r: string)
    requires s != [] && IsWhitespace(s[|s| - 1])
    requires var u := s[..|s| - 1]; |r| <= |u| && r == u[..|r|] && AllWhitespace(u[|r|..])
    ensures r == s[..|r|] && AllWhitespace(s[|r|..])
  {
    DropLast(s, |r|);
    WhitespaceJoin(s[..|s| - 1][|r|..], [s[|s| - 1]]);
  }

  lemma DropFirst<T>(s: seq<T>, n: nat)
    requires s != [] && n <= |s| - 1
    ensures s[|s| - n..] == s[1..][|s| - 1 - n..]
    ensures s[..|s| - n] == [s[0]] + s[1..][..|s| - 1 - n]
  {
  }

  lemma DropLast<T>(s: seq<T>, n: nat)
    requires s != [] && n <= |s| - 1
    ensures s[..n] == s[..|s| - 1][..n]
    ensures s[n..] == s[..|s| - 1][n..] + [s[|s| - 1]]
  {
  }

  lemma WhitespaceJoin(a: string, b: string)
    requires AllWhitespace(a) && AllWhitespace(b)
    ensures AllWhitespace(a + b)
  {
    forall i | 0 <= i < |a + b|
      ensures IsWhitespace((a + b)[i])
    {
      if i < |a| {
        assert (a + b)[i] == a[i];
      } else {
        assert (a + b)[i] == b[i - |a|];
      }
    }
  }

  /** `r` sits at offset `i` of `s` with only whitespace before and after it. */
  predicate PaddedAt(s: string, r: string, i: int)
  {
    0 <= i <= |s| - |r| && r == s[i..i + |r|]
    && AllWhitespace(s[..i]) && AllWhitespace(s[i + |r|..])
  }

  /** `s.trim()`: the whitespace on both ends is dropped. What that leaves
      is stated by `TrimIsPadded` and `TrimHasNoPadding`. */
  function Trim(s: string): string
  {
    TrimEnd(TrimStart(s))
  }

  /** The trimmed text is an infix of `s` with only whitespace before and
      after it. */
  lemma TrimIsPadded(s: string)
    ensures exists i :: PaddedAt(s, Trim(s), i)
  {
    var t := TrimStart(s);
    var r := TrimEnd(t);
    var i := |s| - |t|;
    TrimStartShape(s);
    TrimEndShape(t);
    assert r == s[i..i + |r|] && s[i + |r|..] == t[|r|..] by {
      PrefixOfSuffix(s, t, r);
    }
    assert PaddedAt(s, Trim(s), i);
  }

  /** A prefix `r` of a suffix `t` of `s` is an infix of `s`. */
  lemma PrefixOfSuffix<T>(s: seq<T>, t: seq<T>, r: seq<T>)
    requires |t| <= |s| && t == s[|s| - |t|..] && |r| <= |t| && r == t[..|r|]
    ensures r == s[|s| - |t|..|s| - |t| + |r|]
    ensures s[|s| - |t| + |r|..] == t[|r|..]
  {
  }

  /** The trimmed text neither starts nor ends with whitespace. */
  lemma TrimHasNoPadding(s: string)
    ensures var r := Trim(s);
            r == [] || (!IsWhitespace(r[0]) && !IsWhitespace(r[|r| - 1]))
  {
    var t := TrimStart(s);
    var r := TrimEnd(t);
    TrimStartShape(s);
    TrimEndShape(t);
    assert r != [] ==> r[0] == t[0];
  }

  /** A string that already has no surrounding whitespace is left alone. */
  lemma TrimOfTrimmed(s: string)
    requires s == [] || (!IsWhitespace(s[0]) && !IsWhitespace(s[|s| - 1]))
    ensures Trim(s) == s
  {
  }

  /** `trim` is idempotent. */
  lemma TrimIdempotent(s: string)
    ensures Trim(Trim(s)) == Trim(s)
  {
    TrimHasNoPadding(s);
    TrimOfTrimmed(Trim(s));
  }

  lemma {:induction false} TrimStartSkipsLead(lead: string, s: string)
    requires AllWhitespace(lead)
    ensures TrimStart(lead + s) == TrimStart(s)
  {
    if lead != [] {
      assert (lead + s)[1..] == lead[1..] + s;
      TrimStartSkipsLead(lead[1..], s);
    } else {
      assert lead + s == s;
    }
  }

  lemma {:induction false} TrimStartKeepsTail(s: string, u: string)
    requires TrimStart(s) != []
    ensures TrimStart(s + u) == TrimStart(s) + u
  {
    if s != [] && IsWhitespace(s[0]) {
      assert (s + u)[1..] == s[1..] + u;
      TrimStartKeepsTail(s[1..], u);
    }
  }

  lemma {:induction false} TrimEndSkipsTrail(s: string, trail: string)
    requires AllWhitespace(trail)
    ensures TrimEnd(s + trail) == TrimEnd(s)
  {
    if trail != [] {
      var n := |trail|;
      assert (s + trail)[..|s + trail| - 1] == s + trail[..n - 1];
      TrimEndSkipsTrail(s, trail[..n - 1]);
    } else {
      assert s + trail == s;
    }
  }

  /** Whitespace added on either side does not change the trimmed text. */
  lemma TrimPadded(lead: string, s: string, trail: string)
    requires AllWhitespace(lead) && AllWhitespace(trail)
    ensures Trim(lead + s + trail) == Trim(s)
  {
    assert TrimStart(lead + s + trail) == TrimStart(s + trail) by {
      assert lead + s + trail == lead + (s + trail);
      TrimStartSkipsLead(lead, s + trail);
    }
    var t := TrimStart(s);
    if t != [] {
      assert TrimStart(s + trail) == t + trail by {
        TrimStartKeepsTail(s, trail);
      }
      TrimEndSkipsTrail(t, trail);
    } else {
      assert TrimStart(s + trail) == [] by {
        assert AllWhitespace(s + trail) by {
          TrimStartShape(s);
          assert s[..|s|] == s;
        }
        TrimStartSkipsLead(s + trail, []);
        assert s + trail + [] == s + trail;
      }
    }
  }

  /** ASCII upper-casing of a character. */
  function UpperChar(c: char): char
  {
    if 'a' <= c <= 'z' then (c as int - 32) as char else c
  }

  /** `s.toUpperCase()` restricted to the ASCII letters. */
  function ToUpper(s: string): (r: string)
    ensures |r| == |s|
    ensures forall i :: 0 <= i < |s| ==> r[i] == UpperChar(s[i])
  {
    if s == [] then [] else [UpperChar(s[0])] + ToUpper(s[1..])
  }

  /** Two strings that differ only in the case of ASCII letters upper-case
      to the same string. */
  lemma ToUpperIgnoresCase(s: string, t: string)
    requires |s| == |t|
    requires forall i :: 0 <= i < |s| ==> UpperChar(s[i]) == UpperChar(t[i])
    ensures ToUpper(s) == ToUpper(t)
  {
  }
}
