/**
 * String helpers the page script relies on: the whitespace class shared by
 * `String.prototype.trim` and the regular-expression escape `\s`, trimming,
 * and `split` on a separator character.
 */
module Text {

  /**
   * The WhiteSpace code points of ECMA-262: tab, vertical tab, form feed,
   * the zero-width no-break space and every Unicode Space_Separator.
   */
  const WhiteSpaceChars: set<char> := {
    '\t', '\U{000B}', '\U{000C}', '\U{FEFF}',
    ' ', '\U{00A0}', '\U{1680}',
    '\U{2000}', '\U{2001}', '\U{2002}', '\U{2003}', '\U{2004}', '\U{2005}',
    '\U{2006}', '\U{2007}', '\U{2008}', '\U{2009}', '\U{200A}',
    '\U{202F}', '\U{205F}', '\U{3000}'
  }

  /** The LineTerminator code points of ECMA-262. */
  const LineTerminators: set<char> := {'\n', '\r', '\U{2028}', '\U{2029}'}

  /**
   * JavaScript's WhiteSpace and LineTerminator code points, tested by
   * ranges. `trim` strips exactly these, and `\s` in a regular expression
   * matches exactly these.
   */
  predicate IsWhitespace(c: char)
    ensures IsWhitespace(c) <==> c in WhiteSpaceChars + LineTerminators
  {
    || c == '\t' || c == '\n' || c == '\U{000B}' || c == '\U{000C}' || c == '\r'
    || c == ' ' || c == '\U{00A0}' || c == '\U{1680}'
    || ('\U{2000}' <= c <= '\U{200A}')
    || c == '\U{2028}' || c == '\U{2029}' || c == '\U{202F}' || c == '\U{205F}'
    || c == '\U{3000}' || c == '\U{FEFF}'
  }

  predicate AllWhitespace(s: string)
  {
    forall i | 0 <= i < |s| :: IsWhitespace(s[i])
  }

  predicate NoWhitespace(s: string)
  {
    forall i | 0 <= i < |s| :: !IsWhitespace(s[i])
  }

  /** A string is trimmed when it neither starts nor ends with whitespace. */
  predicate IsTrimmed(s: string)
  {
    s == [] || (!IsWhitespace(s[0]) && !IsWhitespace(s[|s| - 1]))
  }

  /** Drops the leading whitespace. */
  function TrimStart(s: string): string
  {
    if s != [] && IsWhitespace(s[0]) then TrimStart(s[1..]) else s
  }

  /** Drops the trailing whitespace. */
  function TrimEnd(s: string): string
  {
    if s != [] && IsWhitespace(s[|s| - 1]) then TrimEnd(s[..|s| - 1]) else s
  }

  /** TrimStart keeps the suffix of `s` that begins at its first non-whitespace character. */
  lemma {:induction false} TrimStartSpec(s: string)
    ensures var r := TrimStart(s);
      && |r| <= |s| && r == s[|s| - |r|..]
      && AllWhitespace(s[..|s| - |r|])
      && (r == [] || !IsWhitespace(r[0]))
  {
    if s != [] && IsWhitespace(s[0]) {
      TrimStartSpec(s[1..]);
      var r := TrimStart(s);
      assert s[..|s| - |r|] == [s[0]] + s[1..][..|s| - 1 - |r|];
    }
  }

  /** TrimEnd keeps the prefix of `s` that ends at its last non-whitespace character. */
  lemma {:induction false} TrimEndSpec(s: string)
    ensures var r := TrimEnd(s);
      && |r| <= |s| && r == s[..|r|]
      && AllWhitespace(s[|r|..])
      && (r == [] || !IsWhitespace(r[|r| - 1]))
  {
    if s != [] && IsWhitespace(s[|s| - 1]) {
      TrimEndSpec(s[..|s| - 1]);
      var r := TrimEnd(s);
      assert s[|r|..] == s[..|s| - 1][|r|..] + [s[|s| - 1]];
    }
  }

  /** `String.prototype.trim`: removes whitespace from both ends. */
  function Trim(s: string): (r: string)
    ensures |r| <= |s| && IsTrimmed(r)
  {
    TrimStartSpec(s);
    TrimEndSpec(TrimStart(s));
    TrimEnd(TrimStart(s))
  }

  /**
   * `r` is `s` with a whitespace-only prefix and a whitespace-only suffix
   * removed, and neither end of `r` is whitespace.
   */
  ghost predicate IsTrimOf(r: string, s: string)
  {
    exists lo, hi :: TrimmedSlice(s, lo, hi) && r == s[lo..hi]
  }

  /** Trim removes exactly the surrounding whitespace. */
  lemma TrimIsTrimOf(s: string)
    ensures IsTrimOf(Trim(s), s)
  {
    var t := TrimStart(s);
    var r := TrimEnd(t);
    TrimStartSpec(s);
    TrimEndSpec(t);
    var lo := |s| - |t|;
    var hi := lo + |r|;
    assert r == s[lo..hi];
    assert s[hi..] == t[|r|..];
    if r != [] {
      assert r[0] == t[0];
    }
    assert TrimmedSlice(s, lo, hi);
  }

  /** The trimmed form of a string is unique: whatever satisfies IsTrimOf is what Trim returns. */
  lemma TrimOfIsUnique(r: string, s: string)
    requires IsTrimOf(r, s)
    ensures r == Trim(s)
  {
    TrimIsTrimOf(s);
    var lo, hi :| TrimmedSlice(s, lo, hi) && r == s[lo..hi];
    var lo', hi' :| TrimmedSlice(s, lo', hi') && Trim(s) == s[lo'..hi'];
    TrimmedSlicesAgree(s, lo, hi, lo', hi');
  }

  /** `s[lo..hi]` is trimmed and only whitespace lies outside it. */
  ghost predicate TrimmedSlice(s: string, lo: int, hi: int)
  {
    0 <= lo <= hi <= |s| && IsTrimmed(s[lo..hi]) && AllWhitespace(s[..lo]) && AllWhitespace(s[hi..])
  }

  /** Two trimmed slices of the same string with only whitespace around them are the same slice. */
  lemma TrimmedSlicesAgree(s: string, lo: nat, hi: nat, lo': nat, hi': nat)
    requires TrimmedSlice(s, lo, hi) && TrimmedSlice(s, lo', hi')
    ensures s[lo..hi] == s[lo'..hi']
  {
    if lo == hi {
      AllWhitespaceSplit(s, lo, hi);
      AllWhitespaceOfTrim(s, lo', hi');
    } else if lo' == hi' {
      AllWhitespaceSplit(s, lo', hi');
      AllWhitespaceOfTrim(s, lo, hi);
    } else {
      FirstNonWhitespace(s, lo, lo');
      LastNonWhitespace(s, hi, hi');
    }
  }

  /** Two positions that are each preceded only by whitespace and are not whitespace themselves coincide. */
  lemma FirstNonWhitespace(s: string, a: nat, b: nat)
    requires a < |s| && b < |s| && !IsWhitespace(s[a]) && !IsWhitespace(s[b])
    requires AllWhitespace(s[..a]) && AllWhitespace(s[..b])
    ensures a == b
  {
  }

  /** Two ends that are each followed only by whitespace and are not whitespace themselves coincide. */
  lemma LastNonWhitespace(s: string, a: nat, b: nat)
    requires 0 < a <= |s| && 0 < b <= |s| && !IsWhitespace(s[a - 1]) && !IsWhitespace(s[b - 1])
    requires AllWhitespace(s[a..]) && AllWhitespace(s[b..])
    ensures a == b
  {
  }

  /** When the middle slice is empty, the whole string is whitespace. */
  lemma AllWhitespaceSplit(s: string, lo: nat, hi: nat)
    requires lo <= hi <= |s| && s[lo..hi] == []
    requires AllWhitespace(s[..lo]) && AllWhitespace(s[hi..])
    ensures AllWhitespace(s)
  {
    forall i | 0 <= i < |s| ensures IsWhitespace(s[i]) {
      if i < lo { assert s[..lo][i] == s[i]; } else { assert s[hi..][i - hi] == s[i]; }
    }
  }

  /** On an all-whitespace string, the only trimmed slice is the empty one. */
  lemma AllWhitespaceOfTrim(s: string, lo: nat, hi: nat)
    requires AllWhitespace(s) && lo <= hi <= |s| && IsTrimmed(s[lo..hi])
    ensures lo == hi
  {
  }

  /** Trimming a second time changes nothing. */
  lemma TrimIdempotent(s: string)
    ensures Trim(Trim(s)) == Trim(s)
  {
    var t := TrimStart(s);
    var r := TrimEnd(t);
    TrimStartSpec(s);
    TrimEndSpec(t);
    if r != [] {
      assert r[0] == t[0];
    }
  }

  /** `Join(parts, sep)` glues the parts back together with `sep` between them. */
  function Join(parts: seq<string>, sep: char): string
  {
    if |parts| <= 1 then (if parts == [] then [] else parts[0])
    else parts[0] + [sep] + Join(parts[1..], sep)
  }

  /**
   * `String.prototype.split` with a one-character separator: the pieces
   * between consecutive separators, including empty ones at either end.
   * There is always at least one piece.
   */
  function Split(s: string, sep: char): (parts: seq<string>)
    ensures |parts| >= 1
  {
    if sep !in s then [s]
    else
      var k := IndexOf(s, sep);
      [s[..k]] + Split(s[k + 1..], sep)
  }

  /** Splitting loses nothing: joining the pieces back gives `s`, and no piece holds the separator. */
  lemma {:induction false} SplitJoin(s: string, sep: char)
    ensures var parts := Split(s, sep);
      && Join(parts, sep) == s
      && forall i | 0 <= i < |parts| :: sep !in parts[i]
  {
    if sep in s {
      var k := IndexOf(s, sep);
      SplitJoin(s[k + 1..], sep);
      var parts := Split(s, sep);
      var rest := Split(s[k + 1..], sep);
      assert parts[1..] == rest;
      assert s == s[..k] + [sep] + s[k + 1..];
      forall i | 0 <= i < |parts| ensures sep !in parts[i] {
        if i > 0 { assert parts[i] == rest[i - 1]; }
      }
    }
  }

  /** The position of the first occurrence of `c` in `s`. */
  function IndexOf(s: string, c: char): (k: nat)
    requires c in s
    ensures k < |s| && s[k] == c && c !in s[..k]
  {
    if s[0] == c then 0
    else
      assert c in s[1..] by { var i :| 0 <= i < |s| && s[i] == c; assert s[1..][i - 1] == c; }
      1 + IndexOf(s[1..], c)
  }

  /** The part of `s` after its last `sep`, or all of `s` when it has none. */
  function AfterLast(s: string, sep: char): string
  {
    if s == [] || s[|s| - 1] == sep then []
    else AfterLast(s[..|s| - 1], sep) + [s[|s| - 1]]
  }

  /**
   * The part after the last separator is the longest separator-free suffix:
   * it is a suffix, it holds no separator, and unless it is all of `s` the
   * character before it is a separator.
   */
  lemma {:induction false} AfterLastSpec(s: string, sep: char)
    ensures var r := AfterLast(s, sep);
      && |r| <= |s| && r == s[|s| - |r|..]
      && sep !in r
      && (|r| < |s| ==> s[|s| - |r| - 1] == sep)
  {
    if s != [] && s[|s| - 1] != sep {
      var init := s[..|s| - 1];
      AfterLastSpec(init, sep);
      var r := AfterLast(s, sep);
      var q := AfterLast(init, sep);
      assert r == q + [s[|s| - 1]];
      assert q == init[|init| - |q|..];
      assert r == s[|s| - |r|..];
    }
  }

  /** The last piece of `split` is what follows the last separator. */
  lemma {:induction false} LastOfSplit(s: string, sep: char)
    ensures var parts := Split(s, sep); parts[|parts| - 1] == AfterLast(s, sep)
  {
    if sep in s {
      var k := IndexOf(s, sep);
      var rest := Split(s[k + 1..], sep);
      var parts := [s[..k]] + rest;
      assert Split(s, sep) == parts;
      assert parts[|parts| - 1] == rest[|rest| - 1];
      LastOfSplit(s[k + 1..], sep);
      AfterLastOfSuffix(s, k + 1, sep);
      assert rest[|rest| - 1] == AfterLast(s, sep);
    } else {
      AfterLastWithout(s, sep);
    }
  }

  /** The last piece of `split` holds no separator and is a suffix of `s`. */
  lemma LastPieceIsSuffix(s: string, sep: char)
    ensures var parts := Split(s, sep); var last := parts[|parts| - 1];
      && sep !in last && |last| <= |s| && last == s[|s| - |last|..]
  {
    LastOfSplit(s, sep);
    AfterLastSpec(s, sep);
  }

  /** With no separator in `s`, the part after the last separator is all of `s`. */
  lemma {:induction false} AfterLastWithout(s: string, sep: char)
    requires sep !in s
    ensures AfterLast(s, sep) == s
  {
    if s != [] {
      assert sep !in s[..|s| - 1];
      AfterLastWithout(s[..|s| - 1], sep);
    }
  }

  /** Cutting `s` just after a separator keeps the part after the last one. */
  lemma {:induction false} AfterLastOfSuffix(s: string, k: nat, sep: char)
    requires 0 < k <= |s| && s[k - 1] == sep
    ensures AfterLast(s[k..], sep) == AfterLast(s, sep)
  {
    if k < |s| && s[|s| - 1] != sep {
      assert s[k..][..|s[k..]| - 1] == s[..|s| - 1][k..];
      AfterLastOfSuffix(s[..|s| - 1], k, sep);
    }
  }
}
