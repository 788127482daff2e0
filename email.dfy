/**
 * `isValidEmail`: the test of the pattern `^[^\s@]+@[^\s@]+\.[^\s@]+$`,
 * written out as a predicate on characters.
 */
module Email {
  import opened Wrappers
  import opened Text

  /** A character of the class `[^\s@]`. */
  predicate InClass(c: char)
  {
    c != '@' && !IsWhitespace(c)
  }

  /** The segment `s[lo..hi]` matches `[^\s@]+`. */
  ghost predicate ClassRun(s: string, lo: int, hi: int)
  {
    0 <= lo < hi <= |s| && forall i | lo <= i < hi :: InClass(s[i])
  }

  /**
   * One way of matching the whole pattern: the `@` at `at`, the escaped `.`
   * at `dot`, and the three `[^\s@]+` runs filling the gaps between them
   * and the two ends of the string.
   */
  ghost predicate PatternSplit(s: string, at: int, dot: int)
  {
    && 0 <= at < dot < |s| && s[at] == '@' && s[dot] == '.'
    && ClassRun(s, 0, at) && ClassRun(s, at + 1, dot) && ClassRun(s, dot + 1, |s|)
  }

  /** The anchored pattern matches `s`. */
  ghost predicate MatchesPattern(s: string)
  {
    exists at, dot :: PatternSplit(s, at, dot)
  }

  /** The position of the first `@`, if there is one. */
  function FindAt(s: string): (k: Option<nat>)
    ensures k.Some? ==> k.value < |s| && s[k.value] == '@' && '@' !in s[..k.value]
    ensures k.None? ==> '@' !in s
  {
    if s == [] then None
    else if s[0] == '@' then Some(0)
    else match FindAt(s[1..])
      case None => None
      case Some(j) => assert s[..j + 1] == [s[0]] + s[1..][..j]; Some(j + 1)
  }

  /**
   * The pattern's test written out on characters: no whitespace, exactly one
   * `@`, something before it, and a `.` after it that is neither the first
   * nor the last character of the part after the `@`.
   */
  predicate ScanAccepts(email: string)
  {
    && NoWhitespace(email)
    && match FindAt(email)
       case None => false
       case Some(k) =>
         var domain := email[k + 1..];
         && k > 0
         && '@' !in domain
         && |domain| >= 3
         && '.' in domain[1..|domain| - 1]
  }

  /** The scan accepts exactly the strings the anchored pattern matches. */
  lemma ScanMatchesPattern(s: string)
    ensures ScanAccepts(s) <==> MatchesPattern(s)
  {
    if ScanAccepts(s) {
      var k := FindAt(s).value;
      var domain := s[k + 1..];
      var inner := domain[1..|domain| - 1];
      var p :| 0 <= p < |inner| && inner[p] == '.';
      var dot := k + 2 + p;
      assert s[dot] == '.';
      forall i | 0 <= i < |s| && i != k ensures InClass(s[i]) {
        if i < k { assert s[..k][i] == s[i]; } else { assert domain[i - k - 1] == s[i]; }
      }
      assert PatternSplit(s, k, dot);
    }
    if MatchesPattern(s) {
      var at, dot :| PatternSplit(s, at, dot);
      PatternFacts(s, at, dot);
    }
  }

  /** What any match of the pattern tells about the string. */
  lemma PatternFacts(s: string, at: int, dot: int)
    requires PatternSplit(s, at, dot)
    ensures ScanAccepts(s)
  {
    assert InClass(s[0]);
    assert forall i | 0 <= i < |s| && i != at :: InClass(s[i]) by {
      forall i | 0 <= i < |s| && i != at ensures InClass(s[i]) {
        if i < at {} else if i < dot {} else if i > dot {}
      }
    }
    assert '@' !in s[..at] by {
      forall i | 0 <= i < at ensures s[..at][i] != '@' { assert InClass(s[i]); }
    }
    assert FindAt(s) == Some(at);
    var domain := s[at + 1..];
    assert '@' !in domain by {
      forall i | 0 <= i < |domain| ensures domain[i] != '@' { assert InClass(s[at + 1 + i]); }
    }
    assert domain[1..|domain| - 1][dot - at - 2] == '.';
  }

  /** `isValidEmail`: whether the anchored pattern matches, decided by the scan. */
  predicate IsValidEmail(email: string)
    ensures IsValidEmail(email) <==> MatchesPattern(email)
  {
    ScanMatchesPattern(email);
    ScanAccepts(email)
  }
}
