/** The few string operations the Wi-Fi configuration code relies on:
    whitespace stripping, prefix and substring tests, and code-point order. */
module Text {

  /** The characters `str.strip()` removes that lie in the ASCII range:
      space, tab, line feed, vertical tab, form feed, carriage return and the
      four information separators 0x1C .. 0x1F. */
  predicate IsSpace(c: char)
  {
    c == ' ' || ('\t' <= c <= '\r') || ('\U{1C}' <= c <= '\U{1F}')
  }

  /** s without its leading whitespace. */
  function StripLeft(s: string): string
  {
    if s != [] && IsSpace(s[0]) then StripLeft(s[1..]) else s
  }

  /** s without its trailing whitespace. */
  function StripRight(s: string): string
  {
    if s != [] && IsSpace(s[|s| - 1]) then StripRight(s[..|s| - 1]) else s
  }

  /** StripLeft removes a maximal all-whitespace prefix and nothing else. */
  lemma {:induction false} StripLeftRemovesSpaces(s: string)
    ensures var r := StripLeft(s);
      && |r| <= |s| && r == s[|s| - |r|..]
      && (r == [] || !IsSpace(r[0]))
      && forall k :: 0 <= k < |s| - |r| ==> IsSpace(s[k])
  {
    if s != [] && IsSpace(s[0]) {
      var t := s[1..];
      StripLeftRemovesSpaces(t);
      var r := StripLeft(t);
      assert StripLeft(s) == r;
      assert t[|t| - |r|..] == s[|s| - |r|..];
      forall k | 0 <= k < |s| - |r|
        ensures IsSpace(s[k])
      {
        if k > 0 {
          assert s[k] == t[k - 1];
        }
      }
    }
  }

  /** StripRight removes a maximal all-whitespace suffix and nothing else. */
  lemma {:induction false} StripRightRemovesSpaces(s: string)
    ensures var r := StripRight(s);
      && |r| <= |s| && r == s[..|r|]
      && (r == [] || !IsSpace(r[|r| - 1]))
      && forall k :: |r| <= k < |s| ==> IsSpace(s[k])
  {
    if s != [] && IsSpace(s[|s| - 1]) {
      var t := s[..|s| - 1];
      StripRightRemovesSpaces(t);
      var r := StripRight(t);
      assert StripRight(s) == r;
      assert t[..|r|] == s[..|r|];
      forall k | |r| <= k < |s|
        ensures IsSpace(s[k])
      {
        if k < |t| {
          assert s[k] == t[k];
        }
      }
    }
  }

  /** `s.strip()`. */
  function Strip(s: string): string
  {
    StripRight(StripLeft(s))
  }

  /** Strip leaves the infix s[k..k + |r|] that neither starts nor ends with
      whitespace, where everything before k and after it is whitespace. */
  lemma StripRemovesSpaces(s: string)
    ensures var r, k := Strip(s), |s| - |StripLeft(s)|;
      && 0 <= k && k + |r| <= |s| && r == s[k..k + |r|]
      && (r == [] || (!IsSpace(r[0]) && !IsSpace(r[|r| - 1])))
      && (forall m :: 0 <= m < k ==> IsSpace(s[m]))
      && (forall m :: k + |r| <= m < |s| ==> IsSpace(s[m]))
  {
    var l := StripLeft(s);
    StripLeftRemovesSpaces(s);
    var r := StripRight(l);
    StripRightRemovesSpaces(l);
    assert r == Strip(s);
    TrimmedBothEnds(s, l, r);
  }

  /** A suffix l of s that drops only whitespace, followed by a prefix r of l
      that drops only whitespace, is an infix of s with whitespace around it. */
  lemma TrimmedBothEnds(s: string, l: string, r: string)
    requires |l| <= |s| && l == s[|s| - |l|..]
    requires l == [] || !IsSpace(l[0])
    requires forall m :: 0 <= m < |s| - |l| ==> IsSpace(s[m])
    requires |r| <= |l| && r == l[..|r|]
    requires r == [] || !IsSpace(r[|r| - 1])
    requires forall m :: |r| <= m < |l| ==> IsSpace(l[m])
    ensures var k := |s| - |l|;
      && k + |r| <= |s| && r == s[k..k + |r|]
      && (r == [] || (!IsSpace(r[0]) && !IsSpace(r[|r| - 1])))
      && (forall m :: k + |r| <= m < |s| ==> IsSpace(s[m]))
  {
    var k := |s| - |l|;
    assert s[k..][..|r|] == s[k..k + |r|];
    if r != [] {
      assert r[0] == l[0];
    }
    forall m | k + |r| <= m < |s|
      ensures IsSpace(s[m])
    {
      assert s[m] == l[m - k];
    }
  }

  /** Trailing whitespace cannot affect a prefix test for a prefix that ends
      in a non-space character. */
  lemma StartsWithStripRight(s: string, prefix: string)
    requires prefix != [] && !IsSpace(prefix[|prefix| - 1])
    ensures StartsWith(StripRight(s), prefix) <==> StartsWith(s, prefix)
  {
    StripRightRemovesSpaces(s);
    var r := StripRight(s);
    if StartsWith(s, prefix) {
      // the last character of the prefix is not whitespace, so it survives
      assert s[|prefix| - 1] == s[..|prefix|][|prefix| - 1];
      assert |prefix| <= |r|;
      assert r[..|prefix|] == s[..|prefix|];
    }
    if StartsWith(r, prefix) {
      assert s[..|prefix|] == r[..|prefix|];
    }
  }

  predicate StartsWith(s: string, prefix: string)
  {
    |prefix| <= |s| && s[..|prefix|] == prefix
  }

  /** `pattern in s`: pattern occurs in s as a contiguous substring. */
  predicate Contains(s: string, pattern: string)
    decreases |s|
  {
    StartsWith(s, pattern) || (s != [] && Contains(s[1..], pattern))
  }

  /** pattern occurs in s starting at index k. */
  predicate OccursAt(s: string, pattern: string, k: int)
  {
    0 <= k && k + |pattern| <= |s| && s[k..k + |pattern|] == pattern
  }

  /** Contains means: the pattern occurs at some index of s. */
  lemma ContainsAt(s: string, pattern: string)
    ensures Contains(s, pattern) <==> exists k :: OccursAt(s, pattern, k)
  {
    if Contains(s, pattern) {
      OccurrenceOfContains(s, pattern);
    }
    if exists k :: OccursAt(s, pattern, k) {
      var k :| OccursAt(s, pattern, k);
      ContainsOfOccurrence(s, pattern, k);
    }
  }

  lemma {:induction false} OccurrenceOfContains(s: string, pattern: string)
    requires Contains(s, pattern)
    ensures exists k :: OccursAt(s, pattern, k)
    decreases |s|
  {
    if StartsWith(s, pattern) {
      assert OccursAt(s, pattern, 0);
    } else {
      var t := s[1..];
      OccurrenceOfContains(t, pattern);
      var k :| OccursAt(t, pattern, k);
      assert t[k..k + |pattern|] == s[k + 1..k + 1 + |pattern|];
      assert OccursAt(s, pattern, k + 1);
    }
  }

  lemma {:induction false} ContainsOfOccurrence(s: string, pattern: string, k: nat)
    requires OccursAt(s, pattern, k)
    ensures Contains(s, pattern)
    decreases k
  {
    if k == 0 {
      assert StartsWith(s, pattern);
    } else {
      var t := s[1..];
      assert t[k - 1..k - 1 + |pattern|] == s[k..k + |pattern|];
      assert OccursAt(t, pattern, k - 1);
      ContainsOfOccurrence(t, pattern, k - 1);
    }
  }

  /** A string contains every one of its infixes. */
  lemma ContainsInfix(a: string, pattern: string, b: string)
    ensures Contains(a + pattern + b, pattern)
  {
    var s := a + pattern + b;
    assert OccursAt(s, pattern, |a|);
    ContainsAt(s, pattern);
  }

  /** A string none of whose characters is the pattern's first one does not
      contain the pattern. */
  lemma NotContainsWithout(s: string, pattern: string)
    requires pattern != [] && pattern[0] !in s
    ensures !Contains(s, pattern)
  {
    ContainsAt(s, pattern);
    assert !exists k :: OccursAt(s, pattern, k);
  }

  /** Python's `<` on strings: code-point order, a proper prefix first. */
  predicate Less(a: string, b: string)
    decreases |a|
  {
    if a == [] then b != []
    else if b == [] then false
    else if a[0] != b[0] then a[0] < b[0]
    else Less(a[1..], b[1..])
  }

  lemma {:induction false} LessIrreflexive(a: string)
    ensures !Less(a, a)
    decreases |a|
  {
    if a != [] {
      LessIrreflexive(a[1..]);
    }
  }

  lemma {:induction false} LessTransitive(a: string, b: string, c: string)
    requires Less(a, b) && Less(b, c)
    ensures Less(a, c)
    decreases |a|
  {
    if a != [] && a[0] == b[0] && b[0] == c[0] {
      LessTransitive(a[1..], b[1..], c[1..]);
    }
  }

  lemma {:induction false} LessTotal(a: string, b: string)
    requires a != b
    ensures Less(a, b) || Less(b, a)
    decreases |a|
  {
    if a != [] && b != [] && a[0] == b[0] {
      assert a == [a[0]] + a[1..] && b == [b[0]] + b[1..];
      LessTotal(a[1..], b[1..]);
    }
  }

  lemma LessAsymmetric(a: string, b: string)
    requires Less(a, b)
    ensures !Less(b, a)
  {
    if Less(b, a) {
      LessTransitive(a, b, a);
      LessIrreflexive(a);
    }
  }
}
