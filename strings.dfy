/**
 * Python string operations the scripts use: `str.strip`, `str.startswith`
 * and `str.replace`, on `seq<char>`.
 */
module Strings {

  /**
   * Stand-in for Python's whitespace class (`str.isspace`, and `\s` in a
   * Unicode regular expression): the ASCII whitespace characters, the
   * no-break space and the ideographic space. The rest of the Unicode set
   * is not listed; every property below holds for any choice of this predicate.
   */
  predicate IsSpace(c: char)
  {
    c == ' ' || c == '\t' || c == '\n' || c == '\r' || c == '\U{B}' || c == '\U{C}'
    || c == '\U{1C}' || c == '\U{1D}' || c == '\U{1E}' || c == '\U{1F}'
    || c == '\U{85}' || c == '\U{A0}' || c == '\U{3000}'
  }

  predicate AllSpace(s: string)
  {
    forall k :: 0 <= k < |s| ==> IsSpace(s[k])
  }

  /** `s.lstrip()`: `s` without its leading whitespace. */
  function LStrip(s: string): (r: string)
    decreases |s|
  {
    if |s| > 0 && IsSpace(s[0]) then LStrip(s[1..]) else s
  }

  /** `s.rstrip()`: `s` without its trailing whitespace. */
  function RStrip(s: string): (r: string)
    decreases |s|
  {
    if |s| > 0 && IsSpace(s[|s| - 1]) then RStrip(s[..|s| - 1]) else s
  }

  /** `s.strip()`: `s` with its leading and trailing whitespace removed. */
  function Strip(s: string): (r: string)
  {
    RStrip(LStrip(s))
  }

  /** `lstrip` leaves the longest suffix of `s` that does not start with whitespace. */
  lemma {:induction false} LStripSpec(s: string)
    ensures var r := LStrip(s);
      && |r| <= |s| && r == s[|s| - |r|..]
      && (forall k :: 0 <= k < |s| - |r| ==> IsSpace(s[k]))
      && (r != [] ==> !IsSpace(r[0]))
    decreases |s|
  {
    if |s| > 0 && IsSpace(s[0]) {
      LStripSpec(s[1..]);
      var r := LStrip(s);
      assert s[1..][|s| - 1 - |r|..] == s[|s| - |r|..];
      forall k | 0 <= k < |s| - |r| ensures IsSpace(s[k]) {
        if k > 0 {
          assert s[k] == s[1..][k - 1];
        }
      }
    }
  }

  /** `rstrip` leaves the longest prefix of `s` that does not end with whitespace. */
  lemma {:induction false} RStripSpec(s: string)
    ensures var r := RStrip(s);
      && |r| <= |s| && r == s[..|r|]
      && (forall k :: |r| <= k < |s| ==> IsSpace(s[k]))
      && (r != [] ==> !IsSpace(r[|r| - 1]))
    decreases |s|
  {
    if |s| > 0 && IsSpace(s[|s| - 1]) {
      var p := s[..|s| - 1];
      RStripSpec(p);
      var r := RStrip(s);
      assert p[..|r|] == s[..|r|];
      forall k | |r| <= k < |s| ensures IsSpace(s[k]) {
        if k < |s| - 1 {
          assert s[k] == p[k];
        }
      }
    }
  }

  /**
   * The result of `strip` is a contiguous slice `s[i..j]` with only
   * whitespace outside it and no whitespace at either of its ends.
   */
  lemma StripSpec(s: string)
    ensures exists i, j :: 0 <= i <= j <= |s| && Strip(s) == s[i..j] && Outside(s, i, j)
    ensures Strip(s) != [] ==> !IsSpace(Strip(s)[0]) && !IsSpace(Strip(s)[|Strip(s)| - 1])
  {
    var l := LStrip(s);
    var r := RStrip(l);
    LStripSpec(s);
    RStripSpec(l);
    var i := |s| - |l|;
    assert r == s[i..i + |r|];
    assert Outside(s, i, i + |r|) by {
      forall k | i + |r| <= k < |s| ensures IsSpace(s[k]) { assert s[k] == l[k - i]; }
    }
    if r != [] {
      assert r[0] == l[0];
    }
  }

  /** Everything in `s` before index `i` and from index `j` on is whitespace. */
  predicate Outside(s: string, i: nat, j: nat)
    requires i <= j <= |s|
  {
    (forall k :: 0 <= k < i ==> IsSpace(s[k])) && (forall k :: j <= k < |s| ==> IsSpace(s[k]))
  }

  /** Stripping takes everything away exactly when everything is whitespace. */
  lemma StripEmptyIff(s: string)
    ensures Strip(s) == [] <==> AllSpace(s)
  {
    StripSpec(s);
    var i, j :| 0 <= i <= j <= |s| && Strip(s) == s[i..j] && Outside(s, i, j);
    if Strip(s) != [] {
      assert Strip(s)[0] == s[i];
    }
  }

  /** A string with no whitespace at either end strips to itself. */
  lemma {:induction false} StripTrimmed(s: string)
    requires s != [] ==> !IsSpace(s[0]) && !IsSpace(s[|s| - 1])
    ensures Strip(s) == s
  {
  }

  /** Stripping twice is stripping once. */
  lemma StripIdempotent(s: string)
    ensures Strip(Strip(s)) == Strip(s)
  {
    StripSpec(s);
    StripTrimmed(Strip(s));
  }

  /** Leading whitespace in front of a string that does not start with whitespace is exactly what `lstrip` removes. */
  lemma {:induction false} LStripSpaces(ws: string, s: string)
    requires AllSpace(ws)
    requires s != [] ==> !IsSpace(s[0])
    ensures LStrip(ws + s) == s
    decreases |ws|
  {
    if ws != [] {
      assert (ws + s)[1..] == ws[1..] + s;
      assert (ws + s)[0] == ws[0];
      LStripSpaces(ws[1..], s);
    } else {
      assert ws + s == s;
    }
  }

  predicate StartsWith(s: string, prefix: string)
  {
    |prefix| <= |s| && s[..|prefix|] == prefix
  }

  /**
   * `s.replace(pat, rep)` for a non-empty `pat`: a left-to-right scan that
   * replaces every non-overlapping occurrence of `pat` and does not look
   * again at what it has inserted.
   */
  function Replace(s: string, pat: string, rep: string): (r: string)
    requires |pat| > 0
    decreases |s|
  {
    if |s| < |pat| then s
    else if s[..|pat|] == pat then rep + Replace(s[|pat|..], pat, rep)
    else [s[0]] + Replace(s[1..], pat, rep)
  }

  /** A string whose first character does not start the pattern keeps that character and scans on. */
  lemma ReplaceNotHere(s: string, pat: string, rep: string)
    requires |pat| > 0 && |s| > 0 && s[0] != pat[0]
    ensures Replace(s, pat, rep) == [s[0]] + Replace(s[1..], pat, rep)
  {
    if |s| < |pat| {
      assert Replace(s[1..], pat, rep) == s[1..];
      assert [s[0]] + s[1..] == s;
    } else {
      assert s[..|pat|][0] == s[0];
    }
  }

  /** A string without `c` has a tail without `c`. */
  lemma LacksTail(s: string, c: char)
    requires |s| > 0
    requires forall k :: 0 <= k < |s| ==> s[k] != c
    ensures s[0] != c
    ensures forall k :: 0 <= k < |s[1..]| ==> s[1..][k] != c
  {
    assert s[0] != c;
  }

  /** A prefix that holds no copy of the pattern's first character passes through unchanged. */
  lemma {:induction false} ReplaceSkips(a: string, b: string, pat: string, rep: string)
    requires |pat| > 0
    requires forall k :: 0 <= k < |a| ==> a[k] != pat[0]
    ensures Replace(a + b, pat, rep) == a + Replace(b, pat, rep)
    decreases |a|
  {
    if a == [] {
      assert a + b == b;
    } else {
      var s := a + b;
      var tail := a[1..];
      assert s[0] == a[0];
      assert s[1..] == tail + b;
      LacksTail(a, pat[0]);
      ReplaceSkips(tail, b, pat, rep);
      ReplaceNotHere(s, pat, rep);
      assert [a[0]] + (tail + Replace(b, pat, rep)) == a + Replace(b, pat, rep) by {
        assert [a[0]] + tail == a;
      }
    }
  }

  /** A string with no copy of the pattern's first character is left as it is. */
  lemma ReplaceNone(s: string, pat: string, rep: string)
    requires |pat| > 0
    requires forall k :: 0 <= k < |s| ==> s[k] != pat[0]
    ensures Replace(s, pat, rep) == s
  {
    ReplaceSkips(s, [], pat, rep);
    assert s + [] == s;
    assert Replace([], pat, rep) == [];
  }

  /** An occurrence of the pattern at the front is replaced, and the scan resumes after it. */
  lemma ReplaceHead(pat: string, suffix: string, rep: string)
    requires |pat| > 0
    ensures Replace(pat + suffix, pat, rep) == rep + Replace(suffix, pat, rep)
  {
    var t := pat + suffix;
    assert t[..|pat|] == pat;
    assert t[|pat|..] == suffix;
  }

  /**
   * A template `prefix + pat + suffix` whose prefix and suffix hold no copy of
   * the pattern's first character becomes `prefix + rep + suffix`, whatever
   * `rep` holds: the inserted text is never substituted again.
   */
  lemma ReplaceSingle(prefix: string, pat: string, suffix: string, rep: string)
    requires |pat| > 0
    requires forall k :: 0 <= k < |prefix| ==> prefix[k] != pat[0]
    requires forall k :: 0 <= k < |suffix| ==> suffix[k] != pat[0]
    ensures Replace(prefix + pat + suffix, pat, rep) == prefix + rep + suffix
  {
    var t := pat + suffix;
    assert prefix + pat + suffix == prefix + t;
    ReplaceSkips(prefix, t, pat, rep);
    ReplaceHead(pat, suffix, rep);
    ReplaceNone(suffix, pat, rep);
    assert prefix + (rep + suffix) == prefix + rep + suffix;
  }
}
