/**
  The three Python `str` operations the reply handling is built from:
  `str.find(sub, start)`, `str.strip()` with no argument, and
  `str.replace(old, new)` with an empty replacement. Strings are `seq<char>`.
 */
module PyText {

  /** `pat` occurs in `s` starting at index `i`. */
  predicate MatchAt(s: string, pat: string, i: int)
  {
    0 <= i && i + |pat| <= |s| && s[i..i + |pat|] == pat
  }

  /** `pat` occurs somewhere in `s` (Python's `pat in s`). */
  ghost predicate Occurs(s: string, pat: string)
  {
    exists i :: MatchAt(s, pat, i)
  }

  /**
    Python's `s.find(pat, start)` for `start >= 0`: the lowest index
    `i >= start` at which `pat` occurs, or -1 when there is none.
   */
  function Find(s: string, pat: string, start: nat): (r: int)
    ensures r == -1 || (start <= r && MatchAt(s, pat, r))
    ensures r != -1 ==> forall k :: start <= k < r ==> !MatchAt(s, pat, k)
    ensures r == -1 ==> forall k :: start <= k ==> !MatchAt(s, pat, k)
    decreases |s| - start
  {
    if start + |pat| > |s| then -1
    else if s[start..start + |pat|] == pat then start
    else Find(s, pat, start + 1)
  }

  /**
    The characters Python's `str.isspace()` accepts, hence the ones
    `str.strip()` removes: the ASCII controls TAB..CR and FS..US, SPACE,
    NEL, NO-BREAK SPACE, and the Unicode space separators and line and
    paragraph separators.
   */
  predicate IsSpace(c: char)
  {
    || '\t' <= c <= '\r'
    || '\U{1c}' <= c <= ' '
    || c == '\U{85}' || c == '\U{a0}' || c == '\U{1680}'
    || '\U{2000}' <= c <= '\U{200a}'
    || c == '\U{2028}' || c == '\U{2029}' || c == '\U{202f}'
    || c == '\U{205f}' || c == '\U{3000}'
  }

  /** Every character of `s` from index `lo` up to `hi` is whitespace. */
  predicate SpaceBetween(s: string, lo: int, hi: int)
  {
    forall k :: lo <= k < hi && 0 <= k < |s| ==> IsSpace(s[k])
  }

  /** Neither end of `r` is whitespace: what `strip()` returns. */
  predicate Trimmed(r: string)
  {
    r == [] || (!IsSpace(r[0]) && !IsSpace(r[|r| - 1]))
  }

  /** `r` sits in `s` at index `i`, with only whitespace around it. */
  predicate PaddedAt(s: string, r: string, i: nat)
  {
    i + |r| <= |s| && s[i..i + |r|] == r && SpaceBetween(s, 0, i) && SpaceBetween(s, i + |r|, |s|)
  }

  /** Number of whitespace characters at the start of `s`. */
  function LeadingSpace(s: string): (n: nat)
    ensures n <= |s| && SpaceBetween(s, 0, n)
    ensures n < |s| ==> !IsSpace(s[n])
  {
    if s == [] || !IsSpace(s[0]) then 0
    else
      var m := LeadingSpace(s[1..]);
      assert forall k :: 1 <= k < |s| ==> s[k] == s[1..][k - 1];
      1 + m
  }

  /** Number of whitespace characters at the end of `s`. */
  function TrailingSpace(s: string): (n: nat)
    ensures n <= |s| && SpaceBetween(s, |s| - n, |s|)
    ensures n < |s| ==> !IsSpace(s[|s| - n - 1])
  {
    if s == [] || !IsSpace(s[|s| - 1]) then 0
    else
      var init := s[..|s| - 1];
      var m := TrailingSpace(init);
      assert forall k :: 0 <= k < |init| ==> s[k] == init[k];
      1 + m
  }

  /**
    Python's `s.strip()`: drops leading, then trailing, whitespace. The
    result lies in `s` at `LeadingSpace(s)` with only whitespace around it,
    and has no whitespace at either end; StripCharacterised shows that
    these two facts determine it.
   */
  function Strip(s: string): (r: string)
    ensures Trimmed(r)
    ensures PaddedAt(s, r, LeadingSpace(s))
  {
    var i := LeadingSpace(s);
    var t := s[i..];
    var m := |t| - TrailingSpace(t);
    var r := t[..m];
    assert r == s[i..i + m];
    assert SpaceBetween(s, i + m, |s|) by {
      forall k | i + m <= k < |s| ensures IsSpace(s[k]) {
        assert s[k] == t[k - i];
      }
    }
    assert Trimmed(r) by {
      if r != [] {
        assert r[0] == s[i];
        assert r[|r| - 1] == t[m - 1];
      }
    }
    r
  }

  /**
    Python's `s.replace(pat, "")` for a non-empty `pat`: scanning left to
    right, every occurrence that does not overlap an earlier removed one is
    deleted. The result is `s` itself when `pat` does not occur in it, and
    at least one `pat` shorter when it does.
   */
  function RemoveAll(s: string, pat: string): (r: string)
    requires pat != []
    ensures |r| <= |s|
    ensures !Occurs(s, pat) ==> r == s
    ensures Occurs(s, pat) ==> |r| <= |s| - |pat|
    decreases |s|
  {
    if |s| < |pat| then
      assert !Occurs(s, pat) by {
        forall k | MatchAt(s, pat, k) ensures false { }
      }
      s
    else if s[..|pat|] == pat then
      assert MatchAt(s, pat, 0);
      RemoveAll(s[|pat|..], pat)
    else
      var rest := RemoveAll(s[1..], pat);
      OccursShift(s, pat);
      [s[0]] + rest
  }

  /** With no match at 0, `pat` occurs in `s` iff it occurs in `s[1..]`. */
  lemma OccursShift(s: string, pat: string)
    requires s != [] && !MatchAt(s, pat, 0)
    ensures Occurs(s, pat) <==> Occurs(s[1..], pat)
  {
    if Occurs(s, pat) {
      var i :| MatchAt(s, pat, i);
      assert i >= 1;
      assert s[1..][i - 1..i - 1 + |pat|] == s[i..i + |pat|];
      assert MatchAt(s[1..], pat, i - 1);
    }
    if Occurs(s[1..], pat) {
      var i :| MatchAt(s[1..], pat, i);
      assert s[i + 1..i + 1 + |pat|] == s[1..][i..i + |pat|];
      assert MatchAt(s, pat, i + 1);
    }
  }

  /** Find locates a match whenever one exists, and only then. */
  lemma FindFindsOccurrence(s: string, pat: string)
    ensures Find(s, pat, 0) != -1 <==> Occurs(s, pat)
  {
    if Find(s, pat, 0) != -1 {
      assert MatchAt(s, pat, Find(s, pat, 0));
    }
  }

  /**
    Any string sitting in `s` between whitespace, with no whitespace at its
    own ends, is `Strip(s)`: the two ensures of Strip characterise it.
   */
  lemma StripCharacterised(s: string, r: string, i: nat)
    requires PaddedAt(s, r, i) && Trimmed(r)
    ensures r == Strip(s)
  {
    var n := LeadingSpace(s);
    if r == [] {
      assert SpaceBetween(s, 0, |s|);
    } else {
      assert !IsSpace(s[i]) by { assert s[i] == r[0]; }
      var t := s[i..];
      var m := |t| - TrailingSpace(t);
      assert SpaceBetween(t, |r|, |t|) by {
        assert forall k :: |r| <= k < |t| ==> t[k] == s[i + k];
      }
      assert !IsSpace(t[|r| - 1]) by { assert t[|r| - 1] == r[|r| - 1]; }
      assert m == |r|;
    }
  }

  /** Stripping twice is stripping once. */
  lemma StripIdempotent(s: string)
    ensures Strip(Strip(s)) == Strip(s)
  {
    var r := Strip(s);
    assert PaddedAt(r, r, 0) by {
      assert r[0..|r|] == r;
    }
    StripCharacterised(r, r, 0);
  }

  /** `i` is the first index at or after `from` where `pat` occurs. */
  predicate FirstAt(s: string, pat: string, from: nat, i: int)
  {
    from <= i && MatchAt(s, pat, i) && forall k :: from <= k < i ==> !MatchAt(s, pat, k)
  }

  /** Find returns the first occurrence, and FirstAt pins that index down. */
  lemma FindIsFirst(s: string, pat: string, from: nat, i: int)
    requires FirstAt(s, pat, from, i)
    ensures Find(s, pat, from) == i
  {
  }

  /** A match inside the slice `s[a..b]` is a match in `s`, shifted by `a`, and back. */
  lemma MatchInSlice(s: string, pat: string, a: nat, b: nat, x: int)
    requires a <= b <= |s| && 0 <= x && x + |pat| <= b - a
    ensures MatchAt(s[a..b], pat, x) <==> MatchAt(s, pat, a + x)
  {
    var inner, outer := s[a..b][x..x + |pat|], s[a + x..a + x + |pat|];
    assert |inner| == |outer|;
    assert forall j :: 0 <= j < |inner| ==> inner[j] == s[a + x + j] == outer[j];
    assert inner == outer;
  }

  /** Two strings that agree on their first `n` characters agree on every slice within them. */
  lemma SliceAgreesOnPrefix(s: string, t: string, n: nat, a: nat, b: nat)
    requires n <= |s| && n <= |t| && s[..n] == t[..n]
    requires a <= b <= n
    ensures s[a..b] == t[a..b]
  {
    assert forall j :: a <= j < b ==> s[j] == s[..n][j] == t[..n][j] == t[j];
  }

  /** Two strings that agree on their first `n` characters agree on every match that ends by `n`. */
  lemma MatchAgreesOnPrefix(s: string, t: string, pat: string, n: nat, k: int)
    requires n <= |s| && n <= |t| && s[..n] == t[..n]
    requires 0 <= k && k + |pat| <= n
    ensures MatchAt(s, pat, k) <==> MatchAt(t, pat, k)
  {
    SliceAgreesOnPrefix(s, t, n, k, k + |pat|);
  }

  /** The first occurrence is unchanged by anything after its end. */
  lemma FirstAtAgreesOnPrefix(s: string, t: string, pat: string, n: nat, from: nat, i: int)
    requires n <= |s| && n <= |t| && s[..n] == t[..n]
    requires FirstAt(s, pat, from, i) && i + |pat| <= n
    ensures FirstAt(t, pat, from, i)
  {
    MatchAgreesOnPrefix(s, t, pat, n, i);
    forall k | from <= k < i ensures !MatchAt(t, pat, k) {
      MatchAgreesOnPrefix(s, t, pat, n, k);
    }
  }

  /** `pat` cannot start where its first character does not stand. */
  lemma NoMatchWithoutHead(s: string, pat: string, from: int, to: int)
    requires pat != []
    requires forall j :: from <= j < to && 0 <= j < |s| ==> s[j] != pat[0]
    ensures forall k :: from <= k < to ==> !MatchAt(s, pat, k)
  {
    forall k | from <= k < to && 0 <= k && k + |pat| <= |s|
      ensures !MatchAt(s, pat, k)
    {
      assert s[k..k + |pat|][0] == s[k];
    }
  }

  /**
    A string `c` found at offset `n` of the slice `s[a..b]` sits in `s` at
    `a + n`, and a match inside `c` is a match in `s` that ends by `b`.
   */
  lemma InfixOfSlice(s: string, pat: string, a: nat, b: nat, c: string, n: nat)
    requires a <= b <= |s| && MatchAt(s[a..b], c, n)
    ensures MatchAt(s, c, a + n)
    ensures forall x :: MatchAt(c, pat, x) ==> MatchAt(s, pat, a + n + x) && a + n + x + |pat| <= b
  {
    MatchInSlice(s, c, a, b, n);
    forall x | MatchAt(c, pat, x) ensures MatchAt(s, pat, a + n + x) {
      MatchInSlice(s[a..b], pat, n, n + |c|, x);
      MatchInSlice(s, pat, a, b, n + x);
    }
  }

  /** Whitespace over the first `n` characters is a property of the prefix alone. */
  lemma SpaceBetweenPrefix(s: string, n: nat)
    requires n <= |s|
    ensures SpaceBetween(s, 0, n) <==> SpaceBetween(s[..n], 0, n)
  {
    assert forall k :: 0 <= k < n ==> s[..n][k] == s[k];
  }
}
