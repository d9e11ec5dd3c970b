/**
 * The two string built-ins the app relies on: `String.prototype.trim` and
 * `replace` with a global regular expression that is a plain literal.
 */
module Text {

  /** ECMAScript WhiteSpace and LineTerminator code points, the set `trim` strips. */
  predicate IsWhiteSpace(c: char) {
    c == '\t' || c == '\n' || c == '\U{000B}' || c == '\U{000C}' || c == '\r' || c == ' ' ||
    c == '\U{00A0}' || c == '\U{1680}' || ('\U{2000}' <= c <= '\U{200A}') ||
    c == '\U{2028}' || c == '\U{2029}' || c == '\U{202F}' || c == '\U{205F}' ||
    c == '\U{3000}' || c == '\U{FEFF}'
  }

  /** Neither starts nor ends with white space (what `trim` returns). */
  predicate Bare(s: string) {
    s == [] || (!IsWhiteSpace(s[0]) && !IsWhiteSpace(s[|s| - 1]))
  }

  predicate AllWhiteSpace(s: string) {
    forall i :: 0 <= i < |s| ==> IsWhiteSpace(s[i])
  }

  function TrimStart(s: string): (r: string)
    ensures |r| <= |s| && r == s[|s| - |r|..]
    ensures r != [] ==> !IsWhiteSpace(r[0])
  {
    if s != [] && IsWhiteSpace(s[0]) then TrimStart(s[1..]) else s
  }

  /** What TrimStart cuts off is white space. */
  lemma {:induction false} TrimStartCut(s: string)
    ensures AllWhiteSpace(s[..|s| - |TrimStart(s)|])
    decreases |s|
  {
    if s != [] && IsWhiteSpace(s[0]) {
      TrimStartCut(s[1..]);
      var k := |s| - |TrimStart(s)|;
      forall i | 0 <= i < k ensures IsWhiteSpace(s[i]) {
        if i > 0 {
          assert s[i] == s[1..][..k - 1][i - 1];
        }
      }
    }
  }

  function TrimEnd(s: string): (r: string)
    ensures |r| <= |s| && r == s[..|r|]
    ensures r != [] ==> !IsWhiteSpace(r[|r| - 1])
  {
    if s != [] && IsWhiteSpace(s[|s| - 1]) then TrimEnd(s[..|s| - 1]) else s
  }

  /** What TrimEnd cuts off is white space. */
  lemma {:induction false} TrimEndCut(s: string)
    ensures AllWhiteSpace(s[|TrimEnd(s)|..])
    decreases |s|
  {
    if s != [] && IsWhiteSpace(s[|s| - 1]) {
      TrimEndCut(s[..|s| - 1]);
      var k := |TrimEnd(s)|;
      forall i | k <= i < |s| ensures IsWhiteSpace(s[i]) {
        if i < |s| - 1 {
          assert s[i] == s[..|s| - 1][k..][i - k];
        }
      }
    }
  }

  /** `s.trim()`: the infix of `s` left after stripping white space at both ends. */
  function Trim(s: string): (r: string)
    ensures Bare(r)
    ensures exists i, j :: 0 <= i <= j <= |s| && r == s[i..j] && AllWhiteSpace(s[..i]) && AllWhiteSpace(s[j..])
  {
    var t := TrimStart(s);
    var r := TrimEnd(t);
    TrimStartCut(s);
    TrimEndCut(t);
    assert r == s[|s| - |t|..|s| - |t| + |r|];
    assert s[|s| - |t| + |r|..] == t[|r|..];
    r
  }

  /** Trimming a string that is already bare changes nothing. */
  lemma TrimBare(s: string)
    requires Bare(s)
    ensures Trim(s) == s
  {
  }

  lemma {:induction false} TrimStartSkips(a: string, q: string)
    requires AllWhiteSpace(a) && (q == [] || !IsWhiteSpace(q[0]))
    ensures TrimStart(a + q) == q
    decreases |a|
  {
    if a != [] {
      assert (a + q)[0] == a[0];
      assert (a + q)[1..] == a[1..] + q;
      TrimStartSkips(a[1..], q);
    }
  }

  lemma {:induction false} TrimEndSkips(q: string, b: string)
    requires AllWhiteSpace(b) && (q == [] || !IsWhiteSpace(q[|q| - 1]))
    ensures TrimEnd(q + b) == q
    decreases |b|
  {
    if b != [] {
      var s := q + b;
      assert s[|s| - 1] == b[|b| - 1];
      assert s[..|s| - 1] == q + b[..|b| - 1];
      TrimEndSkips(q, b[..|b| - 1]);
    }
  }

  /** Trimming white space padding around a bare string gives back that string. */
  lemma TrimPadded(a: string, p: string, b: string)
    requires AllWhiteSpace(a) && AllWhiteSpace(b) && Bare(p)
    ensures Trim(a + p + b) == p
  {
    if p == [] {
      assert a + p + b == a + b;
      assert AllWhiteSpace(a + b);
      assert TrimStart(a + b) == [];
    } else {
      assert a + p + b == a + (p + b);
      TrimStartSkips(a, p + b);
      TrimEndSkips(p, b);
    }
  }

  /** Slicing a slice is slicing the original at shifted bounds. */
  lemma SliceOfSlice(s: string, i: int, j: int, k: int, n: nat)
    requires 0 <= i <= j <= |s| && 0 <= k && k + n <= j - i
    ensures s[i..j][k..k + n] == s[i + k..i + k + n]
  {
    var u, v := s[i..j][k..k + n], s[i + k..i + k + n];
    forall m | 0 <= m < n ensures u[m] == v[m] {
      assert u[m] == s[i + k + m];
    }
  }

  /** `pat` occurs in `s` at position `i`. */
  predicate OccursAt(s: string, pat: string, i: int) {
    0 <= i && i + |pat| <= |s| && s[i..i + |pat|] == pat
  }

  predicate Free(s: string, pat: string) {
    forall i :: 0 <= i <= |s| - |pat| ==> !OccursAt(s, pat, i)
  }

  /**
   * `s.replace(/pat/g, '')` for a literal, non-empty pattern: scan left to
   * right and drop every non-overlapping occurrence.
   */
  function RemoveAll(s: string, pat: string): (r: string)
    requires pat != []
    ensures |r| <= |s|
    decreases |s|
  {
    if |s| < |pat| then s
    else if s[..|pat|] == pat then RemoveAll(s[|pat|..], pat)
    else [s[0]] + RemoveAll(s[1..], pat)
  }

  /** Without an occurrence, removal changes nothing. */
  lemma {:induction false} RemoveAllFree(s: string, pat: string)
    requires pat != [] && Free(s, pat)
    ensures RemoveAll(s, pat) == s
    decreases |s|
  {
    if |s| >= |pat| {
      assert !OccursAt(s, pat, 0);
      assert Free(s[1..], pat) by {
        forall i | 0 <= i <= |s[1..]| - |pat| ensures !OccursAt(s[1..], pat, i) {
          SliceOfSlice(s, 1, |s|, i, |pat|);
          assert !OccursAt(s, pat, i + 1);
        }
      }
      RemoveAllFree(s[1..], pat);
    }
  }

  /** A prefix that cannot start an occurrence passes through unchanged. */
  lemma {:induction false} RemoveAllKeepsPrefix(a: string, b: string, pat: string)
    requires pat != [] && forall k :: 0 <= k < |a| ==> a[k] != pat[0]
    ensures RemoveAll(a + b, pat) == a + RemoveAll(b, pat)
    decreases |a|
  {
    if a != [] {
      var s := a + b;
      if |s| < |pat| {
        assert RemoveAll(b, pat) == b;
        assert RemoveAll(s, pat) == s;
      } else {
        assert s[0] != pat[0];
        assert s[..|pat|] != pat;
        assert RemoveAll(s, pat) == [s[0]] + RemoveAll(s[1..], pat);
        assert s[1..] == a[1..] + b;
        RemoveAllKeepsPrefix(a[1..], b, pat);
        assert [s[0]] + (a[1..] + RemoveAll(b, pat)) == ([a[0]] + a[1..]) + RemoveAll(b, pat);
        assert a == [a[0]] + a[1..];
      }
    } else {
      assert a + b == b;
    }
  }

  /** An occurrence at the front is dropped. */
  lemma RemoveAllLeading(pat: string, b: string)
    requires pat != []
    ensures RemoveAll(pat + b, pat) == RemoveAll(b, pat)
  {
    assert (pat + b)[..|pat|] == pat;
    assert (pat + b)[|pat|..] == b;
  }

  /** An occurrence in an infix is an occurrence in the whole string. */
  lemma FreeInfix(s: string, i: int, j: int, pat: string)
    requires 0 <= i <= j <= |s| && Free(s, pat)
    ensures Free(s[i..j], pat)
  {
    var t := s[i..j];
    forall k | 0 <= k <= |t| - |pat| ensures !OccursAt(t, pat, k) {
      SliceOfSlice(s, i, j, k, |pat|);
      assert !OccursAt(s, pat, i + k);
    }
  }
}
