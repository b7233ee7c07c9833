/**
 * The two Python string methods the result cleaning relies on, `str.replace`
 * and `str.strip` (with no argument), stated over `string` = `seq<char>`,
 * together with the notion of one string occurring inside another.
 */
module Strings {

  /** `p` is a prefix of `s`. */
  predicate StartsWith(s: string, p: string)
  {
    |p| <= |s| && s[..|p|] == p
  }

  /** The prefix test, character by character. */
  lemma StartsWithChars(s: string, p: string)
    ensures StartsWith(s, p) <==> |p| <= |s| && forall k | 0 <= k < |p| :: s[k] == p[k]
  {
    if |p| <= |s| {
      assert forall k | 0 <= k < |p| :: s[..|p|][k] == s[k];
    }
  }

  /** `p` occurs somewhere in `s` (Python's `p in s`). */
  predicate Occurs(s: string, p: string)
  {
    exists i | 0 <= i <= |s| :: StartsWith(s[i..], p)
  }

  /** An occurrence in a non-empty string is at its head or in its tail. */
  lemma OccursUncons(s: string, p: string)
    requires s != []
    ensures Occurs(s, p) <==> StartsWith(s, p) || Occurs(s[1..], p)
  {
    if Occurs(s, p) && !StartsWith(s, p) {
      var i :| 0 <= i <= |s| && StartsWith(s[i..], p);
      assert i != 0;
      assert s[1..][i - 1..] == s[i..];
    }
    if Occurs(s[1..], p) {
      var i :| 0 <= i <= |s| - 1 && StartsWith(s[1..][i..], p);
      assert s[1..][i..] == s[i + 1..];
      assert StartsWith(s[i + 1..], p);
    }
    if StartsWith(s, p) {
      assert s[0..] == s;
    }
  }

  /** A string that occurs in a slice of `s` occurs in `s`. */
  lemma OccursInSlice(s: string, i: nat, j: nat, p: string)
    requires i <= j <= |s|
    requires Occurs(s[i..j], p)
    ensures Occurs(s, p)
  {
    var k :| 0 <= k <= j - i && StartsWith(s[i..j][k..], p);
    StartsWithChars(s[i..j][k..], p);
    StartsWithChars(s[i + k..], p);
    assert forall m | 0 <= m < |p| :: s[i..j][k..][m] == s[i + k..][m];
  }

  /** Wherever `p + q` occurs, `p` occurs. */
  lemma OccursPrefix(s: string, p: string, q: string)
    requires Occurs(s, p + q)
    ensures Occurs(s, p)
  {
    var i :| 0 <= i <= |s| && StartsWith(s[i..], p + q);
    assert s[i..][..|p|] == (p + q)[..|p|] == p;
  }

  /**
   * Python's `s.replace(pat, rep)`: scans `s` from the left and replaces
   * each occurrence of `pat` that does not overlap an earlier replaced one.
   * An empty `pat` matches before every character and at the end.
   */
  function Replace(s: string, pat: string, rep: string): string
    decreases |s|
  {
    if pat == [] then
      if s == [] then rep else rep + [s[0]] + Replace(s[1..], pat, rep)
    else if StartsWith(s, pat) then rep + Replace(s[|pat|..], pat, rep)
    else if s == [] then []
    else [s[0]] + Replace(s[1..], pat, rep)
  }

  /** A pattern at the very start is replaced and the scan goes on after it. */
  lemma ReplaceLeading(pat: string, t: string, rep: string)
    requires pat != []
    ensures Replace(pat + t, pat, rep) == rep + Replace(t, pat, rep)
  {
    assert (pat + t)[..|pat|] == pat;
    assert (pat + t)[|pat|..] == t;
  }

  /** Replacing a non-empty pattern that does not occur changes nothing. */
  lemma {:induction false} ReplaceAbsent(s: string, pat: string, rep: string)
    requires pat != []
    requires !Occurs(s, pat)
    ensures Replace(s, pat, rep) == s
  {
    if s != [] {
      OccursUncons(s, pat);
      ReplaceAbsent(s[1..], pat, rep);
    }
  }

  /**
   * Python's `str.isspace` for one character, the set `str.strip()` trims:
   * the ASCII controls 0x09-0x0D and 0x1C-0x1F, the space, and the Unicode
   * separators and spaces U+0085, U+00A0, U+1680, U+2000-U+200A, U+2028,
   * U+2029, U+202F, U+205F and U+3000.
   */
  predicate IsSpace(c: char)
  {
    var n := c as int;
    || 0x09 <= n <= 0x0D
    || 0x1C <= n <= 0x20
    || n == 0x85 || n == 0xA0 || n == 0x1680
    || 0x2000 <= n <= 0x200A
    || n == 0x2028 || n == 0x2029 || n == 0x202F || n == 0x205F
    || n == 0x3000
  }

  predicate AllSpace(s: string)
  {
    forall k | 0 <= k < |s| :: IsSpace(s[k])
  }

  /** No whitespace at either end. */
  predicate Trimmed(s: string)
  {
    s == [] || (!IsSpace(s[0]) && !IsSpace(s[|s| - 1]))
  }

  /** Drops the longest all-whitespace prefix. */
  function TrimLeft(s: string): (r: string)
    ensures |r| <= |s| && r == s[|s| - |r|..]
    ensures AllSpace(s[..|s| - |r|])
    ensures r == [] || !IsSpace(r[0])
  {
    if s != [] && IsSpace(s[0]) then
      var r := TrimLeft(s[1..]);
      assert s[..|s| - |r|] == [s[0]] + s[1..][..|s| - 1 - |r|];
      r
    else s
  }

  /** Drops the longest all-whitespace suffix. */
  function TrimRight(s: string): (r: string)
    ensures |r| <= |s| && r == s[..|r|]
    ensures AllSpace(s[|r|..])
    ensures r == [] || !IsSpace(r[|r| - 1])
  {
    if s != [] && IsSpace(s[|s| - 1]) then
      var r := TrimRight(s[..|s| - 1]);
      assert s[|r|..] == s[..|s| - 1][|r|..] + [s[|s| - 1]];
      r
    else s
  }

  /**
   * Python's `s.strip()`: `s` with every leading and every trailing
   * whitespace character removed. The result is a slice `s[i..j]` whose
   * surroundings are all whitespace and whose ends are not.
   */
  function Strip(s: string): (r: string)
    ensures Trimmed(r)
    ensures exists i, j | 0 <= i <= j <= |s| :: r == s[i..j] && AllSpace(s[..i]) && AllSpace(s[j..])
  {
    var l := TrimLeft(s);
    var r := TrimRight(l);
    var i := |s| - |l|;
    assert r == s[i..i + |r|];
    assert s[i + |r|..] == l[|r|..];
    if r == [] then r
    else
      assert r[0] == l[0];
      r
  }

  /** A string with nothing to trim is its own strip. */
  lemma StripTrimmed(s: string)
    requires Trimmed(s)
    ensures Strip(s) == s
  {
  }

  /** A word with nothing to trim at its ends survives at the front of a strip. */
  lemma StripKeepsLeadingWord(w: string, b: string)
    requires w != [] && Trimmed(w)
    ensures StartsWith(Strip(w + b), w)
  {
    var s := w + b;
    assert s[0] == w[0];
    assert TrimLeft(s) == s;
    var r := TrimRight(s);
    assert !IsSpace(s[|w| - 1]);
    assert r[..|w|] == w;
  }

  /** Stripping cannot create an occurrence. */
  lemma StripKeepsAbsence(s: string, p: string)
    requires !Occurs(s, p)
    ensures !Occurs(Strip(s), p)
  {
    if Occurs(Strip(s), p) {
      var i, j :| 0 <= i <= j <= |s| && Strip(s) == s[i..j];
      OccursInSlice(s, i, j, p);
    }
  }
}
