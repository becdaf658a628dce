/**
 * The Python string operations the program relies on: `str.strip()`, `str.lower()`,
 * `str.isalpha()`, `set(word)`, `str.startswith` and `str.replace`.
 */
module Text {

  /** `c.isspace()` in Python: the 29 code points that `str.strip()` removes by default. */
  predicate IsWhitespace(c: char)
  {
    var n := c as int;
    if n <= 0x20 then 9 <= n <= 13 || 0x1c <= n
    else if n < 0x85 then false
    else n == 0x85 || n == 0xa0 || n == 0x1680 || (0x2000 <= n <= 0x200a) || n == 0x2028
         || n == 0x2029 || n == 0x202f || n == 0x205f || n == 0x3000
  }

  predicate IsUpperAscii(c: char) { 'A' <= c <= 'Z' }

  predicate IsLowerAscii(c: char) { 'a' <= c <= 'z' }

  /** `c.isalpha()`, restricted to ASCII letters. */
  predicate IsAsciiLetter(c: char) { IsUpperAscii(c) || IsLowerAscii(c) }

  predicate AllWhitespace(s: string)
  {
    forall k :: 0 <= k < |s| ==> IsWhitespace(s[k])
  }

  lemma AllWhitespaceCons(c: char, w: string)
    requires IsWhitespace(c) && AllWhitespace(w)
    ensures AllWhitespace([c] + w)
  {
    forall k | 0 <= k < |[c] + w| ensures IsWhitespace(([c] + w)[k]) {
      if k > 0 { assert ([c] + w)[k] == w[k - 1]; }
    }
  }

  lemma AllWhitespaceSnoc(w: string, c: char)
    requires AllWhitespace(w) && IsWhitespace(c)
    ensures AllWhitespace(w + [c])
  {
    forall k | 0 <= k < |w + [c]| ensures IsWhitespace((w + [c])[k]) {
      if k < |w| { assert (w + [c])[k] == w[k]; }
    }
  }

  /** Removes leading whitespace: the result is a suffix of `s` after some whitespace. */
  function TrimLeft(s: string): (r: string)
    ensures |r| <= |s| && r == s[|s| - |r|..] && AllWhitespace(s[..|s| - |r|])
    ensures r != [] ==> !IsWhitespace(r[0])
    decreases |s|
  {
    if s == [] || !IsWhitespace(s[0]) then s
    else
      var r := TrimLeft(s[1..]);
      TrimLeftStep(s, r);
      r
  }

  lemma TrimLeftStep(s: string, r: string)
    requires s != [] && IsWhitespace(s[0])
    requires |r| <= |s| - 1 && r == s[1..][|s| - 1 - |r|..] && AllWhitespace(s[1..][..|s| - 1 - |r|])
    ensures r == s[|s| - |r|..] && AllWhitespace(s[..|s| - |r|])
  {
    assert s[..|s| - |r|] == [s[0]] + s[1..][..|s| - 1 - |r|];
    AllWhitespaceCons(s[0], s[1..][..|s| - 1 - |r|]);
  }

  /** Removes trailing whitespace: `s` is the result followed by some whitespace. */
  function TrimRight(s: string): (r: string)
    ensures |r| <= |s| && s == r + s[|r|..] && AllWhitespace(s[|r|..])
    ensures r != [] ==> !IsWhitespace(r[|r| - 1])
  {
    if s != [] && IsWhitespace(s[|s| - 1]) then
      var r := TrimRight(s[..|s| - 1]);
      var w := s[..|s| - 1][|r|..];
      assert s[..|s| - 1] == r + w;
      assert s[|r|..] == w + [s[|s| - 1]];
      assert AllWhitespace(w + [s[|s| - 1]]) by { AllWhitespaceSnoc(w, s[|s| - 1]); }
      r
    else s
  }

  /** `s` is whitespace, then `r` from position `i` on, then whitespace. */
  predicate StrippedAt(s: string, r: string, i: int)
  {
    0 <= i <= |s| - |r| && s == s[..i] + r + s[i + |r|..]
    && AllWhitespace(s[..i]) && AllWhitespace(s[i + |r|..])
  }

  /**
   * `s.strip()`: `s` is whitespace, then the result, then whitespace, and the result
   * neither starts nor ends with whitespace (so nothing more could be cut).
   */
  function Strip(s: string): (r: string)
    ensures exists i :: StrippedAt(s, r, i)
    ensures r != [] ==> !IsWhitespace(r[0]) && !IsWhitespace(r[|r| - 1])
  {
    var left := TrimLeft(s);
    var r := TrimRight(left);
    StripSlices(s, left, r);
    r
  }

  lemma StripSlices(s: string, left: string, r: string)
    requires |left| <= |s| && left == s[|s| - |left|..] && AllWhitespace(s[..|s| - |left|])
    requires |r| <= |left| && left == r + left[|r|..] && AllWhitespace(left[|r|..])
    ensures StrippedAt(s, r, |s| - |left|)
  {
    var i := |s| - |left|;
    assert s == s[..i] + left;
    assert s[i + |r|..] == left[|r|..];
  }

  /** A string without whitespace at either end is its own `strip()`. */
  lemma StripUnchanged(s: string)
    requires s != [] ==> !IsWhitespace(s[0]) && !IsWhitespace(s[|s| - 1])
    ensures Strip(s) == s
  {
  }

  function LowerChar(c: char): (d: char)
  {
    if IsUpperAscii(c) then (c as int + 32) as char else c
  }

  /** `s.lower()` on the ASCII range: each upper-case letter replaced by its lower-case form. */
  function Lower(s: string): (r: string)
    ensures |r| == |s|
    ensures forall k :: 0 <= k < |s| ==> r[k] == LowerChar(s[k])
  {
    if s == [] then [] else [LowerChar(s[0])] + Lower(s[1..])
  }

  /** `s.isalpha()`: non-empty and made of letters only. */
  predicate IsAlpha(s: string)
  {
    |s| > 0 && forall k :: 0 <= k < |s| ==> IsAsciiLetter(s[k])
  }

  /** `set(s)`: the distinct characters of `s`, of which there are at most `|s|`. */
  function LetterSet(s: string): (r: set<char>)
    ensures |r| <= |s|
  {
    DistinctCharsBound(s);
    set c | c in s
  }

  lemma {:induction false} DistinctCharsBound(s: string)
    ensures |set c | c in s| <= |s|
  {
    if s != [] {
      DistinctCharsBound(s[1..]);
      assert (set c | c in s) == (set c | c in s[1..]) + {s[0]};
    }
  }

  /** `s.startswith(p)`. */
  predicate StartsWith(s: string, p: string)
  {
    |p| <= |s| && s[..|p|] == p
  }

  /** `p` occurs in `s` at position `i`. */
  predicate OccursAt(s: string, p: string, i: int)
  {
    0 <= i && i + |p| <= |s| && s[i..i + |p|] == p
  }

  /**
   * `s.replace(pat, rep)`: scanning left to right, every non-overlapping occurrence
   * of `pat` is replaced by `rep`.
   */
  function Replace(s: string, pat: string, rep: string): (r: string)
    requires pat != []
    decreases |s|
  {
    if s == [] then []
    else if StartsWith(s, pat) then rep + Replace(s[|pat|..], pat, rep)
    else [s[0]] + Replace(s[1..], pat, rep)
  }

  /** Text in which `pat` never occurs is left alone by `replace`. */
  lemma {:induction false} ReplaceWithoutOccurrence(s: string, pat: string, rep: string)
    requires pat != []
    requires forall i :: 0 <= i <= |s| ==> !OccursAt(s, pat, i)
    ensures Replace(s, pat, rep) == s
  {
    if s != [] {
      assert !OccursAt(s, pat, 0);
      forall i | 0 <= i <= |s[1..]|
        ensures !OccursAt(s[1..], pat, i)
      {
        assert !OccursAt(s, pat, i + 1);
      }
      ReplaceWithoutOccurrence(s[1..], pat, rep);
    }
  }

  /** If some character of `pat` is missing from `s`, `replace` leaves `s` alone. */
  lemma ReplaceWithoutChar(s: string, pat: string, rep: string, c: char)
    requires pat != [] && c in pat && c !in s
    ensures Replace(s, pat, rep) == s
  {
    forall i | 0 <= i <= |s|
      ensures !OccursAt(s, pat, i)
    {
      var k :| 0 <= k < |pat| && pat[k] == c;
      assert i + |pat| <= |s| ==> s[i..i + |pat|][k] == s[i + k];
    }
    ReplaceWithoutOccurrence(s, pat, rep);
  }

  /**
   * A stretch `x` that does not contain the first character of `pat` cannot start an
   * occurrence, so `replace` copies it through unchanged.
   */
  lemma {:induction false} ReplaceSkips(x: string, y: string, pat: string, rep: string)
    requires pat != [] && pat[0] !in x
    ensures Replace(x + y, pat, rep) == x + Replace(y, pat, rep)
  {
    if x != [] {
      assert (x + y)[0] == x[0];
      assert |pat| <= |x + y| ==> (x + y)[..|pat|][0] == x[0];
      assert !StartsWith(x + y, pat);
      assert (x + y)[1..] == x[1..] + y;
      calc {
        Replace(x + y, pat, rep);
        [x[0]] + Replace(x[1..] + y, pat, rep);
        { ReplaceSkips(x[1..], y, pat, rep); }
        [x[0]] + (x[1..] + Replace(y, pat, rep));
        { assert [x[0]] + x[1..] == x; }
        x + Replace(y, pat, rep);
      }
    } else {
      assert x + y == y;
    }
  }

  /** An occurrence at the very start is dropped and the scan resumes after it. */
  lemma ReplaceLeading(pat: string, y: string, rep: string)
    requires pat != []
    ensures Replace(pat + y, pat, rep) == rep + Replace(y, pat, rep)
  {
    assert (pat + y)[..|pat|] == pat;
    assert (pat + y)[|pat|..] == y;
  }

  /** A second copy of `pat`, after a stretch without its first character, is replaced too. */
  lemma ReplaceNested(pat: string, x: string, y: string, rep: string)
    requires pat != [] && pat[0] !in x
    ensures Replace(pat + (x + (pat + y)), pat, rep) == rep + (x + (rep + Replace(y, pat, rep)))
  {
    ReplaceLeading(pat, x + (pat + y), rep);
    ReplaceSkips(x, pat + y, pat, rep);
    ReplaceLeading(pat, y, rep);
  }

  /**
   * Removing `pat` from `pat + x + pat + y`, where `x` cannot start a copy of `pat` and
   * `x + y` holds none, leaves `x + y`.
   */
  lemma RemoveBothCopies(pat: string, x: string, y: string)
    requires pat != [] && pat[0] !in x && Replace(x + y, pat, "") == x + y
    ensures StartsWith(pat + (x + (pat + y)), pat)
    ensures Replace(pat + (x + (pat + y)), pat, "") == x + y
  {
    assert (pat + (x + (pat + y)))[..|pat|] == pat;
    ReplaceNested(pat, x, y, "");
    ReplaceSkips(x, y, pat, "");
    assert "" + (x + ("" + Replace(y, pat, ""))) == x + Replace(y, pat, "");
  }
}
