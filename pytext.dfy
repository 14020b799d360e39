/**
 * The Python string operations the engine applies to file names, mapping
 * field names and fixed-width lines: lenient slicing, `str.strip()`,
 * `str.lower()` and `os.path.splitext`.
 */
module PyText {

  /** A slice bound as Python normalises it: negative counts from the end, then clamped to the string. */
  function ClampIndex(i: int, n: nat): nat {
    if i < 0 then (if i + n < 0 then 0 else i + n)
    else if i > n then n
    else i
  }

  /** `s[i:j]`: never fails; bounds outside the string are clamped, an empty range gives "". */
  function Slice(s: string, i: int, j: int): (r: string)
    ensures |r| <= |s|
    ensures 0 <= i <= j <= |s| ==> r == s[i..j]
    ensures 0 <= i <= |s| <= j ==> r == s[i..]
    ensures i >= |s| ==> r == ""
    ensures 0 <= j <= i ==> r == ""
  {
    var lo, hi := ClampIndex(i, |s|), ClampIndex(j, |s|);
    if lo < hi then s[lo..hi] else ""
  }

  /** Python's `str.isspace()` for one character. */
  predicate IsSpace(c: char) {
    || ('\t' <= c <= '\r')
    || ('\U{1c}' <= c <= '\U{1f}')
    || c == ' '
    || c == '\U{85}'
    || c == '\U{a0}'
    || c == '\U{1680}'
    || ('\U{2000}' <= c <= '\U{200a}')
    || c == '\U{2028}'
    || c == '\U{2029}'
    || c == '\U{202f}'
    || c == '\U{205f}'
    || c == '\U{3000}'
  }

  /** The length of the run of whitespace that starts `s`. */
  function LeadingSpaces(s: string): (n: nat)
    ensures n <= |s|
    ensures forall k :: 0 <= k < n ==> IsSpace(s[k])
    ensures n < |s| ==> !IsSpace(s[n])
  {
    if |s| > 0 && IsSpace(s[0]) then 1 + LeadingSpaces(s[1..]) else 0
  }

  /** The length of the run of whitespace that ends `s`. */
  function TrailingSpaces(s: string): (n: nat)
    ensures n <= |s|
    ensures forall k :: |s| - n <= k < |s| ==> IsSpace(s[k])
    ensures n < |s| ==> !IsSpace(s[|s| - 1 - n])
  {
    if |s| > 0 && IsSpace(s[|s| - 1]) then 1 + TrailingSpaces(s[..|s| - 1]) else 0
  }

  /**
   * `s.strip()`: the part of `s` left after removing whitespace at both ends.
   * The result is a piece of `s` with only whitespace around it, and it
   * neither starts nor ends with whitespace.
   */
  function Strip(s: string): (r: string)
    ensures LeadingSpaces(s) + |r| <= |s|
    ensures r == s[LeadingSpaces(s)..LeadingSpaces(s) + |r|]
    ensures forall k :: LeadingSpaces(s) + |r| <= k < |s| ==> IsSpace(s[k])
    ensures r != [] ==> !IsSpace(r[0]) && !IsSpace(r[|r| - 1])
    ensures r == [] <==> forall k :: 0 <= k < |s| ==> IsSpace(s[k])
  {
    var rest := s[LeadingSpaces(s)..];
    rest[..|rest| - TrailingSpaces(rest)]
  }

  /** Stripping twice is stripping once. */
  lemma {:induction false} StripIdempotent(s: string)
    ensures Strip(Strip(s)) == Strip(s)
  {
    var r := Strip(s);
    if r != [] {
      StripKeepsTrimmed(r);
    }
  }

  /** A string that neither starts nor ends with whitespace is left as it is. */
  lemma {:induction false} StripKeepsTrimmed(s: string)
    requires s != [] ==> !IsSpace(s[0]) && !IsSpace(s[|s| - 1])
    ensures Strip(s) == s
  {
    if s != [] {
      assert LeadingSpaces(s) == 0;
      assert TrailingSpaces(s) == 0;
    }
  }

  /** `str.lower()` on one character; only ASCII letters change. */
  function LowerChar(c: char): char {
    if 'A' <= c <= 'Z' then (c as int + 32) as char else c
  }

  /** `str.lower()`, character by character. */
  function Lower(s: string): (r: string)
    ensures |r| == |s|
    ensures forall k :: 0 <= k < |s| ==> r[k] == LowerChar(s[k])
    ensures forall k :: 0 <= k < |s| ==> !('A' <= r[k] <= 'Z')
  {
    seq(|s|, k requires 0 <= k < |s| => LowerChar(s[k]))
  }

  /** `str.rfind(c)`: the last position of `c`, or -1. */
  function RFind(s: string, c: char): (i: int)
    ensures -1 <= i < |s|
    ensures i >= 0 ==> s[i] == c
    ensures forall k :: i < k < |s| ==> s[k] != c
  {
    if |s| == 0 then -1
    else if s[|s| - 1] == c then |s| - 1
    else RFind(s[..|s| - 1], c)
  }

  /** Some character of `p[lo..hi]` is not a '.'. */
  predicate HasNonDot(p: string, lo: int, hi: int)
    requires 0 <= lo && hi <= |p|
  {
    exists k :: lo <= k < hi && p[k] != '.'
  }

  /**
   * `os.path.splitext(p)[1]` with the POSIX separator: from the last '.' of
   * the last path component to the end, unless that component consists of
   * dots up to that point (a leading-dot name such as ".profile" has none).
   */
  function Ext(p: string): string {
    var sep, dot := RFind(p, '/'), RFind(p, '.');
    if dot > sep && HasNonDot(p, sep + 1, dot) then p[dot..] else ""
  }

  /**
   * The extension is a suffix of the path; when there is one it starts
   * with the path's last '.', holds no other '.' and no '/', and something
   * other than dots precedes it in the last component.
   */
  lemma {:induction false} ExtShape(p: string)
    ensures var e := Ext(p);
      && |e| <= |p| && e == p[|p| - |e|..]
      && (e != "" ==> e[0] == '.' && '.' !in e[1..] && '/' !in e && HasNonDot(p, RFind(p, '/') + 1, |p| - |e|))
  {
  }

  /** Lower-casing keeps every '.' where it was and makes no new one. */
  lemma {:induction false} HasNonDotLower(p: string, lo: int, hi: int)
    requires 0 <= lo && hi <= |p|
    ensures HasNonDot(Lower(p), lo, hi) == HasNonDot(p, lo, hi)
  {
    if HasNonDot(p, lo, hi) {
      var k :| lo <= k < hi && p[k] != '.';
      assert Lower(p)[k] == LowerChar(p[k]);
    }
    if HasNonDot(Lower(p), lo, hi) {
      var k :| lo <= k < hi && Lower(p)[k] != '.';
      assert Lower(p)[k] == LowerChar(p[k]);
    }
  }

  /** `rfind` of a character that is not a letter is blind to lower-casing. */
  lemma {:induction false} RFindLower(s: string, c: char)
    requires !('A' <= c <= 'Z') && !('a' <= c <= 'z')
    ensures RFind(Lower(s), c) == RFind(s, c)
  {
    if |s| > 0 {
      assert Lower(s)[|s| - 1] == LowerChar(s[|s| - 1]);
      assert Lower(s)[..|s| - 1] == Lower(s[..|s| - 1]);
      RFindLower(s[..|s| - 1], c);
    }
  }

  /** The extension of a lower-cased path is the lower-cased extension. */
  lemma {:induction false} ExtLower(p: string)
    ensures Ext(Lower(p)) == Lower(Ext(p))
  {
    RFindLower(p, '/');
    RFindLower(p, '.');
    var sep, dot := RFind(p, '/'), RFind(p, '.');
    if dot > sep {
      HasNonDotLower(p, sep + 1, dot);
      assert Lower(p)[dot..] == Lower(p[dot..]);
    }
  }

  /** `rfind` looks past a tail that does not hold the character. */
  lemma {:induction false} RFindSkips(a: string, b: string, c: char)
    requires c !in b
    ensures RFind(a + b, c) == RFind(a, c)
  {
    var i, j := RFind(a + b, c), RFind(a, c);
    if j >= 0 {
      assert (a + b)[j] == a[j];
    }
    if i >= 0 && i < |a| {
      assert a[i] == (a + b)[i];
    }
  }

  /** Where the last '.' of `stem + ext` lies, when `ext` starts with its only '.'. */
  lemma {:induction false} RFindDot(stem: string, ext: string)
    requires |ext| >= 1 && ext[0] == '.' && '.' !in ext[1..]
    ensures RFind(stem + ext, '.') == |stem|
  {
    assert stem + ext == (stem + ['.']) + ext[1..];
    RFindSkips(stem + ['.'], ext[1..], '.');
  }

  /** `stem + ext` keeps the non-dot character of `stem`'s last component. */
  lemma {:induction false} HasNonDotAppend(stem: string, ext: string, lo: int)
    requires 0 <= lo && HasNonDot(stem, lo, |stem|)
    ensures HasNonDot(stem + ext, lo, |stem|)
  {
    var k :| lo <= k < |stem| && stem[k] != '.';
    assert (stem + ext)[k] == stem[k];
  }

  /**
   * A path whose last component has something other than dots before a
   * final extension `ext` (a '.' then no '.' and no '/') has `ext` as its
   * extension.
   */
  lemma {:induction false} ExtOfSuffix(stem: string, ext: string)
    requires |ext| >= 1 && ext[0] == '.' && '.' !in ext[1..] && '/' !in ext
    requires HasNonDot(stem, RFind(stem, '/') + 1, |stem|)
    ensures Ext(stem + ext) == ext
  {
    RFindSkips(stem, ext, '/');
    RFindDot(stem, ext);
    HasNonDotAppend(stem, ext, RFind(stem, '/') + 1);
    assert (stem + ext)[|stem|..] == ext;
  }

  /** Lower-casing twice is lower-casing once. */
  lemma {:induction false} LowerIdempotent(s: string)
    ensures Lower(Lower(s)) == Lower(s)
  {
  }
}
