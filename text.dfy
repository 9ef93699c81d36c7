/**
 * String primitives shared by the models of the Python sources: Python's
 * `str.strip()`, `str.lower()`, `startswith`, the `in` substring test,
 * `str.join` and `str.replace(old, "")`.
 */
module Text {

  /** Python's `str.isspace()` on one code point; also the set matched by `\s`. */
  predicate IsSpace(c: char) {
    ('\t' <= c <= '\r') || ('\U{1c}' <= c <= ' ')
    || c == '\U{85}' || c == '\U{a0}' || c == '\U{1680}'
    || ('\U{2000}' <= c <= '\U{200a}') || c == '\U{2028}' || c == '\U{2029}'
    || c == '\U{202f}' || c == '\U{205f}' || c == '\U{3000}'
  }

  /** No leading and no trailing whitespace. */
  predicate IsStripped(s: string) {
    s == [] || (!IsSpace(s[0]) && !IsSpace(s[|s| - 1]))
  }

  predicate AllSpace(s: string) {
    forall i :: 0 <= i < |s| ==> IsSpace(s[i])
  }

  function StripLeft(s: string): (r: string)
    ensures r == [] || !IsSpace(r[0])
  {
    if s != [] && IsSpace(s[0]) then StripLeft(s[1..]) else s
  }

  function StripRight(s: string): (r: string)
    ensures r == [] || !IsSpace(r[|r| - 1])
    ensures |r| <= |s|
    ensures r == [] || r[0] == s[0]
  {
    if s != [] && IsSpace(s[|s| - 1]) then StripRight(s[..|s| - 1]) else s
  }

  /** Python's `s.strip()`: drop leading and trailing whitespace. */
  function Strip(s: string): (r: string)
    ensures IsStripped(r)
  {
    StripRight(StripLeft(s))
  }

  lemma StripRightKeepsFirst(s: string)
    requires s == [] || !IsSpace(s[0])
    ensures StripRight(s) == [] || StripRight(s)[0] == s[0]
  {
  }

  /** A string that is already stripped is its own `strip()`. */
  lemma StrippedIsFixpoint(s: string)
    requires IsStripped(s)
    ensures Strip(s) == s
  {
  }

  lemma {:induction false} StripLeftSkipsSpace(w: string, s: string)
    requires AllSpace(w)
    ensures StripLeft(w + s) == StripLeft(s)
  {
    if w != [] {
      assert (w + s)[0] == w[0] && IsSpace(w[0]);
      assert (w + s)[1..] == w[1..] + s;
      assert StripLeft(w + s) == StripLeft(w[1..] + s);
      StripLeftSkipsSpace(w[1..], s);
    } else {
      assert w + s == s;
    }
  }

  /** Leading whitespace does not change the result of `strip()`. */
  lemma StripSkipsLeadingSpace(w: string, s: string)
    requires AllSpace(w)
    ensures Strip(w + s) == Strip(s)
  {
    StripLeftSkipsSpace(w, s);
  }

  /** A string made only of whitespace strips to the empty string. */
  lemma {:induction false} StripAllSpace(s: string)
    requires AllSpace(s)
    ensures Strip(s) == []
  {
    StripSkipsLeadingSpace(s, []);
    assert s + [] == s;
  }

  /** Python's `str.lower()` on one code point, for ASCII and Latin-1 letters. */
  function LowerChar(c: char): (r: char)
    ensures IsSpace(r) <==> IsSpace(c)
  {
    if 'A' <= c <= 'Z' || ('\U{c0}' <= c <= '\U{de}' && c != '\U{d7}')
    then (c as int + 32) as char
    else c
  }

  function Lower(s: string): (r: string)
    ensures |r| == |s|
    ensures forall i :: 0 <= i < |s| ==> r[i] == LowerChar(s[i])
  {
    seq(|s|, i requires 0 <= i < |s| => LowerChar(s[i]))
  }

  /** Python's `s.startswith(p)`. */
  predicate StartsWith(s: string, p: string) {
    |p| <= |s| && s[..|p|] == p
  }

  /** `pat` occurs in `s` starting at index `i`. */
  predicate OccursAt(pat: string, s: string, i: int) {
    0 <= i && i + |pat| <= |s| && s[i..i + |pat|] == pat
  }

  /** A text starting with `p` is `p` followed by the rest. */
  lemma SplitAtPrefix(s: string, p: string)
    requires StartsWith(s, p)
    ensures s == p + s[|p|..]
  {
    assert s == s[..|p|] + s[|p|..];
  }

  /** Starting with `p + x` means starting with `p`. */
  lemma StartsWithLeft(s: string, p: string, x: string)
    requires StartsWith(s, p + x)
    ensures StartsWith(s, p)
  {
    assert s[..|p|] == s[..|p + x|][..|p|];
  }

  /** A prefix of a prefix is a prefix. */
  lemma StartsWithTransitive(s: string, p: string, q: string)
    requires StartsWith(s, p) && StartsWith(p, q)
    ensures StartsWith(s, q)
  {
    assert s[..|q|] == s[..|p|][..|q|];
  }

  /** A prefix of the suffix from `i` is an occurrence at `i`. */
  lemma StartsWithAt(s: string, i: nat, pat: string)
    requires i <= |s|
    ensures StartsWith(s[i..], pat) <==> OccursAt(pat, s, i)
  {
    if i + |pat| <= |s| {
      assert s[i..][..|pat|] == s[i..i + |pat|];
    }
  }

  /** Python's `pat in s`: a substring test (the empty string occurs everywhere). */
  function Contains(s: string, pat: string): (r: bool)
    ensures r <==> exists i :: OccursAt(pat, s, i)
    decreases |s|
  {
    if StartsWith(s, pat) then
      assert OccursAt(pat, s, 0);
      true
    else if |s| == 0 then
      assert forall i :: !OccursAt(pat, s, i);
      false
    else
      var r := Contains(s[1..], pat);
      assert forall i {:trigger OccursAt(pat, s, i)} :: OccursAt(pat, s, i) ==> i == 0 || OccursAt(pat, s[1..], i - 1);
      assert forall i :: OccursAt(pat, s[1..], i) ==> OccursAt(pat, s, i + 1);
      r
  }

  /** An occurrence in a part is an occurrence in the whole. */
  lemma OccursInConcat(pat: string, x: string, y: string, i: int)
    ensures OccursAt(pat, x, i) ==> OccursAt(pat, x + y, i)
    ensures OccursAt(pat, y, i) ==> OccursAt(pat, x + y, |x| + i)
  {
    if OccursAt(pat, x, i) {
      assert (x + y)[i..i + |pat|] == x[i..i + |pat|];
    }
    if OccursAt(pat, y, i) {
      assert (x + y)[|x| + i..|x| + i + |pat|] == y[i..i + |pat|];
    }
  }

  /**
   * A pattern without spaces that occurs in neither part does not occur in
   * the concatenation when a space sits on one side of the seam.
   */
  lemma AbsentAcrossSpace(pat: string, x: string, y: string)
    requires ' ' !in pat
    requires !Contains(x, pat) && !Contains(y, pat)
    requires (x != [] && x[|x| - 1] == ' ') || (y != [] && y[0] == ' ')
    ensures !Contains(x + y, pat)
  {
    var s := x + y;
    forall i | 0 <= i && i + |pat| <= |s|
      ensures !OccursAt(pat, s, i)
    {
      if i + |pat| <= |x| {
        AbsentInLeft(pat, x, y, i);
      } else if i >= |x| {
        AbsentInRight(pat, x, y, i);
      } else if x != [] && x[|x| - 1] == ' ' {
        SpaceInWindow(pat, s, i, |x| - 1);
      } else {
        SpaceInWindow(pat, s, i, |x|);
      }
    }
  }

  /** A window lying in `x` is not an occurrence when `x` has none. */
  lemma AbsentInLeft(pat: string, x: string, y: string, i: nat)
    requires i + |pat| <= |x| && !Contains(x, pat)
    ensures !OccursAt(pat, x + y, i)
  {
    assert (x + y)[i..i + |pat|] == x[i..i + |pat|];
    assert !OccursAt(pat, x, i);
  }

  /** A window lying in `y` is not an occurrence when `y` has none. */
  lemma AbsentInRight(pat: string, x: string, y: string, i: nat)
    requires |x| <= i && i + |pat| <= |x| + |y| && !Contains(y, pat)
    ensures !OccursAt(pat, x + y, i)
  {
    assert (x + y)[i..i + |pat|] == y[i - |x|..i - |x| + |pat|];
    assert !OccursAt(pat, y, i - |x|);
  }

  /** A window holding a space is not an occurrence of a pattern without one. */
  lemma SpaceInWindow(pat: string, s: string, i: nat, k: nat)
    requires ' ' !in pat
    requires i <= k < i + |pat| <= |s| && s[k] == ' '
    ensures !OccursAt(pat, s, i)
  {
    assert s[i..i + |pat|][k - i] == ' ';
  }

  /** A pattern whose first character is missing from `s` does not occur in `s`. */
  lemma AbsentByFirstChar(s: string, pat: string)
    requires |pat| > 0 && pat[0] !in s
    ensures !Contains(s, pat)
  {
    forall i | 0 <= i && i + |pat| <= |s|
      ensures !OccursAt(pat, s, i)
    {
      assert s[i..i + |pat|][0] == s[i];
    }
  }

  /** A pattern longer than `s` does not occur in `s`. */
  lemma AbsentByLength(s: string, pat: string)
    requires |pat| > |s|
    ensures !Contains(s, pat)
  {
  }

  /** Python's `sep.join(xs)`. */
  function Join(sep: string, xs: seq<string>): (r: string)
    ensures xs == [] ==> r == []
    ensures |xs| == 1 ==> r == xs[0]
  {
    if xs == [] then []
    else if |xs| == 1 then xs[0]
    else xs[0] + sep + Join(sep, xs[1..])
  }

  lemma JoinCons(sep: string, x: string, xs: seq<string>)
    requires xs != []
    ensures Join(sep, [x] + xs) == x + sep + Join(sep, xs)
  {
    assert ([x] + xs)[1..] == xs;
  }

  /** Every element of a joined list occurs in the joined text. */
  lemma {:induction false} JoinShowsAll(sep: string, xs: seq<string>)
    ensures forall i :: 0 <= i < |xs| ==> Contains(Join(sep, xs), xs[i])
    decreases |xs|
  {
    if |xs| >= 2 {
      var rest := Join(sep, xs[1..]);
      var r := Join(sep, xs);
      assert r == xs[0] + sep + rest;
      JoinShowsAll(sep, xs[1..]);
      forall i | 0 <= i < |xs|
        ensures Contains(r, xs[i])
      {
        if i == 0 {
          OccursInConcat(xs[0], xs[0], sep + rest, 0);
          assert xs[0] + (sep + rest) == r;
        } else {
          assert xs[i] == xs[1..][i - 1];
          var k :| OccursAt(xs[i], rest, k);
          OccursInConcat(xs[i], xs[0] + sep, rest, k);
        }
      }
    } else if |xs| == 1 {
      assert OccursAt(xs[0], xs[0], 0);
    }
  }

  /** `sep.join` of five strings, written out. */
  lemma JoinFive(sep: string, a: string, b: string, c: string, d: string, e: string)
    ensures Join(sep, [a, b, c, d, e]) == a + sep + b + sep + c + sep + d + sep + e
  {
    JoinCons(sep, d, [e]);
    JoinCons(sep, c, [d, e]);
    JoinCons(sep, b, [c, d, e]);
    JoinCons(sep, a, [b, c, d, e]);
  }

  /**
   * Python's `s.replace(pat, "")`: remove the non-overlapping occurrences of
   * `pat` found in one left-to-right scan.
   */
  function RemoveAll(s: string, pat: string): (r: string)
    requires |pat| > 0
    ensures |r| <= |s|
    decreases |s|
  {
    if s == [] then []
    else if StartsWith(s, pat) then RemoveAll(s[|pat|..], pat)
    else [s[0]] + RemoveAll(s[1..], pat)
  }

  /** `r` can be obtained from `s` by deleting elements. */
  predicate IsSubsequence<T(==)>(r: seq<T>, s: seq<T>)
    decreases |s|
  {
    if r == [] then true
    else if s == [] then false
    else if r[0] == s[0] then IsSubsequence(r[1..], s[1..])
    else IsSubsequence(r, s[1..])
  }

  lemma {:induction false} SubsequenceOfTail<T>(r: seq<T>, s: seq<T>)
    requires s != [] && IsSubsequence(r, s[1..])
    ensures IsSubsequence(r, s)
    decreases |s|, |r|
  {
    if r != [] && r[0] == s[0] {
      SubsequenceDropHead(r, s[1..]);
    }
  }

  lemma {:induction false} SubsequenceDropHead<T>(r: seq<T>, t: seq<T>)
    requires r != [] && IsSubsequence(r, t)
    ensures IsSubsequence(r[1..], t)
    decreases |t|, |r|
  {
    if r[0] == t[0] {
      if r[1..] != [] {
        SubsequenceOfTail(r[1..], t);
      }
    } else {
      SubsequenceDropHead(r, t[1..]);
      if r[1..] != [] {
        SubsequenceOfTail(r[1..], t);
      }
    }
  }

  lemma {:induction false} SubsequenceReflexive<T>(s: seq<T>)
    ensures IsSubsequence(s, s)
    decreases |s|
  {
    if s != [] { SubsequenceReflexive(s[1..]); }
  }

  /** Removing occurrences only deletes characters. */
  lemma {:induction false} RemoveAllIsSubsequence(s: string, pat: string)
    requires |pat| > 0
    ensures IsSubsequence(RemoveAll(s, pat), s)
    decreases |s|
  {
    if s == [] {
    } else if StartsWith(s, pat) {
      RemoveAllIsSubsequence(s[|pat|..], pat);
      DropPrefixSubsequence(RemoveAll(s[|pat|..], pat), s, |pat|);
    } else {
      RemoveAllIsSubsequence(s[1..], pat);
      assert ([s[0]] + RemoveAll(s[1..], pat))[1..] == RemoveAll(s[1..], pat);
    }
  }

  lemma {:induction false} DropPrefixSubsequence<T>(r: seq<T>, s: seq<T>, k: nat)
    requires k <= |s| && IsSubsequence(r, s[k..])
    ensures IsSubsequence(r, s)
    decreases k
  {
    if k > 0 {
      assert s[k - 1..][1..] == s[k..];
      SubsequenceOfTail(r, s[k - 1..]);
      DropPrefixSubsequence(r, s, k - 1);
    }
  }

  /** With no occurrence of `pat`, `replace(pat, "")` changes nothing. */
  lemma {:induction false} RemoveAllAbsent(s: string, pat: string)
    requires |pat| > 0 && !Contains(s, pat)
    ensures RemoveAll(s, pat) == s
    decreases |s|
  {
    if s != [] {
      assert !OccursAt(pat, s, 0);
      forall i | 0 <= i && i + |pat| <= |s| - 1
        ensures !OccursAt(pat, s[1..], i)
      {
        assert s[1..][i..i + |pat|] == s[i + 1..i + 1 + |pat|];
        assert !OccursAt(pat, s, i + 1);
      }
      RemoveAllAbsent(s[1..], pat);
    }
  }

  lemma {:induction false} SubsequenceExtendRight<T>(r: seq<T>, s: seq<T>, x: T)
    requires IsSubsequence(r, s)
    ensures IsSubsequence(r, s + [x])
    decreases |s|
  {
    if r != [] {
      assert (s + [x])[1..] == s[1..] + [x];
      if r[0] == s[0] {
        SubsequenceExtendRight(r[1..], s[1..], x);
      } else {
        SubsequenceExtendRight(r, s[1..], x);
      }
    }
  }

  lemma {:induction false} SubsequenceTransitive<T>(a: seq<T>, b: seq<T>, c: seq<T>)
    requires IsSubsequence(a, b) && IsSubsequence(b, c)
    ensures IsSubsequence(a, c)
    decreases |c|
  {
    if a != [] {
      if b[0] == c[0] {
        if a[0] == b[0] {
          if a[1..] != [] {
            SubsequenceTransitive(a[1..], b[1..], c[1..]);
          }
        } else {
          SubsequenceTransitive(a, b[1..], c[1..]);
          SubsequenceOfTail(a, c);
        }
      } else {
        SubsequenceTransitive(a, b, c[1..]);
        SubsequenceOfTail(a, c);
      }
    }
  }

  lemma {:induction false} StripLeftIsSubsequence(s: string)
    ensures IsSubsequence(StripLeft(s), s)
    decreases |s|
  {
    if s != [] && IsSpace(s[0]) {
      StripLeftIsSubsequence(s[1..]);
      SubsequenceOfTail(StripLeft(s[1..]), s);
    } else {
      SubsequenceReflexive(s);
    }
  }

  lemma {:induction false} StripRightIsSubsequence(s: string)
    ensures IsSubsequence(StripRight(s), s)
    decreases |s|
  {
    if s != [] && IsSpace(s[|s| - 1]) {
      StripRightIsSubsequence(s[..|s| - 1]);
      SubsequenceExtendRight(StripRight(s[..|s| - 1]), s[..|s| - 1], s[|s| - 1]);
      assert s[..|s| - 1] + [s[|s| - 1]] == s;
    } else {
      SubsequenceReflexive(s);
    }
  }

  /** `strip()` only deletes characters. */
  lemma StripIsSubsequence(s: string)
    ensures IsSubsequence(Strip(s), s)
  {
    StripLeftIsSubsequence(s);
    StripRightIsSubsequence(StripLeft(s));
    SubsequenceTransitive(Strip(s), StripLeft(s), s);
  }

  lemma {:induction false} StripLeftStopsAt(s: string, lo: int) returns (lead: nat)
    requires 0 <= lo < |s| && !IsSpace(s[lo])
    ensures lead <= lo && StripLeft(s) == s[lead..]
    decreases |s|
  {
    if IsSpace(s[0]) {
      var l := StripLeftStopsAt(s[1..], lo - 1);
      assert s[1..][l..] == s[l + 1..];
      lead := l + 1;
    } else {
      lead := 0;
    }
  }

  lemma {:induction false} StripRightStopsAt(t: string, hi: int)
    requires 0 < hi <= |t| && !IsSpace(t[hi - 1])
    ensures hi <= |StripRight(t)| && StripRight(t) == t[..|StripRight(t)|]
    decreases |t|
  {
    if IsSpace(t[|t| - 1]) {
      StripRightStopsAt(t[..|t| - 1], hi);
      var m := |StripRight(t)|;
      assert t[..|t| - 1][..m] == t[..m];
    }
  }

  /**
   * A stretch of `s` that begins and ends with non-space survives `strip()`,
   * shifted left by the number of leading spaces removed.
   */
  lemma StripRetainsInterior(s: string, lo: int, hi: int) returns (lead: nat)
    requires 0 <= lo < hi <= |s| && !IsSpace(s[lo]) && !IsSpace(s[hi - 1])
    ensures lead <= lo && hi - lead <= |Strip(s)|
    ensures Strip(s)[lo - lead..hi - lead] == s[lo..hi]
  {
    lead := StripLeftStopsAt(s, lo);
    var t := s[lead..];
    StripRightStopsAt(t, hi - lead);
    var m := |StripRight(t)|;
    assert Strip(s) == t[..m];
    assert t[..m][lo - lead..hi - lead] == s[lo..hi];
  }


  /** Every element of a subsequence is an element of the whole. */
  lemma {:induction false} SubsequenceMembers<T>(r: seq<T>, s: seq<T>)
    requires IsSubsequence(r, s)
    ensures forall x :: x in r ==> x in s
    decreases |s|
  {
    if r != [] {
      if r[0] == s[0] {
        SubsequenceMembers(r[1..], s[1..]);
        assert forall x :: x in r ==> x == r[0] || x in r[1..];
      } else {
        SubsequenceMembers(r, s[1..]);
      }
    }
  }

}
