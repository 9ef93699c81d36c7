/**
 * `parse_event_info` of mistrachat_langchain.py: five regular-expression
 * searches over a document text, each filling one key of a dictionary.
 *
 * Only the two regex shapes that occur are modelled, with Python's
 * backtracking order written out:
 *   UpTo(L, N)  is  `L\s*(.+?)\s*\|\s*N`  (searched with DOTALL)
 *   ToEnd(L)    is  `L\s*(.+)$`
 * `re.search` tries start positions left to right; at a start position the
 * greedy `\s*` first takes the longest whitespace run and gives characters
 * back one at a time; for each choice the lazy `.+?` tries the shortest
 * group first, the greedy `.+` the longest. The separator `\s*\|\s*N` never
 * needs to give whitespace back, since `|` and every marker begin with a
 * non-space character.
 */
module EventInfo {
  import opened Wrappers
  import opened Text

  datatype FieldPattern =
    | UpTo(marker: string, next: string)
    | ToEnd(marker: string)

  /** The five `(key, pattern)` pairs, in the dictionary's order. */
  const Patterns: seq<(string, FieldPattern)> := [
    ("titre", UpTo("Titre:", "Adresse:")),
    ("adresse", UpTo("Adresse:", "Date:")),
    ("date", UpTo("Date:", "URL:")),
    ("url", UpTo("URL:", "Description:")),
    ("description", ToEnd("Description:"))
  ]

  const Keys: set<string> := {"titre", "adresse", "date", "url", "description"}

  /** The five labels the patterns look for. */
  const Labels: seq<string> := ["Titre:", "Adresse:", "Date:", "URL:", "Description:"]

  /** The greedy `\s*` at position `i`: the end of the whitespace run there. */
  function SkipSpaces(s: string, i: nat): (j: nat)
    requires i <= |s|
    ensures i <= j <= |s|
    ensures forall k :: i <= k < j ==> IsSpace(s[k])
    ensures j == |s| || !IsSpace(s[j])
    decreases |s| - i
  {
    if i < |s| && IsSpace(s[i]) then SkipSpaces(s, i + 1) else i
  }

  /** `\s*\|\s*next` matches at position `e`. */
  predicate SeparatorAt(s: string, e: nat, next: string)
    requires e <= |s|
  {
    var b := SkipSpaces(s, e);
    b < |s| && s[b] == '|' && StartsWith(s[SkipSpaces(s, b + 1)..], next)
  }

  /** The lazy `.+?`: the first end position from `from` on where the separator matches. */
  function LazyEnd(s: string, from: nat, next: string): (r: Option<nat>)
    requires from <= |s| + 1
    ensures r.Some? ==> from <= r.value <= |s| && SeparatorAt(s, r.value, next)
    ensures r.Some? ==> forall e :: from <= e < r.value ==> !SeparatorAt(s, e, next)
    ensures r.None? ==> forall e :: from <= e <= |s| ==> !SeparatorAt(s, e, next)
    decreases |s| + 1 - from
  {
    if from > |s| then None
    else if SeparatorAt(s, from, next) then Some(from)
    else LazyEnd(s, from + 1, next)
  }

  /**
   * `\s*(.+?)\s*\|\s*next` after a marker ending at `a`, with the `\s*` ending
   * at `g`: the group is non-empty, so it starts at `g` and ends where the
   * separator first matches; without one, `\s*` gives back a character.
   */
  function GroupUpTo(s: string, a: nat, g: nat, next: string): Option<string>
    requires a <= g <= |s|
    decreases g - a
  {
    match (if g < |s| then LazyEnd(s, g + 1, next) else None)
    case Some(e) => Some(s[g..e])
    case None => if g == a then None else GroupUpTo(s, a, g - 1, next)
  }

  /** `\s*(.+)$` after a marker ending at `a`: the group runs to the end of the text. */
  function GroupToEnd(s: string, a: nat, g: nat): Option<string>
    requires a <= g <= |s|
    decreases g - a
  {
    if g < |s| then Some(s[g..])
    else if g == a then None
    else GroupToEnd(s, a, g - 1)
  }

  /** The pattern tried at start position `p`; its group 1 when it matches. */
  function MatchAt(s: string, p: nat, pat: FieldPattern): Option<string>
    requires p <= |s|
  {
    if !StartsWith(s[p..], pat.marker) then None
    else
      var a := p + |pat.marker|;
      match pat
      case UpTo(_, next) => GroupUpTo(s, a, SkipSpaces(s, a), next)
      case ToEnd(_) => GroupToEnd(s, a, SkipSpaces(s, a))
  }

  /** `re.search` from position `p` on: the leftmost start position that matches. */
  function SearchFrom(s: string, p: nat, pat: FieldPattern): Option<string>
    requires p <= |s|
    decreases |s| - p
  {
    match MatchAt(s, p, pat)
    case Some(g) => Some(g)
    case None => if p == |s| then None else SearchFrom(s, p + 1, pat)
  }

  /** `re.search(pattern, text, re.DOTALL).group(1)`, or `None` without a match. */
  function Search(s: string, pat: FieldPattern): Option<string> {
    SearchFrom(s, 0, pat)
  }

  /** No two patterns fill the same key. */
  predicate DistinctKeys(ps: seq<(string, FieldPattern)>) {
    forall i, j :: 0 <= i < j < |ps| ==> ps[i].0 != ps[j].0
  }

  /** The dictionary after the loop has processed the first `n` patterns. */
  function InfoAfter(text: string, n: nat): (info: map<string, string>)
    requires n <= |Patterns|
    ensures forall k :: k in info ==> IsStripped(info[k])
  {
    if n == 0 then map[]
    else
      var m := InfoAfter(text, n - 1);
      match Search(text, Patterns[n - 1].1)
      case Some(g) => m[Patterns[n - 1].0 := Strip(g)]
      case None => m
  }

  /** Only the keys of the patterns processed so far are ever added. */
  lemma {:induction false} InfoAfterKeys(text: string, n: nat)
    requires n <= |Patterns|
    ensures forall k :: k in InfoAfter(text, n) ==> exists i :: 0 <= i < n && Patterns[i].0 == k
  {
    if n > 0 {
      InfoAfterKeys(text, n - 1);
      forall k | k in InfoAfter(text, n) ensures exists i :: 0 <= i < n && Patterns[i].0 == k {
        if k !in InfoAfter(text, n - 1) {
          assert Patterns[n - 1].0 == k;
        }
      }
    }
  }

  /** One more pattern: its key is set to the stripped group when its search matches. */
  lemma InfoAfterNext(text: string, i: nat)
    requires i < |Patterns|
    ensures Search(text, Patterns[i].1).Some? ==>
              InfoAfter(text, i + 1) == InfoAfter(text, i)[Patterns[i].0 := Strip(Search(text, Patterns[i].1).value)]
    ensures Search(text, Patterns[i].1).None? ==> InfoAfter(text, i + 1) == InfoAfter(text, i)
  {
  }

  /**
   * With distinct keys, a processed key is present exactly when its pattern
   * matched, and then holds the stripped group.
   */
  lemma {:induction false} InfoAfterEntries(text: string, n: nat)
    requires n <= |Patterns| && DistinctKeys(Patterns)
    ensures forall i :: 0 <= i < n ==> (Patterns[i].0 in InfoAfter(text, n) <==> Search(text, Patterns[i].1).Some?)
    ensures forall i :: 0 <= i < n && Patterns[i].0 in InfoAfter(text, n) ==>
              InfoAfter(text, n)[Patterns[i].0] == Strip(Search(text, Patterns[i].1).value)
  {
    if n > 0 {
      InfoAfterEntries(text, n - 1);
      forall i | 0 <= i < n
        ensures Patterns[i].0 in InfoAfter(text, n) <==> Search(text, Patterns[i].1).Some?
        ensures Patterns[i].0 in InfoAfter(text, n) ==>
                  InfoAfter(text, n)[Patterns[i].0] == Strip(Search(text, Patterns[i].1).value)
      {
        if i < n - 1 {
          InfoAfterKeeps(text, n, Patterns[i].0);
        } else {
          InfoAfterAdds(text, n);
        }
      }
    }
  }

  /** Processing pattern `n - 1` leaves every other key as it was. */
  lemma InfoAfterKeeps(text: string, n: nat, k: string)
    requires 0 < n <= |Patterns| && k != Patterns[n - 1].0
    ensures k in InfoAfter(text, n) <==> k in InfoAfter(text, n - 1)
    ensures k in InfoAfter(text, n) ==> InfoAfter(text, n)[k] == InfoAfter(text, n - 1)[k]
  {
  }

  /** Pattern `n - 1`'s key, absent before, is added exactly when its search matches. */
  lemma InfoAfterAdds(text: string, n: nat)
    requires 0 < n <= |Patterns| && DistinctKeys(Patterns)
    ensures Patterns[n - 1].0 in InfoAfter(text, n) <==> Search(text, Patterns[n - 1].1).Some?
    ensures Patterns[n - 1].0 in InfoAfter(text, n) ==>
              InfoAfter(text, n)[Patterns[n - 1].0] == Strip(Search(text, Patterns[n - 1].1).value)
  {
    InfoAfterKeys(text, n - 1);
    assert Patterns[n - 1].0 !in InfoAfter(text, n - 1);
  }

  /**
   * The dictionary `parse_event_info` returns, as a function of the text: it
   * uses only the five keys, and every value is stripped.
   */
  function EventInfoOf(text: string): (info: map<string, string>)
    ensures info.Keys <= Keys
    ensures forall k :: k in info ==> IsStripped(info[k])
  {
    InfoAfterKeys(text, |Patterns|);
    assert forall k :: k in InfoAfter(text, |Patterns|) ==> k in Keys by {
      forall k | k in InfoAfter(text, |Patterns|) ensures k in Keys {
        var j :| 0 <= j < |Patterns| && Patterns[j].0 == k;
        assert j == 0 || j == 1 || j == 2 || j == 3 || j == 4;
      }
    }
    InfoAfter(text, |Patterns|)
  }

  /** The five keys are pairwise different. */
  lemma PatternKeysDistinct()
    ensures DistinctKeys(Patterns)
  {
    assert Patterns[0].0 == "titre" && Patterns[1].0 == "adresse" && Patterns[2].0 == "date";
    assert Patterns[3].0 == "url" && Patterns[4].0 == "description";
  }

  /** `parse_event_info`: the loop over the five patterns, filling `info`. */
  method ParseEventInfo(pageContent: string) returns (info: map<string, string>)
    ensures info == EventInfoOf(pageContent)
    ensures info.Keys <= Keys
    ensures forall k :: k in info ==> IsStripped(info[k])
  {
    info := map[];
    var i := 0;
    while i < |Patterns|
      invariant 0 <= i <= |Patterns|
      invariant info == InfoAfter(pageContent, i)
    {
      var m := Search(pageContent, Patterns[i].1);
      InfoAfterNext(pageContent, i);
      if m.Some? {
        info := info[Patterns[i].0 := Strip(m.value)];
      }
      i := i + 1;
    }
  }

  /**
   * Each key of the parsed dictionary is present exactly when its pattern
   * matches, and then holds the stripped group.
   */
  lemma ParsedEntries(text: string)
    ensures "titre" in EventInfoOf(text) <==> Search(text, UpTo("Titre:", "Adresse:")).Some?
    ensures "adresse" in EventInfoOf(text) <==> Search(text, UpTo("Adresse:", "Date:")).Some?
    ensures "date" in EventInfoOf(text) <==> Search(text, UpTo("Date:", "URL:")).Some?
    ensures "url" in EventInfoOf(text) <==> Search(text, UpTo("URL:", "Description:")).Some?
    ensures "description" in EventInfoOf(text) <==> Search(text, ToEnd("Description:")).Some?
    ensures "titre" in EventInfoOf(text) ==>
              EventInfoOf(text)["titre"] == Strip(Search(text, UpTo("Titre:", "Adresse:")).value)
    ensures "adresse" in EventInfoOf(text) ==>
              EventInfoOf(text)["adresse"] == Strip(Search(text, UpTo("Adresse:", "Date:")).value)
    ensures "date" in EventInfoOf(text) ==>
              EventInfoOf(text)["date"] == Strip(Search(text, UpTo("Date:", "URL:")).value)
    ensures "url" in EventInfoOf(text) ==>
              EventInfoOf(text)["url"] == Strip(Search(text, UpTo("URL:", "Description:")).value)
    ensures "description" in EventInfoOf(text) ==>
              EventInfoOf(text)["description"] == Strip(Search(text, ToEnd("Description:")).value)
  {
    PatternKeysDistinct();
    InfoAfterEntries(text, |Patterns|);
    assert Patterns[0] == ("titre", UpTo("Titre:", "Adresse:"));
    assert Patterns[1] == ("adresse", UpTo("Adresse:", "Date:"));
    assert Patterns[2] == ("date", UpTo("Date:", "URL:"));
    assert Patterns[3] == ("url", UpTo("URL:", "Description:"));
    assert Patterns[4] == ("description", ToEnd("Description:"));
  }

  // ---------------------------------------------------------------------------
  // Facts about the search, used by the round-trip proofs
  // ---------------------------------------------------------------------------

  /** Start positions where the marker does not occur are passed over. */
  lemma {:induction false} SearchSkips(s: string, pat: FieldPattern, p: nat, q: nat)
    requires p <= q <= |s|
    requires forall k :: p <= k < q ==> !OccursAt(pat.marker, s, k)
    ensures SearchFrom(s, p, pat) == SearchFrom(s, q, pat)
    decreases q - p
  {
    if p < q {
      StartsWithAt(s, p, pat.marker);
      SearchSkips(s, pat, p + 1, q);
    }
  }

  /** The search reports the match at the first start position where the marker occurs. */
  lemma SearchStartsAt(s: string, p: nat, pat: FieldPattern)
    requires p <= |s| && MatchAt(s, p, pat).Some?
    requires forall k :: 0 <= k < p ==> !OccursAt(pat.marker, s, k)
    ensures Search(s, pat) == MatchAt(s, p, pat)
  {
    SearchSkips(s, pat, 0, p);
  }

  /**
   * `\s*(.+?)\s*\|\s*next`: a group is a non-empty stretch of the text after
   * the marker, followed by the separator, which matches nowhere earlier
   * within it (the lazy group is the shortest one).
   */
  lemma {:induction false} GroupUpToSpan(s: string, a: nat, g: nat, next: string)
    requires a <= g <= |s|
    ensures GroupUpTo(s, a, g, next).Some? ==>
              exists b, e :: a <= b < e <= |s| && GroupUpTo(s, a, g, next).value == s[b..e]
                             && SeparatorAt(s, e, next)
                             && forall e' :: b < e' < e ==> !SeparatorAt(s, e', next)
    decreases g - a
  {
    var lazy := if g < |s| then LazyEnd(s, g + 1, next) else None;
    if lazy.Some? {
      var e := lazy.value;
      assert GroupUpTo(s, a, g, next).value == s[g..e];
      assert SeparatorAt(s, e, next);
    } else if g > a {
      GroupUpToSpan(s, a, g - 1, next);
    }
  }

  /**
   * `\s*(.+)$`: there is no group only when the marker ends the text;
   * otherwise the group is a non-empty suffix of the text after the marker.
   */
  lemma {:induction false} GroupToEndSpan(s: string, a: nat, g: nat)
    requires a <= g <= |s|
    ensures GroupToEnd(s, a, g).None? <==> a == |s|
    ensures GroupToEnd(s, a, g).Some? ==>
              0 < |GroupToEnd(s, a, g).value| <= |s| - a
              && GroupToEnd(s, a, g).value == s[|s| - |GroupToEnd(s, a, g).value|..]
    decreases g - a
  {
    if g == |s| && g > a {
      GroupToEndSpan(s, a, g - 1);
    }
  }

  /** A pattern matches only where its marker starts, and its group is never empty. */
  lemma MatchAtMarker(s: string, p: nat, pat: FieldPattern)
    requires p <= |s|
    ensures MatchAt(s, p, pat).Some? ==> StartsWith(s[p..], pat.marker) && MatchAt(s, p, pat).value != []
  {
    if StartsWith(s[p..], pat.marker) {
      var a := p + |pat.marker|;
      match pat
      case UpTo(_, next) => GroupUpToSpan(s, a, SkipSpaces(s, a), next);
      case ToEnd(_) => GroupToEndSpan(s, a, SkipSpaces(s, a));
    }
  }

  /** `re.search` from `p` on finds nothing exactly when no start position from `p` matches. */
  lemma {:induction false} SearchFromNone(s: string, p: nat, pat: FieldPattern)
    requires p <= |s|
    ensures SearchFrom(s, p, pat).None? <==> forall q :: p <= q <= |s| ==> MatchAt(s, q, pat).None?
    decreases |s| - p
  {
    if MatchAt(s, p, pat).None? && p < |s| {
      SearchFromNone(s, p + 1, pat);
      assert SearchFrom(s, p, pat) == SearchFrom(s, p + 1, pat);
    }
  }

  /** A match found from `p` on is the one at the leftmost matching start position. */
  lemma {:induction false} SearchFromLeftmost(s: string, p: nat, pat: FieldPattern)
    requires p <= |s| && SearchFrom(s, p, pat).Some?
    ensures exists q :: p <= q <= |s| && MatchAt(s, q, pat) == SearchFrom(s, p, pat)
                        && forall q' :: p <= q' < q ==> MatchAt(s, q', pat).None?
    decreases |s| - p
  {
    if MatchAt(s, p, pat).None? {
      assert SearchFrom(s, p, pat) == SearchFrom(s, p + 1, pat);
      SearchFromLeftmost(s, p + 1, pat);
      var q :| p + 1 <= q <= |s| && MatchAt(s, q, pat) == SearchFrom(s, p + 1, pat)
               && forall q' :: p + 1 <= q' < q ==> MatchAt(s, q', pat).None?;
      assert forall q' :: p <= q' < q ==> MatchAt(s, q', pat).None?;
    }
  }

  /**
   * `re.search(pattern, text)`: no match exactly when no start position
   * matches; otherwise the non-empty group of the leftmost matching position.
   */
  lemma SearchIsLeftmost(s: string, pat: FieldPattern)
    ensures Search(s, pat).None? <==> forall q :: 0 <= q <= |s| ==> MatchAt(s, q, pat).None?
    ensures Search(s, pat).Some? ==>
              Search(s, pat).value != []
              && exists q :: 0 <= q <= |s| && MatchAt(s, q, pat) == Search(s, pat)
                             && forall q' :: 0 <= q' < q ==> MatchAt(s, q', pat).None?
  {
    SearchFromNone(s, 0, pat);
    if Search(s, pat).Some? {
      SearchFromLeftmost(s, 0, pat);
      var q :| 0 <= q <= |s| && MatchAt(s, q, pat) == Search(s, pat)
               && forall q' :: 0 <= q' < q ==> MatchAt(s, q', pat).None?;
      MatchAtMarker(s, q, pat);
    }
  }

  /** A marker preceded only by text free of it, ending in a space, is where the search starts. */
  lemma NoEarlierMarker(marker: string, pre: string, rest: string)
    requires ' ' !in marker && !Contains(pre, marker)
    requires pre == [] || pre[|pre| - 1] == ' '
    ensures forall k :: 0 <= k < |pre| ==> !OccursAt(marker, pre + rest, k)
  {
    var s := pre + rest;
    forall k | 0 <= k < |pre| ensures !OccursAt(marker, s, k) {
      if k + |marker| <= |pre| {
        assert s[k..k + |marker|] == pre[k..k + |marker|];
        assert !OccursAt(marker, pre, k);
      } else if k + |marker| <= |s| {
        assert s[k..k + |marker|][|pre| - 1 - k] == ' ';
      }
    }
  }

  /** The whitespace run after a single space ends right there. */
  lemma OneSpace(s: string, i: nat)
    requires i + 1 < |s| && IsSpace(s[i]) && !IsSpace(s[i + 1])
    ensures SkipSpaces(s, i) == i + 1
  {
  }

  /** ` | next` at `e` is a separator. */
  lemma SeparatorFound(s: string, e: nat, next: string)
    requires e + 3 <= |s| && s[e] == ' ' && s[e + 1] == '|' && s[e + 2] == ' '
    requires next != [] && !IsSpace(next[0]) && StartsWith(s[e + 3..], next)
    ensures SeparatorAt(s, e, next)
  {
    assert s[e + 3] == s[e + 3..][0] == next[0];
    OneSpace(s, e);
    OneSpace(s, e + 2);
  }

  /** No separator starts inside a run without `|` that ends in a non-space. */
  lemma NoSeparatorWithin(s: string, lo: nat, hi: nat, next: string)
    requires lo < hi <= |s| && !IsSpace(s[hi - 1])
    requires forall k :: lo <= k < hi ==> s[k] != '|'
    ensures forall e :: lo <= e < hi ==> !SeparatorAt(s, e, next)
  {
    forall e | lo <= e < hi ensures !SeparatorAt(s, e, next) {
      var b := SkipSpaces(s, e);
      assert b < hi;
    }
  }

  /** The lazy group ends at the first separator. */
  lemma LazyEndAt(s: string, from: nat, e: nat, next: string)
    requires from <= e <= |s| && SeparatorAt(s, e, next)
    requires forall k :: from <= k < e ==> !SeparatorAt(s, k, next)
    ensures LazyEnd(s, from, next) == Some(e)
  {
  }

  /** A slice without `|` has no `|` at any of its positions. */
  lemma NoPipeWithin(s: string, lo: nat, hi: nat)
    requires lo <= hi <= |s| && '|' !in s[lo..hi]
    ensures forall k :: lo <= k < hi ==> s[k] != '|'
  {
    forall k | lo <= k < hi ensures s[k] != '|' {
      assert s[k] == s[lo..hi][k - lo];
    }
  }

  /**
   * The lazy group started right after one space at `a`: it ends at the
   * first separator, which is `e` when `s[a + 1..e]` is a value with
   * non-space ends and no `|`, followed by ` | next`.
   */
  lemma GroupAfterOneSpace(s: string, a: nat, e: nat, next: string)
    requires a + 1 < e && e + 3 <= |s|
    requires s[a] == ' ' && !IsSpace(s[a + 1]) && !IsSpace(s[e - 1]) && '|' !in s[a + 1..e]
    requires s[e] == ' ' && s[e + 1] == '|' && s[e + 2] == ' '
    requires next != [] && !IsSpace(next[0]) && StartsWith(s[e + 3..], next)
    ensures GroupUpTo(s, a, SkipSpaces(s, a), next) == Some(s[a + 1..e])
  {
    OneSpace(s, a);
    SeparatorFound(s, e, next);
    NoPipeWithin(s, a + 1, e);
    NoSeparatorWithin(s, a + 1, e, next);
    LazyEndAt(s, a + 2, e, next);
    assert SkipSpaces(s, a) == a + 1;
    assert LazyEnd(s, a + 2, next) == Some(e);
  }

  /** Where the marker occurs, the lazy field is the group after it. */
  lemma MatchUpTo(s: string, p: nat, marker: string, next: string)
    requires p + |marker| <= |s| && StartsWith(s[p..], marker)
    ensures MatchAt(s, p, UpTo(marker, next))
            == GroupUpTo(s, p + |marker|, SkipSpaces(s, p + |marker|), next)
  {
  }

  /** The lazy field, on the concatenation the document writer produces. */
  lemma UpToCaptures(s: string, pre: string, marker: string, v: string, next: string, rest: string)
    requires s == pre + marker + " " + v + " | " + rest && StartsWith(rest, next)
    requires v != [] && IsStripped(v) && '|' !in v
    requires next != [] && !IsSpace(next[0])
    ensures MatchAt(s, |pre|, UpTo(marker, next)) == Some(v)
  {
    var p := |pre|;
    var a := p + |marker|;
    var e := a + 1 + |v|;
    assert s[p..] == marker + " " + v + " | " + rest;
    assert s[p..][..|marker|] == marker;
    assert s[a..] == " " + v + " | " + rest;
    assert s[a + 1..e] == v;
    assert s[e..] == " | " + rest;
    assert s[e + 3..] == rest;
    assert s[a] == ' ' && s[e] == ' ' && s[e + 1] == '|' && s[e + 2] == ' ';
    assert s[a + 1] == v[0] && s[e - 1] == v[|v| - 1];
    GroupAfterOneSpace(s, a, e, next);
    MatchUpTo(s, p, marker, next);
  }

  /** A whitespace run that stops before the end leaves the group's `strip()` unchanged. */
  lemma GroupAfterSpaces(s: string, a: nat, g: nat)
    requires a <= g <= |s| && forall k :: a <= k < g ==> IsSpace(s[k])
    ensures Strip(s[g..]) == Strip(s[a..])
  {
    assert s[a..] == s[a..g] + s[g..];
    assert AllSpace(s[a..g]);
    StripSkipsLeadingSpace(s[a..g], s[g..]);
  }

  /** A text that is whitespace from `a` on strips to empty from there. */
  lemma SpacesToEnd(s: string, a: nat)
    requires a <= |s| && forall k :: a <= k < |s| ==> IsSpace(s[k])
    ensures Strip(s[a..]) == []
  {
    assert AllSpace(s[a..]);
    StripAllSpace(s[a..]);
  }

  /** `\s*(.+)$` after position `a` matches, and its group strips like the rest of the text. */
  lemma GroupToEndStrips(s: string, a: nat)
    requires a < |s|
    ensures GroupToEnd(s, a, SkipSpaces(s, a)).Some?
    ensures Strip(GroupToEnd(s, a, SkipSpaces(s, a)).value) == Strip(s[a..])
  {
    var g := SkipSpaces(s, a);
    if g < |s| {
      GroupAfterSpaces(s, a, g);
    } else {
      var last := |s| - 1;
      assert GroupToEnd(s, a, g) == GroupToEnd(s, a, last);
      assert GroupToEnd(s, a, last) == Some(s[last..]);
      SpacesToEnd(s, last);
      SpacesToEnd(s, a);
    }
  }

  /** The last field, after `marker `, is captured up to the end and strips to `v` stripped. */
  lemma ToEndCaptures(s: string, pre: string, marker: string, v: string)
    requires s == pre + marker + " " + v
    ensures MatchAt(s, |pre|, ToEnd(marker)).Some?
    ensures Strip(MatchAt(s, |pre|, ToEnd(marker)).value) == Strip(v)
  {
    var p := |pre|;
    var a := p + |marker|;
    assert s[p..][..|marker|] == marker;
    assert s[a..] == " " + v;
    StripSkipsLeadingSpace(" ", v);
    GroupToEndStrips(s, a);
  }

  /** Regrouping the writer's concatenation around the marker. */
  lemma Regroup(s: string, pre: string, marker: string, v: string, rest: string)
    requires s == pre + marker + " " + v + " | " + rest
    ensures s == pre + (marker + " " + v + " | " + rest)
  {
  }

  lemma RegroupLast(s: string, pre: string, marker: string, v: string)
    requires s == pre + marker + " " + v
    ensures s == pre + (marker + " " + v)
  {
  }

  /**
   * A lazy field whose marker first occurs after `pre`, holding a value with
   * non-space ends and no `|`, is read back exactly.
   */
  lemma FieldFound(s: string, pre: string, marker: string, v: string, next: string, rest: string)
    requires s == pre + marker + " " + v + " | " + rest && StartsWith(rest, next)
    requires ' ' !in marker && !Contains(pre, marker) && (pre == [] || pre[|pre| - 1] == ' ')
    requires v != [] && IsStripped(v) && '|' !in v
    requires next != [] && !IsSpace(next[0])
    ensures Search(s, UpTo(marker, next)) == Some(v)
  {
    Regroup(s, pre, marker, v, rest);
    NoEarlierMarker(marker, pre, marker + " " + v + " | " + rest);
    UpToCaptures(s, pre, marker, v, next, rest);
    SearchStartsAt(s, |pre|, UpTo(marker, next));
  }

  /** The last field, whose marker first occurs after `pre`, is read back stripped. */
  lemma LastFieldFound(s: string, pre: string, marker: string, v: string)
    requires s == pre + marker + " " + v
    requires ' ' !in marker && !Contains(pre, marker) && (pre == [] || pre[|pre| - 1] == ' ')
    ensures Search(s, ToEnd(marker)).Some?
    ensures Strip(Search(s, ToEnd(marker)).value) == Strip(v)
  {
    RegroupLast(s, pre, marker, v);
    NoEarlierMarker(marker, pre, marker + " " + v);
    ToEndCaptures(s, pre, marker, v);
    SearchStartsAt(s, |pre|, ToEnd(marker));
  }
}
