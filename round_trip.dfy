/**
 * How the document writer of reindex_langchain.py and the reader
 * `parse_event_info` of mistrachat_langchain.py fit together: a document text
 * laid out as `Titre: … | Adresse: … | Date: … | URL: … | Description: …`
 * always yields a title and a description, and when the first four values
 * are clean it yields back exactly what was written.
 */
module DocumentRoundTrip {
  import opened Wrappers
  import opened Text
  import opened Reindex
  import opened EventInfo

  /** The four values written between markers, in the order of `Labels`. */
  function Values(f: EventFields): seq<string> {
    [f.title, f.address, f.date, f.url]
  }

  /** The document text before marker `n`. */
  function Prefix(f: EventFields, n: nat): (r: string)
    requires n <= 4
    ensures n == 0 ==> r == []
    ensures n > 0 ==> r != [] && r[|r| - 1] == ' '
  {
    if n == 0 then [] else Prefix(f, n - 1) + Labels[n - 1] + " " + Values(f)[n - 1] + " | "
  }

  /**
   * A value the reader gets back unchanged from between two markers:
   * non-empty, without surrounding whitespace and without `|`.
   */
  predicate Clean(v: string) {
    v != [] && IsStripped(v) && '|' !in v
  }

  /** Clean values, none holding a later marker (where the search would stop first). */
  predicate CleanFields(f: EventFields) {
    (forall j :: 0 <= j < 4 ==> Clean(Values(f)[j]))
    && forall j, n :: 0 <= j < n < 5 ==> !Contains(Values(f)[j], Labels[n])
  }

  // ---------------------------------------------------------------------------
  // The layout of a written document
  // ---------------------------------------------------------------------------

  lemma PrefixPieces(f: EventFields)
    ensures Prefix(f, 1) == "Titre: " + f.title + " | "
    ensures Prefix(f, 2) == Prefix(f, 1) + "Adresse: " + f.address + " | "
    ensures Prefix(f, 3) == Prefix(f, 2) + "Date: " + f.date + " | "
    ensures Prefix(f, 4) == Prefix(f, 3) + "URL: " + f.url + " | "
  {
  }

  /** A written document is its first four fields followed by the description's. */
  lemma WrittenText(f: EventFields)
    ensures EventText(f) == Prefix(f, 4) + "Description: " + f.description
  {
    PrefixPieces(f);
    var a := "Titre: " + f.title + " | ";
    var b := a + "Adresse: " + f.address + " | ";
    var c := b + "Date: " + f.date + " | ";
    var d := c + "URL: " + f.url + " | ";
    assert a + "Adresse: " == "Titre: " + f.title + " | Adresse: ";
    assert b + "Date: " == "Titre: " + f.title + " | Adresse: " + f.address + " | Date: ";
    assert c + "URL: " == "Titre: " + f.title + " | Adresse: " + f.address + " | Date: " + f.date + " | URL: ";
    assert d + "Description: " == "Titre: " + f.title + " | Adresse: " + f.address + " | Date: " + f.date
                                  + " | URL: " + f.url + " | Description: ";
  }

  /** The last marker of a written document follows the first four fields. */
  lemma LastMarkerWritten(f: EventFields)
    ensures StartsWith(EventText(f), Prefix(f, 4) + Labels[4])
  {
    var s := EventText(f);
    WrittenText(f);
    assert s == Prefix(f, 4) + Labels[4] + (" " + f.description);
    assert s[..|Prefix(f, 4) + Labels[4]|] == Prefix(f, 4) + Labels[4];
  }

  /** The text before marker `k + 1` starts with the text before marker `k` and marker `k`. */
  lemma PrefixStep(f: EventFields, k: nat)
    requires k < 4
    ensures StartsWith(Prefix(f, k + 1), Prefix(f, k) + Labels[k])
  {
    var p := Prefix(f, k + 1);
    var q := Prefix(f, k) + Labels[k];
    assert p == q + (" " + Values(f)[k] + " | ");
    assert p[..|q|] == q;
  }

  /** Each marker of a written document follows the fields before it. */
  lemma {:induction false} WrittenPrefix(f: EventFields, k: nat)
    requires k <= 4
    ensures StartsWith(EventText(f), Prefix(f, k) + Labels[k])
    decreases 4 - k
  {
    if k == 4 {
      LastMarkerWritten(f);
    } else {
      WrittenPrefix(f, k + 1);
      StartsWithLeft(EventText(f), Prefix(f, k + 1), Labels[k + 1]);
      PrefixStep(f, k);
      StartsWithTransitive(EventText(f), Prefix(f, k + 1), Prefix(f, k) + Labels[k]);
    }
  }

  /** A written document around field `n` (for the first four fields). */
  lemma FieldLayout(f: EventFields, n: nat) returns (rest: string)
    requires n < 4
    ensures EventText(f) == Prefix(f, n) + Labels[n] + " " + Values(f)[n] + " | " + rest
    ensures StartsWith(rest, Labels[n + 1])
  {
    var s := EventText(f);
    var p := Prefix(f, n + 1);
    WrittenPrefix(f, n + 1);
    StartsWithLeft(s, p, Labels[n + 1]);
    SplitAtPrefix(s, p);
    rest := s[|p|..];
    assert rest[..|Labels[n + 1]|] == s[..|p + Labels[n + 1]|][|p|..];
  }

  /** A marker has no spaces, at least four characters, and a non-space first character. */
  lemma MarkerShape(n: nat)
    requires n < 5
    ensures ' ' !in Labels[n] && |Labels[n]| > 3 && !IsSpace(Labels[n][0])
  {
  }

  /** No marker occurs inside an earlier one. */
  lemma MarkersDoNotNest(j: nat, n: nat)
    requires j < n < 5
    ensures !Contains(Labels[j], Labels[n])
  {
    if n == 4 && j >= 2 {
      AbsentByLength(Labels[j], Labels[n]);
    } else {
      AbsentByFirstChar(Labels[j], Labels[n]);
    }
  }

  /** Appending one `marker value | ` piece keeps a spaceless pattern absent. */
  lemma AbsentStep(m: string, prefix: string, marker: string, v: string)
    requires ' ' !in m && |m| > 3
    requires !Contains(prefix, m) && !Contains(marker, m) && !Contains(v, m)
    requires prefix == [] || prefix[|prefix| - 1] == ' '
    ensures !Contains(prefix + marker + " " + v + " | ", m)
  {
    var x := prefix + marker;
    if prefix == [] {
      assert x == marker;
    } else {
      AbsentAcrossSpace(m, prefix, marker);
    }
    AbsentByLength(" ", m);
    AbsentAcrossSpace(m, x, " ");
    AbsentAcrossSpace(m, x + " ", v);
    AbsentByLength(" | ", m);
    AbsentAcrossSpace(m, x + " " + v, " | ");
  }

  /** With clean values, marker `m` does not occur before its own place. */
  lemma {:induction false} PrefixAbsent(f: EventFields, n: nat, m: nat)
    requires n <= 4 && n <= m < 5 && CleanFields(f)
    ensures !Contains(Prefix(f, n), Labels[m])
    decreases n
  {
    MarkerShape(m);
    if n == 0 {
      AbsentByLength([], Labels[m]);
    } else {
      PrefixAbsent(f, n - 1, m);
      MarkersDoNotNest(n - 1, m);
      AbsentStep(Labels[m], Prefix(f, n - 1), Labels[n - 1], Values(f)[n - 1]);
    }
  }

  // ---------------------------------------------------------------------------
  // Every written document yields a title and a description
  // ---------------------------------------------------------------------------

  /** With a separator somewhere after the marker, the lazy field always matches. */
  lemma {:induction false} GroupUpToFinds(s: string, a: nat, g: nat, e: nat, next: string)
    requires a <= g <= |s| && a < e <= |s| && SeparatorAt(s, e, next)
    ensures GroupUpTo(s, a, g, next).Some?
    decreases g - a
  {
    var end := if g < |s| then LazyEnd(s, g + 1, next) else None;
    if end.None? {
      assert e <= g;
      GroupUpToFinds(s, a, g - 1, e, next);
      assert GroupUpTo(s, a, g, next) == GroupUpTo(s, a, g - 1, next);
    }
  }

  /** With at least one character after the marker, the field running to the end matches. */
  lemma {:induction false} GroupToEndFinds(s: string, a: nat, g: nat)
    requires a < |s| && a <= g <= |s|
    ensures GroupToEnd(s, a, g).Some?
    decreases g - a
  {
    if g == |s| {
      GroupToEndFinds(s, a, g - 1);
    }
  }

  /** The search for the last field succeeds once its marker occurs, not at the very end, at or after `p`. */
  lemma {:induction false} SearchToEndFinds(s: string, marker: string, p: nat, q: nat)
    requires p <= q && OccursAt(marker, s, q) && q + |marker| < |s|
    ensures SearchFrom(s, p, ToEnd(marker)).Some?
    decreases q - p
  {
    if MatchAt(s, p, ToEnd(marker)).None? {
      if p == q {
        StartsWithAt(s, q, marker);
        GroupToEndFinds(s, q + |marker|, SkipSpaces(s, q + |marker|));
      } else {
        SearchToEndFinds(s, marker, p + 1, q);
      }
    }
  }

  /** The title's lazy field matches on any `Titre: t | rest` with `rest` starting with the next marker. */
  lemma TitleMatches(s: string, t: string, rest: string)
    requires s == "Titre:" + " " + t + " | " + rest && StartsWith(rest, "Adresse:")
    ensures MatchAt(s, 0, UpTo("Titre:", "Adresse:")).Some?
  {
    var e := 7 + |t|;
    assert s[e..] == " | " + rest;
    assert s[e + 3..] == rest;
    SeparatorFound(s, e, "Adresse:");
    assert s[0..][..6] == "Titre:";
    GroupUpToFinds(s, 6, SkipSpaces(s, 6), e, "Adresse:");
  }

  /** Whatever the fields, the reader finds a title in a written document. */
  lemma TitleAlwaysParsed(f: EventFields)
    ensures "titre" in EventInfoOf(EventText(f))
  {
    var s := EventText(f);
    var rest := FieldLayout(f, 0);
    assert s == "Titre:" + " " + f.title + " | " + rest;
    TitleMatches(s, f.title, rest);
    ParsedEntries(s);
  }

  /** Whatever the fields, the reader finds a description in a written document. */
  lemma DescriptionAlwaysParsed(f: EventFields)
    ensures "description" in EventInfoOf(EventText(f))
  {
    var s := EventText(f);
    var pre := Prefix(f, 4);
    WrittenText(f);
    assert s[|pre|..|pre| + 12] == "Description:";
    SearchToEndFinds(s, "Description:", 0, |pre|);
    ParsedEntries(s);
  }

  // ---------------------------------------------------------------------------
  // Clean fields come back unchanged
  // ---------------------------------------------------------------------------

  /** Each of the first four values is read back exactly. */
  lemma FieldReadBack(f: EventFields, n: nat)
    requires n < 4 && CleanFields(f)
    ensures Search(EventText(f), UpTo(Labels[n], Labels[n + 1])) == Some(Values(f)[n])
  {
    var s := EventText(f);
    var rest := FieldLayout(f, n);
    MarkerShape(n);
    MarkerShape(n + 1);
    PrefixAbsent(f, n, n);
    FieldFound(s, Prefix(f, n), Labels[n], Values(f)[n], Labels[n + 1], rest);
  }

  /** The description is read back stripped. */
  lemma DescriptionReadBack(f: EventFields)
    requires CleanFields(f)
    ensures Search(EventText(f), ToEnd("Description:")).Some?
    ensures Strip(Search(EventText(f), ToEnd("Description:")).value) == Strip(f.description)
  {
    var s := EventText(f);
    WrittenText(f);
    assert s == Prefix(f, 4) + "Description:" + " " + f.description;
    MarkerShape(4);
    PrefixAbsent(f, 4, 4);
    LastFieldFound(s, Prefix(f, 4), "Description:", f.description);
  }

  /** The five entries the parsed dictionary holds, given what the five searches return. */
  lemma EntriesFromSearches(s: string, t: string, a: string, d: string, u: string, g: string)
    requires Search(s, UpTo("Titre:", "Adresse:")) == Some(t) && IsStripped(t)
    requires Search(s, UpTo("Adresse:", "Date:")) == Some(a) && IsStripped(a)
    requires Search(s, UpTo("Date:", "URL:")) == Some(d) && IsStripped(d)
    requires Search(s, UpTo("URL:", "Description:")) == Some(u) && IsStripped(u)
    requires Search(s, ToEnd("Description:")).Some? && Strip(Search(s, ToEnd("Description:")).value) == g
    ensures "titre" in EventInfoOf(s) && EventInfoOf(s)["titre"] == t
    ensures "adresse" in EventInfoOf(s) && EventInfoOf(s)["adresse"] == a
    ensures "date" in EventInfoOf(s) && EventInfoOf(s)["date"] == d
    ensures "url" in EventInfoOf(s) && EventInfoOf(s)["url"] == u
    ensures "description" in EventInfoOf(s) && EventInfoOf(s)["description"] == g
  {
    StrippedIsFixpoint(t);
    StrippedIsFixpoint(a);
    StrippedIsFixpoint(d);
    StrippedIsFixpoint(u);
    ParsedEntries(s);
  }

  /** A dictionary over the five keys is determined by its five entries. */
  lemma FiveEntries(info: map<string, string>, t: string, a: string, d: string, u: string, g: string)
    requires info.Keys <= Keys
    requires "titre" in info && info["titre"] == t
    requires "adresse" in info && info["adresse"] == a
    requires "date" in info && info["date"] == d
    requires "url" in info && info["url"] == u
    requires "description" in info && info["description"] == g
    ensures info == map["titre" := t, "adresse" := a, "date" := d, "url" := u, "description" := g]
  {
  }

  /**
   * Reading a written document back: with clean values, `parse_event_info`
   * returns the five fields that were written, the description stripped.
   */
  lemma ParseWrittenDocument(f: EventFields)
    requires CleanFields(f)
    ensures EventInfoOf(EventText(f)) == map[
              "titre" := f.title, "adresse" := f.address, "date" := f.date,
              "url" := f.url, "description" := Strip(f.description)]
  {
    FieldReadBack(f, 0);
    FieldReadBack(f, 1);
    FieldReadBack(f, 2);
    FieldReadBack(f, 3);
    DescriptionReadBack(f);
    assert Values(f)[0] == f.title && Values(f)[1] == f.address;
    assert Values(f)[2] == f.date && Values(f)[3] == f.url;
    var s := EventText(f);
    EntriesFromSearches(s, f.title, f.address, f.date, f.url, Strip(f.description));
    FiveEntries(EventInfoOf(s), f.title, f.address, f.date, f.url, Strip(f.description));
  }
}
