/**
 * Record normalisation of Exxtraction.py: HTML tags are stripped from the
 * description, each open-data record is projected onto a fixed ten-column
 * schema, and a pipe-separated `text_for_rag` column is added.
 *
 * A record is modelled by its `fields` entry (absent or a string-valued
 * dictionary); the other entries of an API record are never read.
 */
module Extraction {
  import opened Wrappers
  import opened Text

  /** An API record: `None` when it has no "fields" entry. */
  datatype Event = Event(fields: Option<map<string, string>>)

  type Row = map<string, string>

  /** The ten columns `extract_fields` produces, in the source's order. */
  const SchemaKeys: seq<string> := [
    "uid", "title_fr", "description_fr", "location_city", "location_name",
    "location_address", "firstdate_begin", "firstdate_end", "daterange_fr", "canonicalurl"
  ]

  const TextForRagKey: string := "text_for_rag"

  // ---------------------------------------------------------------------------
  // clean_field: re.sub(r"<[^>]+>", "", html)
  // ---------------------------------------------------------------------------

  /** The first index `j >= from` holding `c`, if any. */
  function FindFrom(s: string, c: char, from: nat): (r: Option<nat>)
    ensures r.Some? ==> from <= r.value < |s| && s[r.value] == c
                        && forall k :: from <= k < r.value ==> s[k] != c
    ensures r.None? ==> forall k :: from <= k < |s| ==> s[k] != c
    decreases |s| - from
  {
    if from >= |s| then None
    else if s[from] == c then Some(from)
    else FindFrom(s, c, from + 1)
  }

  /** `<`, one or more characters other than `>`, then `>`, spanning s[i..j+1]. */
  predicate TagSpan(s: string, i: int, j: int) {
    0 <= i && i + 2 <= j < |s| && s[i] == '<' && s[j] == '>'
    && forall k :: i < k < j ==> s[k] != '>'
  }

  ghost predicate HasTag(s: string) {
    exists i, j :: TagSpan(s, i, j)
  }

  /**
   * Where the tag that `<[^>]+>` matches at the start of `s` ends. The greedy
   * `[^>]+` runs to the first `>`, so a match exists exactly when that `>`
   * is not right after the `<`.
   */
  function TagEndAtStart(s: string): (r: Option<nat>)
    ensures r.Some? ==> TagSpan(s, 0, r.value)
    ensures r.None? && s != [] && s[0] == '<'
            ==> (|s| > 1 && s[1] == '>') || forall k :: 1 <= k < |s| ==> s[k] != '>'
  {
    if s == [] || s[0] != '<' then None
    else match FindFrom(s, '>', 1)
      case Some(j) => if j >= 2 then Some(j) else None
      case None => None
  }

  /** The left-to-right scan of `re.sub`: each match is deleted, other characters kept. */
  function StripTags(s: string): (r: string)
    ensures |r| <= |s|
    decreases |s|
  {
    if s == [] then []
    else match TagEndAtStart(s)
      case Some(j) => StripTags(s[j + 1..])
      case None => [s[0]] + StripTags(s[1..])
  }

  /** `clean_field`: an absent (`None`) or empty value gives "", otherwise its tags are removed. */
  function CleanField(html: Option<string>): (r: string)
    ensures html.None? || html.value == [] ==> r == []
    ensures html.Some? ==> IsSubsequence(r, html.value)
    ensures !HasTag(r)
  {
    if html.None? || html.value == [] then []
    else
      StripTagsIsSubsequence(html.value);
      StripTagsLeavesNoTag(html.value);
      StripTags(html.value)
  }

  /** Tag removal only deletes characters. */
  lemma {:induction false} StripTagsIsSubsequence(s: string)
    ensures IsSubsequence(StripTags(s), s)
    decreases |s|
  {
    if s != [] {
      match TagEndAtStart(s)
      case Some(j) =>
        StripTagsIsSubsequence(s[j + 1..]);
        DropPrefixSubsequence(StripTags(s[j + 1..]), s, j + 1);
      case None =>
        StripTagsIsSubsequence(s[1..]);
        assert ([s[0]] + StripTags(s[1..]))[1..] == StripTags(s[1..]);
    }
  }

  /** The output of `clean_field` contains no `<[^>]+>` at all. */
  lemma {:induction false} StripTagsLeavesNoTag(s: string)
    ensures !HasTag(StripTags(s))
    decreases |s|
  {
    if s != [] {
      match TagEndAtStart(s)
      case Some(j) =>
        StripTagsLeavesNoTag(s[j + 1..]);
      case None =>
        var rest := StripTags(s[1..]);
        var r := [s[0]] + rest;
        StripTagsLeavesNoTag(s[1..]);
        StripTagsIsSubsequence(s[1..]);
        SubsequenceMembers(rest, s[1..]);
        forall i, j ensures !TagSpan(r, i, j) {
          if 1 <= i && i + 2 <= j < |r| && r[i] == '<' && r[j] == '>' {
            assert r[i] == rest[i - 1] && r[j] == rest[j - 1];
            assert !TagSpan(rest, i - 1, j - 1);
            var k :| i - 1 < k < j - 1 && rest[k] == '>';
            assert r[k + 1] == '>';
          } else if i == 0 && s[0] == '<' && 2 <= j < |r| {
            if |s| > 1 && s[1] == '>' {
              StripTagsKeepsHead(s[1..]);
              assert r[1] == '>';
            } else {
              assert r[j] in rest;
              assert r[j] != '>';
            }
          }
        }
    }
  }

  /** A first character that opens no tag is kept in front. */
  lemma StripTagsKeepsHead(s: string)
    requires s != [] && s[0] != '<'
    ensures StripTags(s) != [] && StripTags(s)[0] == s[0]
  {
  }

  /** Tag removal changes a string with no tag not at all (or else it had one). */
  lemma {:induction false} StripTagsFixpoint(s: string)
    ensures StripTags(s) == s || HasTag(s)
    decreases |s|
  {
    if s != [] {
      match TagEndAtStart(s)
      case Some(j) =>
        assert TagSpan(s, 0, j);
      case None =>
        StripTagsFixpoint(s[1..]);
        if HasTag(s[1..]) {
          var i, j :| TagSpan(s[1..], i, j);
          assert TagSpan(s, i + 1, j + 1);
        } else {
          assert [s[0]] + s[1..] == s;
        }
    }
  }

  /** `clean_field` is idempotent. */
  lemma CleanFieldIdempotent(html: Option<string>)
    ensures CleanField(Some(CleanField(html))) == CleanField(html)
  {
    var once := CleanField(html);
    StripTagsFixpoint(once);
  }

  /** A value with no `<` comes out of `clean_field` unchanged. */
  lemma CleanFieldWithoutAngle(html: string)
    requires '<' !in html
    ensures CleanField(Some(html)) == html
  {
    forall i, j ensures !TagSpan(html, i, j) {
      if 0 <= i < |html| {
        assert html[i] != '<';
      }
    }
    StripTagsFixpoint(html);
  }

  // ---------------------------------------------------------------------------
  // extract_fields and text_for_rag
  // ---------------------------------------------------------------------------

  /** `f.get(key, "")`. */
  function FieldOr(f: map<string, string>, key: string): string {
    if key in f then f[key] else ""
  }

  /** The value `extract_fields` stores under schema column `key`. */
  function Column(f: map<string, string>, key: string): string {
    if key == "description_fr" then CleanField(Some(FieldOr(f, key))) else FieldOr(f, key)
  }

  /**
   * `extract_fields`: the record projected onto the ten schema columns. The
   * row has exactly those columns; the description is cleaned and the other
   * nine are copied, "" when the record lacks them.
   */
  function ExtractFields(event: Event): (row: Row)
    ensures forall k :: k in row <==> k in SchemaKeys
    ensures forall k :: k in SchemaKeys && k != "description_fr"
              ==> row[k] == FieldOr(event.fields.GetOr(map[]), k)
    ensures "description_fr" in row
    ensures row["description_fr"] == CleanField(Some(FieldOr(event.fields.GetOr(map[]), "description_fr")))
  {
    var f := event.fields.GetOr(map[]);
    assert SchemaKeys[2] == "description_fr";
    map k | k in SchemaKeys :: Column(f, k)
  }

  /** A record without "fields" gives the ten columns, all empty. */
  lemma NoFieldsGivesEmptyRow(event: Event)
    requires event.fields.None?
    ensures forall k :: k in SchemaKeys ==> k in ExtractFields(event) && ExtractFields(event)[k] == ""
  {
  }

  /** Extracting an already extracted row (as a record's fields) gives it back. */
  lemma ExtractFieldsIdempotent(event: Event)
    ensures ExtractFields(Event(Some(ExtractFields(event)))) == ExtractFields(event)
  {
    var row := ExtractFields(event);
    var again := ExtractFields(Event(Some(row)));
    CleanFieldIdempotent(Some(FieldOr(event.fields.GetOr(map[]), "description_fr")));
    assert again.Keys == row.Keys;
    forall k | k in row ensures again[k] == row[k] {
      assert k in SchemaKeys;
    }
  }

  /** The five columns `text_for_rag` reads. */
  predicate HasTextColumns(row: Row) {
    "title_fr" in row && "description_fr" in row && "location_address" in row
    && "canonicalurl" in row && "daterange_fr" in row
  }

  /** The `text_for_rag` string built in the extraction loop. */
  function TextForRag(row: Row): (text: string)
    requires HasTextColumns(row)
    ensures text == Join(" | ", [row["title_fr"], row["description_fr"], row["location_address"],
                                 row["canonicalurl"], row["daterange_fr"]])
    ensures '|' in text
  {
    var text := row["title_fr"] + " | " + row["description_fr"] + " | " + row["location_address"]
                + " | " + row["canonicalurl"] + " | " + row["daterange_fr"];
    assert text[|row["title_fr"]| + 1] == '|';
    JoinFive(" | ", row["title_fr"], row["description_fr"], row["location_address"],
             row["canonicalurl"], row["daterange_fr"]);
    text
  }

  /** One row of the output table: the extracted columns plus `text_for_rag`. */
  function OutputRow(event: Event): Row {
    var row := ExtractFields(event);
    ExtractedHasSchema(event);
    row[TextForRagKey := TextForRag(row)]
  }

  /**
   * An output row has the ten extracted columns, unchanged, plus a
   * `text_for_rag` column holding a `|`.
   */
  lemma OutputRowColumns(event: Event)
    ensures forall k :: k in OutputRow(event) <==> k in SchemaKeys || k == TextForRagKey
    ensures forall k :: k in SchemaKeys ==> OutputRow(event)[k] == ExtractFields(event)[k]
    ensures TextForRagKey in OutputRow(event) && '|' in OutputRow(event)[TextForRagKey]
  {
    ExtractedHasSchema(event);
  }

  /** The output table for `events`: one row per record, in order. */
  function OutputRows(events: seq<Event>): seq<Row> {
    seq(|events|, i requires 0 <= i < |events| => OutputRow(events[i]))
  }

  /** The `__main__` loop: one output row per fetched record, in order. */
  method ExtractAll(events: seq<Event>) returns (extracted: seq<Row>)
    ensures |extracted| == |events|
    ensures forall i :: 0 <= i < |events| ==> extracted[i] == OutputRow(events[i])
  {
    extracted := [];
    var n := 0;
    while n < |events|
      invariant 0 <= n <= |events|
      invariant extracted == OutputRows(events[..n])
    {
      var row := ExtractFields(events[n]);
      ExtractedHasSchema(events[n]);
      row := row[TextForRagKey := TextForRag(row)];
      OutputRowsSnoc(events, n);
      extracted := extracted + [row];
      n := n + 1;
    }
    assert events[..n] == events;
  }

  /** One more record adds its output row at the end of the table. */
  lemma OutputRowsSnoc(events: seq<Event>, n: nat)
    requires n < |events|
    ensures OutputRows(events[..n + 1]) == OutputRows(events[..n]) + [OutputRow(events[n])]
  {
  }

  /** The five columns `text_for_rag` reads are present in an extracted row. */
  lemma ExtractedHasSchema(event: Event)
    ensures HasTextColumns(ExtractFields(event))
  {
    assert SchemaKeys[1] == "title_fr" && SchemaKeys[2] == "description_fr";
    assert SchemaKeys[5] == "location_address" && SchemaKeys[9] == "canonicalurl";
    assert SchemaKeys[8] == "daterange_fr";
  }
}
