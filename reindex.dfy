/**
 * Document construction of reindex_langchain.py: each row of the events
 * table becomes one retrievable document whose text lays the event out as
 * `Titre: … | Adresse: … | Date: … | URL: … | Description: …`.
 *
 * A row is the dictionary of its cells; reading the table from disk and
 * pandas' conversion of empty cells are outside the model.
 */
module Reindex {
  import opened Text

  type Row = map<string, string>

  /** A LangChain `Document`: its text and its metadata dictionary. */
  datatype Document = Document(pageContent: string, metadata: map<string, string>)

  /** The five values written into a document, after the column fallbacks. */
  datatype EventFields = EventFields(title: string, address: string, date: string, url: string, description: string)

  const SourceFile: string := "montpellier_2025.csv"
  const DefaultCity: string := "Montpellier"

  /** The metadata every document carries. */
  const SourceMetadata: map<string, string> := map["source" := SourceFile]

  /** `row.get(key, default)`. */
  function Get(row: Row, key: string, default: string): string {
    if key in row then row[key] else default
  }

  /** The per-column fallbacks of the loop body. */
  function RowFields(row: Row): (f: EventFields)
    ensures "title_fr" in row ==> f.title == row["title_fr"]
    ensures "title_fr" !in row ==> f.title == Get(row, "title", "")
    ensures "location_address" in row ==> f.address == row["location_address"]
    ensures "location_address" !in row ==> f.address == Get(row, "location_city", "Montpellier")
    ensures "daterange_fr" in row ==> f.date == row["daterange_fr"]
    ensures "daterange_fr" !in row ==> f.date == Get(row, "firstdate_begin", "")
    ensures f.url == Get(row, "canonicalurl", "")
    ensures "description_fr" in row ==> f.description == row["description_fr"]
    ensures "description_fr" !in row ==> f.description == Get(row, "description", "")
  {
    EventFields(
      Get(row, "title_fr", Get(row, "title", "")),
      Get(row, "location_address", Get(row, "location_city", DefaultCity)),
      Get(row, "daterange_fr", Get(row, "firstdate_begin", "")),
      Get(row, "canonicalurl", ""),
      Get(row, "description_fr", Get(row, "description", "")))
  }

  /** The document text: five labelled fields separated by " | ". */
  function EventText(f: EventFields): (text: string)
    ensures StartsWith(text, "Titre: ")
    ensures |text| == 52 + |f.title| + |f.address| + |f.date| + |f.url| + |f.description|
  {
    var text := "Titre: " + f.title + " | Adresse: " + f.address + " | Date: " + f.date
                + " | URL: " + f.url + " | Description: " + f.description;
    assert text[..7] == "Titre: ";
    text
  }

  /** A document text is never blank, so the `if text.strip()` guard always passes. */
  lemma EventTextNotBlank(f: EventFields)
    ensures Strip(EventText(f)) != []
  {
    var text := EventText(f);
    assert text[0] == 'T';
    var _ := StripRetainsInterior(text, 0, 1);
  }

  /** The loop over the table's rows, appending one document per non-blank text. */
  method BuildDocuments(rows: seq<Row>) returns (docs: seq<Document>)
    ensures |docs| == |rows|
    ensures forall i :: 0 <= i < |rows| ==>
              docs[i] == Document(EventText(RowFields(rows[i])), SourceMetadata)
    ensures forall i :: 0 <= i < |rows| ==> docs[i].metadata == map["source" := "montpellier_2025.csv"]
  {
    docs := [];
    var n := 0;
    while n < |rows|
      invariant 0 <= n <= |rows|
      invariant |docs| == n
      invariant forall i :: 0 <= i < n ==> docs[i] == Document(EventText(RowFields(rows[i])), SourceMetadata)
    {
      var row := rows[n];
      var title := Get(row, "title_fr", Get(row, "title", ""));
      var address := Get(row, "location_address", Get(row, "location_city", DefaultCity));
      var date := Get(row, "daterange_fr", Get(row, "firstdate_begin", ""));
      var url := Get(row, "canonicalurl", "");
      var desc := Get(row, "description_fr", Get(row, "description", ""));
      var text := EventText(EventFields(title, address, date, url, desc));
      EventTextNotBlank(EventFields(title, address, date, url, desc));
      if Strip(text) != [] {
        docs := docs + [Document(text, SourceMetadata)];
      }
      n := n + 1;
    }
  }
}
