/**
 * The indexing side and the answering side together: the documents written
 * by reindex_langchain.py, once retrieved, are listed by
 * `format_events_list` of mistrachat_langchain.py with the values that were
 * written into them.
 */
module EventPipeline {
  import opened Wrappers
  import opened Text
  import opened Reindex
  import opened EventInfo
  import opened DocumentRoundTrip
  import opened Chat

  /** The bullet an event with these fields is expected to get, written out in full. */
  function ExpectedBullet(f: EventFields): string {
    "- **" + f.title + "**\n"
    + "  - **Lieu** : " + f.address + "\n"
    + "  - **Date** : " + f.date + "\n"
    + "  \n"
    + "  Pour plus d'informations : " + f.url
  }

  /** The bullet of a dictionary holding the title, address, date and URL of `f`. */
  lemma BulletOfEntries(info: map<string, string>, f: EventFields)
    requires "titre" in info && info["titre"] == f.title && f.title != []
    requires "adresse" in info && info["adresse"] == f.address
    requires "date" in info && info["date"] == f.date
    requires "url" in info && info["url"] == f.url
    ensures Listed(info) && Bullet(info) == ExpectedBullet(f)
  {
    assert TitleLine(info) == "- **" + f.title + "**\n";
    assert PlaceLine(info) == "  - **Lieu** : " + f.address + "\n";
    assert DateLine(info) == "  - **Date** : " + f.date + "\n";
    assert LinkLine(info) == "  Pour plus d'informations : " + f.url;
  }

  /**
   * A written document with clean values is listed, and its bullet shows the
   * title, address, date and URL that were written (none of them "N/A").
   */
  lemma WrittenDocumentBullet(f: EventFields)
    requires CleanFields(f)
    ensures Listed(EventInfoOf(EventText(f)))
    ensures Bullet(EventInfoOf(EventText(f))) == ExpectedBullet(f)
  {
    ParseWrittenDocument(f);
    assert Clean(Values(f)[0]);
    BulletOfEntries(EventInfoOf(EventText(f)), f);
  }

  /** The bullets expected for the written fields, one per document, in order. */
  function ExpectedBullets(fs: seq<EventFields>): seq<string> {
    seq(|fs|, i requires 0 <= i < |fs| => ExpectedBullet(fs[i]))
  }

  /** Each document written from clean fields parses to the bullet of those fields. */
  lemma WrittenInfosListed(fs: seq<EventFields>, docs: seq<Document>)
    requires WrittenFrom(fs, docs)
    ensures forall i :: 0 <= i < |fs| ==>
              Listed(ParsedInfos(docs)[i]) && Bullet(ParsedInfos(docs)[i]) == ExpectedBullets(fs)[i]
  {
    forall k | 0 <= k < |fs|
      ensures Listed(ParsedInfos(docs)[k]) && Bullet(ParsedInfos(docs)[k]) == ExpectedBullets(fs)[k]
    {
      ParsedInfosAt(docs, k);
      WrittenDocumentBullet(fs[k]);
    }
  }

  /** Document `i` holds the text written from the clean fields `fs[i]`. */
  predicate WrittenFrom(fs: seq<EventFields>, docs: seq<Document>) {
    |docs| == |fs|
    && forall i :: 0 <= i < |fs| ==> docs[i].pageContent == EventText(fs[i]) && CleanFields(fs[i])
  }

  /** The fields the row loop of reindex_langchain.py writes for each row, in order. */
  function RowsFields(rows: seq<Row>): seq<EventFields> {
    seq(|rows|, i requires 0 <= i < |rows| => RowFields(rows[i]))
  }

  /**
   * Indexed rows whose values are clean come back from `format_events_list`
   * as one bullet per document, in row order, each with its row's values.
   */
  lemma IndexedRowsListed(rows: seq<Row>, docs: seq<Document>)
    requires |docs| == |rows|
    requires forall i :: 0 <= i < |rows| ==> docs[i] == Document(EventText(RowFields(rows[i])), SourceMetadata)
    requires forall i :: 0 <= i < |rows| ==> CleanFields(RowFields(rows[i]))
    ensures Bullets(ParsedInfos(docs)) == ExpectedBullets(RowsFields(rows))
  {
    var fs := RowsFields(rows);
    assert WrittenFrom(fs, docs);
    WrittenInfosListed(fs, docs);
    BulletsAllListed(ParsedInfos(docs), ExpectedBullets(fs));
  }
}
