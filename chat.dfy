/**
 * The answering path of mistrachat_langchain.py: retrieved documents are
 * turned into a bullet list of events, placed in a fixed prompt template,
 * and a question goes through that template only when the retrieval gate
 * asks for retrieval.
 *
 * The vector store is an oracle: for a question it ranks the indexed
 * documents, and `similarity_search(question, k)` returns the first `k`.
 */
module Chat {
  import opened Wrappers
  import opened Text
  import opened Reindex
  import opened EventInfo
  import opened QueryClassifier

  const NotAvailable: string := "N/A"

  /** Number of documents fetched per question (`k=3`). */
  const TopK: nat := 3

  // ---------------------------------------------------------------------------
  // format_events_list
  // ---------------------------------------------------------------------------

  /** `info.get(key, 'N/A')`. */
  function Shown(info: map<string, string>, key: string): string {
    if key in info then info[key] else NotAvailable
  }

  /** The five lines of one event's bullet, as laid out by the f-string of the loop body. */
  function TitleLine(info: map<string, string>): string {
    "- **" + Shown(info, "titre") + "**\n"
  }

  function PlaceLine(info: map<string, string>): string {
    "  - **Lieu** : " + Shown(info, "adresse") + "\n"
  }

  function DateLine(info: map<string, string>): string {
    "  - **Date** : " + Shown(info, "date") + "\n"
  }

  const BlankLine: string := "  \n"

  function LinkLine(info: map<string, string>): string {
    "  Pour plus d'informations : " + Shown(info, "url")
  }

  function Bullet(info: map<string, string>): string {
    TitleLine(info) + PlaceLine(info) + DateLine(info) + BlankLine + LinkLine(info)
  }

  /** A bullet starts with "- **" followed by the title. */
  lemma BulletShowsTitle(info: map<string, string>)
    ensures StartsWith(Bullet(info), "- **")
    ensures OccursAt(Shown(info, "titre"), Bullet(info), 4)
  {
    var t := Shown(info, "titre");
    var x1 := TitleLine(info);
    var x2 := x1 + PlaceLine(info);
    var x3 := x2 + DateLine(info);
    var x4 := x3 + BlankLine;
    assert x1[0..4] == "- **" && x1[4..4 + |t|] == t;
    OccursInConcat("- **", x1, PlaceLine(info), 0);
    OccursInConcat(t, x1, PlaceLine(info), 4);
    OccursInConcat("- **", x2, DateLine(info), 0);
    OccursInConcat(t, x2, DateLine(info), 4);
    OccursInConcat("- **", x3, BlankLine, 0);
    OccursInConcat(t, x3, BlankLine, 4);
    OccursInConcat("- **", x4, LinkLine(info), 0);
    OccursInConcat(t, x4, LinkLine(info), 4);
    StartsWithAt(Bullet(info), 0, "- **");
  }

  /** A bullet ends with the link, the URL last. */
  lemma BulletEndsWithLink(info: map<string, string>)
    ensures |Shown(info, "url")| <= |Bullet(info)|
    ensures Bullet(info)[|Bullet(info)| - |Shown(info, "url")|..] == Shown(info, "url")
  {
    var u := Shown(info, "url");
    var link := LinkLine(info);
    var head := TitleLine(info) + PlaceLine(info) + DateLine(info) + BlankLine;
    assert Bullet(info) == head + link;
    assert (head + link)[|head + link| - |u|..] == link[|link| - |u|..] == u;
  }

  /** `if info.get('titre')`: a title that is present and non-empty. */
  predicate Listed(info: map<string, string>) {
    "titre" in info && info["titre"] != []
  }

  /** The bullets a parsed document adds to the list: none without a title. */
  function BulletList(info: map<string, string>): (r: seq<string>)
    ensures |r| <= 1
    ensures r != [] <==> "titre" in info && info["titre"] != []
  {
    if Listed(info) then [Bullet(info)] else []
  }

  /** What `parse_event_info` returns for each document, in order. */
  function ParsedInfos(docs: seq<Document>): (infos: seq<map<string, string>>)
    ensures |infos| == |docs|
  {
    if docs == [] then [] else ParsedInfos(docs[..|docs| - 1]) + [EventInfoOf(docs[|docs| - 1].pageContent)]
  }

  /** Entry `i` is the dictionary parsed from document `i`. */
  lemma {:induction false} ParsedInfosAt(docs: seq<Document>, i: nat)
    requires i < |docs|
    ensures ParsedInfos(docs)[i] == EventInfoOf(docs[i].pageContent)
    decreases |docs|
  {
    var n := |docs| - 1;
    if i < n {
      ParsedInfosAt(docs[..n], i);
    }
  }

  /** The bullets of the parsed documents, in order, skipping those without a title. */
  function Bullets(infos: seq<map<string, string>>): (r: seq<string>)
    ensures |r| <= |infos|
    decreases |infos|
  {
    if infos == [] then []
    else
      Bullets(infos[..|infos| - 1]) + BulletList(infos[|infos| - 1])
  }

  /** What `format_events_list` returns: the bullets joined by a blank line, each of them shown. */
  function EventsList(docs: seq<Document>): (r: string)
    ensures docs == [] ==> r == []
    ensures forall i :: 0 <= i < |Bullets(ParsedInfos(docs))| ==> Contains(r, Bullets(ParsedInfos(docs))[i])
  {
    JoinShowsAll("\n\n", Bullets(ParsedInfos(docs)));
    Join("\n\n", Bullets(ParsedInfos(docs)))
  }

  /** `format_events_list`: the loop parsing each document and appending its bullet. */
  method FormatEventsList(docs: seq<Document>) returns (formatted: string)
    ensures formatted == EventsList(docs)
    ensures docs == [] ==> formatted == []
  {
    var eventsList: seq<string> := [];
    var i := 0;
    while i < |docs|
      invariant 0 <= i <= |docs|
      invariant eventsList == Bullets(ParsedInfos(docs[..i]))
    {
      var info := ParseEventInfo(docs[i].pageContent);
      assert docs[..i + 1][..i] == docs[..i];
      BulletsSnoc(ParsedInfos(docs[..i]), info);
      if "titre" in info && info["titre"] != [] {
        eventsList := eventsList + [Bullet(info)];
      }
      i := i + 1;
    }
    assert docs[..|docs|] == docs;
    formatted := Join("\n\n", eventsList);
  }

  /** Appending a parsed document appends its bullet, if it has a title. */
  lemma BulletsSnoc(init: seq<map<string, string>>, info: map<string, string>)
    ensures Bullets(init + [info]) == Bullets(init) + BulletList(info)
  {
    assert (init + [info])[..|init|] == init;
  }

  /** The bullets of two lists of documents, one after the other. */
  lemma {:induction false} BulletsAppend(a: seq<map<string, string>>, b: seq<map<string, string>>)
    ensures Bullets(a + b) == Bullets(a) + Bullets(b)
    decreases |b|
  {
    if b == [] {
      assert a + b == a;
    } else {
      var last := b[|b| - 1];
      var init := b[..|b| - 1];
      assert a + b == (a + init) + [last];
      assert b == init + [last];
      BulletsAppend(a, init);
      BulletsSnoc(a + init, last);
      BulletsSnoc(init, last);
    }
  }

  /** When every document has a title, the list holds their bullets, one per document, in order. */
  lemma {:induction false} BulletsAllListed(infos: seq<map<string, string>>, bullets: seq<string>)
    requires |bullets| == |infos|
    requires forall i :: 0 <= i < |infos| ==> Listed(infos[i]) && Bullet(infos[i]) == bullets[i]
    ensures Bullets(infos) == bullets
    decreases |infos|
  {
    if infos != [] {
      var n := |infos| - 1;
      assert infos == infos[..n] + [infos[n]];
      assert bullets == bullets[..n] + [bullets[n]];
      BulletsAllListed(infos[..n], bullets[..n]);
      BulletsSnoc(infos[..n], infos[n]);
    }
  }

  /** Documents without a title contribute nothing: the list is then empty. */
  lemma {:induction false} BulletsNoneListed(infos: seq<map<string, string>>)
    requires forall i :: 0 <= i < |infos| ==> !Listed(infos[i])
    ensures Bullets(infos) == []
    ensures Join("\n\n", Bullets(infos)) == []
    decreases |infos|
  {
    if infos != [] {
      var init := infos[..|infos| - 1];
      var last := infos[|infos| - 1];
      assert infos == init + [last];
      BulletsNoneListed(init);
      BulletsSnoc(init, last);
    }
  }

  /** An occurrence survives appending text on the right. */
  lemma OccursExtended(pat: string, x: string, i: int, y: string)
    requires OccursAt(pat, x, i)
    ensures OccursAt(pat, x + y, i)
  {
    OccursInConcat(pat, x, y, i);
  }

  /** A missing address is rendered as "N/A" on the place line. */
  lemma MissingPlaceShown(info: map<string, string>)
    requires "adresse" !in info
    ensures Contains(Bullet(info), "  - **Lieu** : N/A\n")
  {
    var t := TitleLine(info);
    var p := PlaceLine(info);
    assert p == "  - **Lieu** : N/A\n";
    OccursInConcat(p, t, p, 0);
    OccursExtended(p, t + p, |t|, DateLine(info));
    OccursExtended(p, t + p + DateLine(info), |t|, BlankLine);
    OccursExtended(p, t + p + DateLine(info) + BlankLine, |t|, LinkLine(info));
  }

  /** A missing date is rendered as "N/A" on the date line. */
  lemma MissingDateShown(info: map<string, string>)
    requires "date" !in info
    ensures Contains(Bullet(info), "  - **Date** : N/A\n")
  {
    var x := TitleLine(info) + PlaceLine(info);
    var d := DateLine(info);
    assert d == "  - **Date** : N/A\n";
    OccursInConcat(d, x, d, 0);
    OccursExtended(d, x + d, |x|, BlankLine);
    OccursExtended(d, x + d + BlankLine, |x|, LinkLine(info));
  }

  /** A missing URL is rendered as "N/A" on the last line. */
  lemma MissingUrlShown(info: map<string, string>)
    requires "url" !in info
    ensures Contains(Bullet(info), "  Pour plus d'informations : N/A")
  {
    var x := TitleLine(info) + PlaceLine(info) + DateLine(info) + BlankLine;
    var l := LinkLine(info);
    assert l == "  Pour plus d'informations : N/A";
    OccursInConcat(l, x, l, 0);
  }

  // ---------------------------------------------------------------------------
  // build_rag_prompt
  // ---------------------------------------------------------------------------

  const PromptHeader: string :=
    "Expert événements Montpellier.\n\nUtilise UNIQUEMENT ces informations structurées pour répondre.\n\nÉVÉNEMENTS TROUVÉS :\n"
  const QuestionHeader: string := "\n\nQUESTION: "
  const AnswerHeader: string := "\n\nRÉPONSE (format naturel, liste les événements trouvés avec leurs détails) :"

  /**
   * The prompt template: the events block comes right after the header and
   * the question, verbatim, after it.
   */
  function RagPrompt(question: string, events: string): (r: string)
    ensures StartsWith(r, PromptHeader)
    ensures OccursAt(events, r, |PromptHeader|)
    ensures OccursAt(question, r, |PromptHeader| + |events| + |QuestionHeader|)
  {
    var r := PromptHeader + events + QuestionHeader + question + AnswerHeader;
    var i := |PromptHeader|;
    var j := i + |events| + |QuestionHeader|;
    assert r[..i] == PromptHeader;
    assert r[i..i + |events|] == events;
    assert r[j..j + |question|] == question;
    r
  }

  /** `build_rag_prompt`: the template around the formatted events. */
  function BuildRagPrompt(question: string, docs: seq<Document>): (r: string)
    ensures StartsWith(r, PromptHeader)
    ensures OccursAt(EventsList(docs), r, |PromptHeader|)
    ensures OccursAt(question, r, |PromptHeader| + |EventsList(docs)| + |QuestionHeader|)
  {
    RagPrompt(question, EventsList(docs))
  }

  /** The events block and the question both appear verbatim, the events first. */
  lemma PromptOrder(question: string, docs: seq<Document>)
    ensures exists i, j :: OccursAt(EventsList(docs), BuildRagPrompt(question, docs), i)
                           && OccursAt(question, BuildRagPrompt(question, docs), j)
                           && i + |EventsList(docs)| <= j
  {
    var i := |PromptHeader|;
    var j := i + |EventsList(docs)| + |QuestionHeader|;
    assert OccursAt(EventsList(docs), BuildRagPrompt(question, docs), i);
    assert OccursAt(question, BuildRagPrompt(question, docs), j);
  }

  // ---------------------------------------------------------------------------
  // Routing of one question (lines 117-121)
  // ---------------------------------------------------------------------------

  /** `vectorstore.similarity_search(prompt, k)`: the first `k` documents of the ranking. */
  function SimilaritySearch(ranking: seq<Document>, k: nat): (r: seq<Document>)
    ensures |r| <= k && |r| <= |ranking|
    ensures |r| == k || |r| == |ranking|
    ensures r == ranking[..|r|]
  {
    if |ranking| <= k then ranking else ranking[..k]
  }

  /** The documents fetched for a question and the text sent to generation. */
  datatype Turn = Turn(docs: seq<Document>, generationPrompt: string)

  /** One question through the gate: retrieve and build the prompt, or pass it on as is. */
  function Route(c: Classifier, prompt: string, llm: string -> LlmOutcome,
                 rank: string -> seq<Document>): (t: Turn)
    ensures !NeedsRag(c, prompt, llm).needsRetrieval ==> t.docs == [] && t.generationPrompt == prompt
    ensures NeedsRag(c, prompt, llm).needsRetrieval ==>
              t.docs == SimilaritySearch(rank(prompt), TopK)
              && t.generationPrompt == BuildRagPrompt(prompt, t.docs)
    ensures NeedsRag(c, prompt, llm).needsRetrieval ==>
              |t.docs| == if |rank(prompt)| < TopK then |rank(prompt)| else TopK
  {
    var needsRag := NeedsRag(c, prompt, llm).needsRetrieval;
    var docs := if needsRag then SimilaritySearch(rank(prompt), TopK) else [];
    Turn(docs, if needsRag then BuildRagPrompt(prompt, docs) else prompt)
  }

  /** A greeting is sent to generation unchanged, without any retrieval. */
  lemma GreetingRoutedDirectly(c: Classifier, prompt: string, llm: string -> LlmOutcome,
                               rank: string -> seq<Document>, j: int, k: int)
    requires 0 <= j < |c.generalPatterns| && 0 <= k < |c.generalPatterns[j].phrases|
    requires PhraseThenTrailing(c.generalPatterns[j].phrases[k], c.generalPatterns[j].punctuation, Normalize(prompt))
    ensures Route(c, prompt, llm, rank) == Turn([], prompt)
  {
    GreetingSkipsRetrieval(c, prompt, llm, j, k);
  }

  /**
   * A question the gate cannot settle locally and whose oracle call fails
   * goes through retrieval and the structured prompt.
   */
  lemma FailingOracleRetrieves(c: Classifier, prompt: string, llm: string -> LlmOutcome,
                               rank: string -> seq<Document>)
    requires DecideLocally(c, prompt).None? && llm(prompt).Failure?
    ensures Route(c, prompt, llm, rank).docs == SimilaritySearch(rank(prompt), TopK)
    ensures Route(c, prompt, llm, rank).generationPrompt
            == BuildRagPrompt(prompt, SimilaritySearch(rank(prompt), TopK))
  {
    LlmFailureFailsOpen(c, prompt, llm);
  }
}
