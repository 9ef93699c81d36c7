/**
 * The retrieval gate of query_classifier.py: a three-tier cascade deciding
 * whether a user question needs document retrieval before generation.
 *
 *   1. small talk: the lower-cased, stripped question fully matches one of
 *      four fixed greeting patterns  -> no retrieval, confidence 0.95;
 *   2. keywords: some configured keyword is a substring of it
 *      -> retrieval, confidence 0.9, every matching keyword listed;
 *   3. otherwise the hosted language model is asked; its reply (or its
 *      failure) is parsed, defaulting to retrieval whenever in doubt.
 *
 * The language model is an oracle `llm: string -> LlmOutcome`: whatever the
 * chat-completion call returns for the question (the raw `message.content` of
 * its first choice, which `ClassifyWithLlm` strips) or the message of the
 * exception it raised. Confidences are integer hundredths.
 */
module QueryClassifier {
  import opened Wrappers
  import opened Text

  /**
   * The anchored pattern `^(phrase1|phrase2|...)[\s<punctuation>]*$`: one of
   * the literal phrases followed only by whitespace or the listed punctuation.
   */
  datatype GreetingPattern = GreetingPattern(phrases: seq<string>, punctuation: set<char>)

  /** The immutable configuration built by `QueryClassifier.__init__`. */
  datatype Classifier = Classifier(communeKeywords: seq<string>, generalPatterns: seq<GreetingPattern>)

  /** The tuple `(needs_retrieval, confidence, reason)`; confidence in hundredths. */
  datatype Classification = Classification(needsRetrieval: bool, confidence: nat, reason: string)

  /** What the chat-completion call produced: a reply text, or an exception message. */
  datatype LlmOutcome = Reply(content: string) | Failure(message: string)

  const GreetingConfidence: nat := 95
  const KeywordConfidence: nat := 90
  const LlmConfidence: nat := 85
  const AmbiguousConfidence: nat := 60
  const ErrorConfidence: nat := 50

  const GreetingReason: string := "Question générale ou salutation"
  const KeywordReasonPrefix: string := "Contient mots-clés pertinents: "
  const AmbiguousReason: string := "Classification ambiguë, utilisation de RAG par précaution"
  const ErrorReasonPrefix: string := "Erreur LLM: "

  /** The fixed topic words that follow the commune name in the keyword list. */
  const TopicKeywords: seq<string> := [
    "concert", "spectacle", "événement", "manifestation",
    "festival", "fête", "musique", "opéra", "exposition",
    "place", "rue", "parc", "gratuit", "ouvert au public"
  ]

  const BasicPunctuation: set<char> := {'.', ',', '!'}

  /** The four small-talk patterns, in the order they are tried. */
  const GeneralPatterns: seq<GreetingPattern> := [
    GreetingPattern(["bonjour", "salut", "hello", "coucou", "hey", "bonsoir"], BasicPunctuation),
    GreetingPattern(["merci", "thanks", "thank you", "je te remercie"], BasicPunctuation),
    GreetingPattern(["comment ça va", "ça va", "comment vas-tu", "comment allez-vous"], BasicPunctuation + {'?'}),
    GreetingPattern(["au revoir", "bye", "à bientôt", "à plus tard"], BasicPunctuation)
  ]

  /** `QueryClassifier.__init__`: the commune name, lower-cased, seeds the keyword list. */
  function NewClassifier(communeName: string): (c: Classifier)
    ensures |c.communeKeywords| == 15
    ensures c.communeKeywords[0] == Lower(communeName)
    ensures c.communeKeywords[1..] == TopicKeywords
    ensures |c.generalPatterns| == 4 && c.generalPatterns == GeneralPatterns
  {
    Classifier([Lower(communeName)] + TopicKeywords, GeneralPatterns)
  }

  /** The question as the first two tiers see it: `query.lower().strip()`. */
  function Normalize(query: string): (s: string)
    ensures IsStripped(s)
    ensures IsSubsequence(s, Lower(query))
  {
    StripIsSubsequence(Lower(query));
    Strip(Lower(query))
  }

  // ---------------------------------------------------------------------------
  // Tier 1: greeting patterns
  // ---------------------------------------------------------------------------

  /** A character of the trailing class `[\s<punctuation>]`. */
  predicate Trailing(c: char, punctuation: set<char>) {
    IsSpace(c) || c in punctuation
  }

  /** `s` is `phrase` followed only by characters of the trailing class. */
  predicate PhraseThenTrailing(phrase: string, punctuation: set<char>, s: string) {
    StartsWith(s, phrase)
    && forall i :: |phrase| <= i < |s| ==> Trailing(s[i], punctuation)
  }

  /** The anchored full match of one pattern, as a statement about `s`. */
  ghost predicate FullMatch(p: GreetingPattern, s: string) {
    exists k :: 0 <= k < |p.phrases| && PhraseThenTrailing(p.phrases[k], p.punctuation, s)
  }

  /** Some pattern of the list fully matches `s`. */
  ghost predicate IsGreeting(patterns: seq<GreetingPattern>, s: string) {
    exists j :: 0 <= j < |patterns| && FullMatch(patterns[j], s)
  }

  /** The regex alternation: the phrases are tried in order. */
  function MatchPhrases(phrases: seq<string>, punctuation: set<char>, s: string): (r: bool)
    ensures r <==> exists k :: 0 <= k < |phrases| && PhraseThenTrailing(phrases[k], punctuation, s)
  {
    if phrases == [] then false
    else if PhraseThenTrailing(phrases[0], punctuation, s) then true
    else
      var r := MatchPhrases(phrases[1..], punctuation, s);
      assert forall k :: 0 < k < |phrases| ==> phrases[k] == phrases[1..][k - 1];
      r
  }

  /** The `for pattern in self.general_patterns` loop with its early return. */
  function MatchAnyPattern(patterns: seq<GreetingPattern>, s: string): (r: bool)
    ensures r <==> IsGreeting(patterns, s)
  {
    if patterns == [] then false
    else if MatchPhrases(patterns[0].phrases, patterns[0].punctuation, s) then true
    else
      var r := MatchAnyPattern(patterns[1..], s);
      assert forall j :: 0 < j < |patterns| ==> patterns[j] == patterns[1..][j - 1];
      r
  }

  // ---------------------------------------------------------------------------
  // Tier 2: keywords
  // ---------------------------------------------------------------------------

  /**
   * `[kw for kw in keywords if kw in s]`: the matching keywords, in list order,
   * each kept as often as the list holds it.
   */
  function KeywordsFound(keywords: seq<string>, s: string): (r: seq<string>)
    ensures forall x :: x in r <==> x in keywords && Contains(s, x)
    ensures forall x :: multiset(r)[x] == if Contains(s, x) then multiset(keywords)[x] else 0
    ensures IsSubsequence(r, keywords)
  {
    if keywords == [] then []
    else
      assert keywords == [keywords[0]] + keywords[1..];
      if Contains(s, keywords[0]) then
        var rest := KeywordsFound(keywords[1..], s);
        assert ([keywords[0]] + rest)[1..] == rest;
        [keywords[0]] + rest
      else
        var rest := KeywordsFound(keywords[1..], s);
        SubsequenceOfTail(rest, keywords);
        rest
  }

  // ---------------------------------------------------------------------------
  // Tier 3: the language-model reply
  // ---------------------------------------------------------------------------

  /** `_classify_with_llm`, with the chat call replaced by its outcome. */
  function ClassifyWithLlm(outcome: LlmOutcome): (r: Classification)
    ensures r.needsRetrieval <==> !(outcome.Reply? && StartsWith(Strip(outcome.content), "DIRECT"))
    ensures r.confidence == (
      if outcome.Failure? then ErrorConfidence
      else if StartsWith(Strip(outcome.content), "RAG") || StartsWith(Strip(outcome.content), "DIRECT")
      then LlmConfidence
      else AmbiguousConfidence)
    ensures outcome.Failure? ==> r.reason == ErrorReasonPrefix + outcome.message
    ensures outcome.Reply? && r.confidence == LlmConfidence ==> IsSubsequence(r.reason, Strip(outcome.content))
    ensures r.confidence == AmbiguousConfidence ==> r.reason == AmbiguousReason
  {
    match outcome
    case Failure(message) =>
      Classification(true, ErrorConfidence, ErrorReasonPrefix + message)
    case Reply(content) =>
      var result := Strip(content);
      if StartsWith(result, "RAG") then
        ExplanationIsSubsequence(result, "RAG -");
        Classification(true, LlmConfidence, Strip(RemoveAll(result, "RAG -")))
      else if StartsWith(result, "DIRECT") then
        ExplanationIsSubsequence(result, "DIRECT -");
        Classification(false, LlmConfidence, Strip(RemoveAll(result, "DIRECT -")))
      else
        Classification(true, AmbiguousConfidence, AmbiguousReason)
  }

  /** The explanation kept from a reply only deletes characters of it. */
  lemma ExplanationIsSubsequence(result: string, tag: string)
    requires |tag| > 0
    ensures IsSubsequence(Strip(RemoveAll(result, tag)), result)
  {
    var removed := RemoveAll(result, tag);
    RemoveAllIsSubsequence(result, tag);
    StripIsSubsequence(removed);
    SubsequenceTransitive(Strip(removed), removed, result);
  }

  // ---------------------------------------------------------------------------
  // The cascade
  // ---------------------------------------------------------------------------

  /** Tiers 1 and 2; `None` means the question goes to the language model. */
  function DecideLocally(c: Classifier, query: string): (r: Option<Classification>)
    ensures r.Some? <==> IsGreeting(c.generalPatterns, Normalize(query))
                         || KeywordsFound(c.communeKeywords, Normalize(query)) != []
    ensures r.Some? ==> (r.value.needsRetrieval <==> !IsGreeting(c.generalPatterns, Normalize(query)))
    ensures r.Some? ==> r.value.confidence == (if r.value.needsRetrieval then 90 else 95)
  {
    var s := Normalize(query);
    if MatchAnyPattern(c.generalPatterns, s) then
      Some(Classification(false, GreetingConfidence, GreetingReason))
    else
      var found := KeywordsFound(c.communeKeywords, s);
      if found != [] then
        Some(Classification(true, KeywordConfidence, KeywordReasonPrefix + Join(", ", found)))
      else
        None
  }

  /** `QueryClassifier.needs_rag`: total, never fails, whatever the oracle does. */
  function NeedsRag(c: Classifier, query: string, llm: string -> LlmOutcome): (r: Classification)
    ensures 50 <= r.confidence <= 95
    ensures !r.needsRetrieval ==> r.confidence == 95 || r.confidence == 85
  {
    match DecideLocally(c, query)
    case Some(r) => r
    case None => ClassifyWithLlm(llm(query))
  }

  // ---------------------------------------------------------------------------
  // Properties of the cascade
  // ---------------------------------------------------------------------------

  /**
   * Tier 1 wins: a question that normalizes to a greeting phrase of some
   * pattern followed only by that pattern's trailing characters is answered
   * directly, whatever keywords it contains and whatever the oracle says.
   */
  lemma GreetingSkipsRetrieval(c: Classifier, query: string, llm: string -> LlmOutcome, j: int, k: int)
    requires 0 <= j < |c.generalPatterns| && 0 <= k < |c.generalPatterns[j].phrases|
    requires PhraseThenTrailing(c.generalPatterns[j].phrases[k], c.generalPatterns[j].punctuation, Normalize(query))
    ensures NeedsRag(c, query, llm) == Classification(false, 95, "Question générale ou salutation")
  {
    assert FullMatch(c.generalPatterns[j], Normalize(query));
  }

  /**
   * Tier 2: with no greeting, a question containing keywords asks for
   * retrieval and its reason lists every matching keyword in list order.
   */
  lemma KeywordsForceRetrieval(c: Classifier, query: string, llm: string -> LlmOutcome, kw: string)
    requires !IsGreeting(c.generalPatterns, Normalize(query))
    requires kw in c.communeKeywords && Contains(Normalize(query), kw)
    ensures NeedsRag(c, query, llm) == Classification(true, 90,
      "Contient mots-clés pertinents: " + Join(", ", KeywordsFound(c.communeKeywords, Normalize(query))))
    ensures kw in KeywordsFound(c.communeKeywords, Normalize(query))
  {
  }

  /**
   * The oracle is consulted only when neither tier 1 nor tier 2 decides,
   * and then it is asked about the original (not lower-cased) question.
   */
  lemma LlmOnlyAsFallback(c: Classifier, query: string, llm1: string -> LlmOutcome, llm2: string -> LlmOutcome)
    ensures IsGreeting(c.generalPatterns, Normalize(query))
            || KeywordsFound(c.communeKeywords, Normalize(query)) != []
            ==> NeedsRag(c, query, llm1) == NeedsRag(c, query, llm2)
    ensures !IsGreeting(c.generalPatterns, Normalize(query))
            && KeywordsFound(c.communeKeywords, Normalize(query)) == []
            ==> NeedsRag(c, query, llm1) == ClassifyWithLlm(llm1(query))
  {
  }

  /**
   * Fail-open: retrieval is skipped only for a greeting, or when the oracle
   * is consulted and its stripped reply starts with "DIRECT".
   */
  lemma FailOpen(c: Classifier, query: string, llm: string -> LlmOutcome)
    ensures !NeedsRag(c, query, llm).needsRetrieval
            <==> IsGreeting(c.generalPatterns, Normalize(query))
                 || (KeywordsFound(c.communeKeywords, Normalize(query)) == []
                     && llm(query).Reply? && StartsWith(Strip(llm(query).content), "DIRECT"))
  {
  }

  /** Every confidence is one of five literals, all within [0, 1]. */
  lemma ConfidenceIsKnown(c: Classifier, query: string, llm: string -> LlmOutcome)
    ensures NeedsRag(c, query, llm).confidence in {50, 60, 85, 90, 95}
    ensures NeedsRag(c, query, llm).confidence <= 100
  {
  }

  /** A failing oracle never propagates: retrieval, confidence 0.5, message kept. */
  lemma LlmFailureFailsOpen(c: Classifier, query: string, llm: string -> LlmOutcome)
    requires DecideLocally(c, query).None? && llm(query).Failure?
    ensures NeedsRag(c, query, llm) == Classification(true, 50, "Erreur LLM: " + llm(query).message)
  {
  }

  /**
   * A reply whose stripped text is "RAG -" or "DIRECT -" followed by an
   * explanation that does not repeat that tag yields the stripped explanation.
   */
  lemma TaggedReplyExplanation(content: string, tag: string, explanation: string)
    requires tag == "RAG" || tag == "DIRECT"
    requires Strip(content) == tag + " -" + explanation
    requires !Contains(explanation, tag + " -")
    ensures ClassifyWithLlm(Reply(content)) == Classification(tag == "RAG", 85, Strip(explanation))
  {
    var result := Strip(content);
    var pat := tag + " -";
    RemoveTagPrefix(pat, explanation);
    TagDecidesBranch(result, tag, explanation);
    if tag == "RAG" {
      assert pat == "RAG -";
      RagReply(content);
    } else {
      assert pat == "DIRECT -";
      DirectReply(content);
    }
  }

  /** A stripped reply starting with "RAG" keeps what remains once every "RAG -" is removed. */
  lemma RagReply(content: string)
    requires StartsWith(Strip(content), "RAG")
    ensures ClassifyWithLlm(Reply(content))
            == Classification(true, 85, Strip(RemoveAll(Strip(content), "RAG -")))
  {
  }

  /** A stripped reply starting with "DIRECT" (and not "RAG") keeps what remains once every "DIRECT -" is removed. */
  lemma DirectReply(content: string)
    requires !StartsWith(Strip(content), "RAG") && StartsWith(Strip(content), "DIRECT")
    ensures ClassifyWithLlm(Reply(content))
            == Classification(false, 85, Strip(RemoveAll(Strip(content), "DIRECT -")))
  {
  }

  /** Which branch of the prefix tests a reply starting with "RAG -" or "DIRECT -" takes. */
  lemma TagDecidesBranch(result: string, tag: string, explanation: string)
    requires tag == "RAG" || tag == "DIRECT"
    requires result == tag + " -" + explanation
    ensures StartsWith(result, "RAG") <==> tag == "RAG"
    ensures tag == "DIRECT" ==> StartsWith(result, "DIRECT")
  {
    if tag == "RAG" {
      assert result[..3] == "RAG";
    } else {
      assert result[0] == 'D';
      assert result[..6] == "DIRECT";
    }
  }

  /** Removing a leading tag that does not occur again leaves exactly the rest. */
  lemma RemoveTagPrefix(pat: string, rest: string)
    requires |pat| > 0 && !Contains(rest, pat)
    ensures RemoveAll(pat + rest, pat) == rest
  {
    assert StartsWith(pat + rest, pat) by { assert (pat + rest)[..|pat|] == pat; }
    assert (pat + rest)[|pat|..] == rest;
    RemoveAllAbsent(rest, pat);
  }

  /**
   * The configured commune name triggers retrieval: a question that contains
   * it in any ASCII or Latin-1 letter case and is not small talk gets
   * confidence 0.9, with the lower-cased name first among the keywords.
   */
  lemma CommuneNameTriggersRetrieval(communeName: string, query: string, llm: string -> LlmOutcome)
    requires communeName != [] && IsStripped(communeName)
    requires Contains(Lower(query), Lower(communeName))
    requires !IsGreeting(GeneralPatterns, Normalize(query))
    ensures NeedsRag(NewClassifier(communeName), query, llm).needsRetrieval
    ensures NeedsRag(NewClassifier(communeName), query, llm).confidence == 90
    ensures KeywordsFound(NewClassifier(communeName).communeKeywords, Normalize(query))[0] == Lower(communeName)
  {
    var c := NewClassifier(communeName);
    CommuneSurvivesNormalize(communeName, query);
    FirstKeywordForcesRetrieval(c, query, llm);
  }

  /** Without a greeting, a question holding the first keyword asks for retrieval, that keyword first. */
  lemma FirstKeywordForcesRetrieval(c: Classifier, query: string, llm: string -> LlmOutcome)
    requires c.communeKeywords != [] && Contains(Normalize(query), c.communeKeywords[0])
    requires !IsGreeting(c.generalPatterns, Normalize(query))
    ensures NeedsRag(c, query, llm).needsRetrieval && NeedsRag(c, query, llm).confidence == 90
    ensures KeywordsFound(c.communeKeywords, Normalize(query))[0] == c.communeKeywords[0]
  {
    FirstKeywordFound(c.communeKeywords, Normalize(query));
  }

  /** An occurrence of the commune name in any letter case is still there once the question is normalised. */
  lemma CommuneSurvivesNormalize(communeName: string, query: string)
    requires communeName != [] && IsStripped(communeName)
    requires Contains(Lower(query), Lower(communeName))
    ensures Contains(Normalize(query), Lower(communeName))
  {
    var lowered := Lower(communeName);
    var i :| OccursAt(lowered, Lower(query), i);
    assert lowered[0] == LowerChar(communeName[0]);
    assert lowered[|lowered| - 1] == LowerChar(communeName[|communeName| - 1]);
    StripKeepsOccurrence(lowered, Lower(query), i);
  }

  /** A first keyword that occurs heads the list of found keywords. */
  lemma FirstKeywordFound(keywords: seq<string>, s: string)
    requires keywords != [] && Contains(s, keywords[0])
    ensures KeywordsFound(keywords, s) != [] && KeywordsFound(keywords, s)[0] == keywords[0]
  {
  }

  /** Lower-casing is per character, so it maps occurrences to occurrences. */
  lemma LowerKeepsOccurrence(pat: string, s: string, i: int)
    requires OccursAt(pat, s, i)
    ensures OccursAt(Lower(pat), Lower(s), i)
  {
    assert forall k :: 0 <= k < |pat| ==> Lower(s)[i + k] == LowerChar(pat[k]);
  }

  /** An occurrence that begins and ends with non-space survives `strip()`. */
  lemma StripKeepsOccurrence(pat: string, s: string, i: int)
    requires pat != [] && IsStripped(pat) && OccursAt(pat, s, i)
    ensures Contains(Strip(s), pat)
  {
    var hi := i + |pat|;
    assert s[i..hi] == pat;
    assert s[i] == pat[0] && s[hi - 1] == pat[|pat| - 1];
    var lead := StripRetainsInterior(s, i, hi);
    var stripped := Strip(s);
    assert stripped[i - lead..hi - lead] == pat;
    assert OccursAt(pat, stripped, i - lead);
  }
}
