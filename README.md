# Montpellier events assistant — verified model of its string logic

This project models the string-processing core of a retrieval-augmented chat
assistant for events in Montpellier. Four Python files make up the core:

- **The retrieval gate** (`query_classifier.py`) decides whether a question
  needs document retrieval. It is a three-tier cascade:
  1. greeting patterns;
  2. a keyword substring test;
  3. the parsed reply of a language model, defaulting to retrieval when in
     doubt.
- **The indexer** (`reindex_langchain.py`) writes one document per event. The
  document text is `Titre: … | Adresse: … | Date: … | URL: … | Description: …`,
  with per-column fallbacks.
- **The answering path** (`mistrachat_langchain.py`) covers four steps:
  - `parse_event_info` reads the five fields back with regular expressions;
  - `format_events_list` turns retrieved documents into a bullet list;
  - `build_rag_prompt` places that list in a fixed prompt;
  - a routing rule sends a question through retrieval only when the gate
    asks for it.
- **The extraction script** (`Exxtraction.py`) normalises open-data records.
  It strips HTML tags from the description, projects each record onto ten
  columns and adds a pipe-separated `text_for_rag` column.

## Modules

| file | module | models |
|---|---|---|
| `wrappers.dfy` | `Wrappers` | `Option` |
| `text.dfy` | `Text` | `str.strip`, `str.lower` (ASCII and Latin-1 letters), `startswith`, `in`, `join`, `replace(old, "")` |
| `query_classifier.dfy` | `QueryClassifier` | the classifier configuration, the three tiers and the cascade |
| `extraction.dfy` | `Extraction` | `clean_field`, `extract_fields`, `text_for_rag` and the extraction loop |
| `reindex.dfy` | `Reindex` | row fallbacks, the document text, the document-building loop |
| `event_info.dfy` | `EventInfo` | the five regular-expression searches and the `parse_event_info` loop |
| `round_trip.dfy` | `DocumentRoundTrip` | writer → reader: what `parse_event_info` returns on a written document |
| `chat.dfy` | `Chat` | `format_events_list`, `build_rag_prompt`, the routing of one question |
| `pipeline.dfy` | `EventPipeline` | indexed rows → retrieved documents → bullet list |

### Design choices

- **Language model.** The hosted model is an oracle argument
  `llm: string -> LlmOutcome`. It yields either the raw `message.content` of
  the first choice, which `ClassifyWithLlm` strips as the source does, or the
  message of the exception the call raised.
- **Vector store.** The store is an oracle ranking
  `rank: string -> seq<Document>`. `similarity_search(q, k)` returns the
  first `k` documents of that ranking.
- **Confidences.** These are integer hundredths (50, 60, 85, 90, 95).
- **Regular expressions.** Only the fixed patterns of the source are
  modelled, each by an explicit search:
  - `re.search` tries start positions left to right;
  - a greedy `\s*` takes the longest run of whitespace first and gives
    characters back one at a time;
  - a lazy `(.+?)` tries the shortest group first;
  - with `re.DOTALL`, `.` matches any character.
- **Whitespace.** Whitespace (`\s`, `strip()`) is the set of code points
  Python's `str.isspace()` accepts.

## Model

| member | source | states |
|---|---|---|
| QueryClassifier.NewClassifier | query_classifier.py:24-41 | the keyword list has 15 entries: the lower-cased commune name first, then the 14 fixed topic words in order; the four greeting patterns are the fixed ones |
| QueryClassifier.Normalize | query_classifier.py:44 | the normalised query is stripped and a subsequence of the lower-cased query |
| QueryClassifier.MatchPhrases | query_classifier.py:37-40 | the alternation of one pattern matches iff some phrase of it is followed only by whitespace or that pattern's punctuation |
| QueryClassifier.MatchAnyPattern | query_classifier.py:47-49 | the early-return loop over the patterns is true iff some pattern fully matches |
| QueryClassifier.KeywordsFound | query_classifier.py:52 | a keyword is in the result iff it is in the list and is a substring of the normalised query; each matching keyword appears exactly as often as in the list (every other one not at all), in list order (a subsequence of the list) |
| QueryClassifier.ClassifyWithLlm | query_classifier.py:59-92 | no retrieval iff the reply's stripped text starts with "DIRECT"; confidence is 0.5 on failure, 0.85 on a RAG/DIRECT reply and 0.6 otherwise; a failure's reason is "Erreur LLM: " plus the message; an 0.85 reason only deletes characters of the reply; the ambiguous case has the fixed reason |
| QueryClassifier.RagReply | query_classifier.py:83-84 | a stripped reply starting with "RAG" gives retrieval at 0.85 with the reply stripped of every "RAG -" and stripped again as the reason |
| QueryClassifier.DirectReply | query_classifier.py:85-86 | a stripped reply starting with "DIRECT" (not "RAG") gives no retrieval at 0.85 with the reply stripped of every "DIRECT -" and stripped again as the reason |
| QueryClassifier.DecideLocally | query_classifier.py:43-55 | the local tiers decide iff the normalised query is a greeting or contains a keyword; a decision skips retrieval iff it was a greeting, at 0.95, and otherwise asks for it at 0.9 |
| QueryClassifier.NeedsRag | query_classifier.py:43-57 | the cascade is total; its confidence lies between 0.5 and 0.95; retrieval is skipped only at 0.95 (greeting) or 0.85 (tagged reply), never on a failure or an ambiguous reply |
| QueryClassifier.ExplanationIsSubsequence | query_classifier.py:84-86 | removing every tag occurrence and stripping leaves a subsequence of the reply |
| QueryClassifier.GreetingSkipsRetrieval | query_classifier.py:43-49 | a query that normalises to a greeting phrase plus trailing characters gives (false, 0.95, "Question générale ou salutation"), whatever keywords it contains and whatever the oracle says |
| QueryClassifier.KeywordsForceRetrieval | query_classifier.py:51-54 | without a greeting, any keyword in the query gives (true, 0.9, "Contient mots-clés pertinents: " + all matching keywords joined by ", "), and that keyword is among them |
| QueryClassifier.LlmOnlyAsFallback | query_classifier.py:46-57 | when a greeting or a keyword decides, the result does not depend on the oracle; otherwise it is the parsed oracle reply for the original query |
| QueryClassifier.FailOpen | query_classifier.py:47-92 | retrieval is skipped iff a greeting matched, or no keyword matched and the oracle's stripped reply starts with "DIRECT" |
| QueryClassifier.ConfidenceIsKnown | query_classifier.py:49-92 | the confidence is one of 0.5, 0.6, 0.85, 0.9, 0.95, hence within [0, 1] |
| QueryClassifier.LlmFailureFailsOpen | query_classifier.py:90-92 | a failed oracle call on an undecided query gives (true, 0.5, "Erreur LLM: " + message); nothing propagates |
| QueryClassifier.TaggedReplyExplanation | query_classifier.py:83-86 | a reply "RAG -"/"DIRECT -" plus an explanation that does not repeat the tag gives the stripped explanation with confidence 0.85 and retrieval iff the tag is RAG |
| QueryClassifier.RemoveTagPrefix | query_classifier.py:84 | removing a leading tag that does not occur again leaves exactly the rest |
| QueryClassifier.CommuneNameTriggersRetrieval | query_classifier.py:28-54 | a non-greeting query containing the commune name in any ASCII or Latin-1 letter case asks for retrieval with confidence 0.9, the lower-cased name first among the matched keywords |
| QueryClassifier.CommuneSurvivesNormalize | query_classifier.py:29-44 | an occurrence of the lower-cased commune name in the lower-cased query survives `strip()` |
| QueryClassifier.FirstKeywordForcesRetrieval | query_classifier.py:51-54 | without a greeting, a query containing the first keyword asks for retrieval at 0.9, with that keyword first in the reason |
| QueryClassifier.FirstKeywordFound | query_classifier.py:52 | a first keyword that occurs heads the list of found keywords |
| QueryClassifier.LowerKeepsOccurrence | query_classifier.py:44 | lower-casing maps an occurrence of a word to an occurrence of the lower-cased word at the same index |
| QueryClassifier.StripKeepsOccurrence | query_classifier.py:44 | an occurrence of a stripped non-empty word survives `strip()` |
| Extraction.FindFrom | Exxtraction.py:47 | the first index at or after `from` holding the character, or none |
| Extraction.TagEndAtStart | Exxtraction.py:47 | a match of `<[^>]+>` at the start spans a tag up to the first `>`; no match means no `>` after the `<`, or one right after it |
| Extraction.StripTags | Exxtraction.py:47 | the left-to-right `re.sub` scan never lengthens the text (its other properties are the StripTags lemmas below) |
| Extraction.CleanField | Exxtraction.py:43-47 | an absent or empty value gives ""; the result is a subsequence of the input and holds no `<[^>]+>` |
| Extraction.StripTagsIsSubsequence | Exxtraction.py:47 | tag removal only deletes characters |
| Extraction.StripTagsLeavesNoTag | Exxtraction.py:47 | the single left-to-right pass leaves no tag behind, even where removal joins text |
| Extraction.StripTagsKeepsHead | Exxtraction.py:47 | a first character that is not `<` is kept in front |
| Extraction.StripTagsFixpoint | Exxtraction.py:47 | a string without a tag is unchanged by tag removal |
| Extraction.CleanFieldIdempotent | Exxtraction.py:43-47 | `clean_field(clean_field(x)) == clean_field(x)` |
| Extraction.CleanFieldWithoutAngle | Exxtraction.py:43-47 | a value with no `<` is returned unchanged |
| Extraction.ExtractFields | Exxtraction.py:50-65 | the row has exactly the ten schema keys; `description_fr` is `clean_field` of the source value and the nine others are copied, "" when missing |
| Extraction.NoFieldsGivesEmptyRow | Exxtraction.py:52-65 | a record without "fields" gives the ten keys, all "" |
| Extraction.ExtractFieldsIdempotent | Exxtraction.py:50-65 | extracting an extracted row again gives the same row |
| Extraction.TextForRag | Exxtraction.py:79-85 | title, description, address, URL and date range joined by a spaced pipe separator in that order; the text always contains a pipe character |
| Extraction.OutputRowColumns | Exxtraction.py:76-85 | the contract of `OutputRow`: an output row has the ten schema keys, each holding the extracted value unchanged, plus `text_for_rag`, which contains a pipe character |
| Extraction.ExtractAll | Exxtraction.py:74-87 | one output row per record, in order: that record's extracted columns plus its `text_for_rag` |
| Extraction.OutputRowsSnoc | Exxtraction.py:74-87 | one more record appends its output row at the end of the table |
| Extraction.ExtractedHasSchema | Exxtraction.py:50-85 | an extracted row holds the five columns `text_for_rag` reads, so the loop never misses a key |
| Reindex.RowFields | reindex_langchain.py:29-33 | the fallbacks are title_fr → title → "", location_address → location_city → "Montpellier", daterange_fr → firstdate_begin → "", canonicalurl → "", and description_fr → description → "" |
| Reindex.EventText | reindex_langchain.py:36 | the text starts with "Titre: " and is 52 characters longer than the five values together |
| Reindex.EventTextNotBlank | reindex_langchain.py:36-38 | the text never strips to empty, so the `if text.strip()` guard always passes |
| Reindex.BuildDocuments | reindex_langchain.py:27-40 | one document per row, in row order, with that row's text; every metadata is {"source": "montpellier_2025.csv"} |
| EventInfo.SkipSpaces | mistrachat_langchain.py:51-55 | the greedy `\s*`: every character skipped is whitespace, and the stop is at the end or at a non-space |
| EventInfo.LazyEnd | mistrachat_langchain.py:51-54 | the lazy group ends at the first position where optional whitespace, a pipe, optional whitespace and the next label follow; none means no such position |
| EventInfo.GroupUpToSpan | mistrachat_langchain.py:51-54 | the lazy group is a non-empty stretch after the label, followed by the separator and the next label, which match at no earlier end inside it |
| EventInfo.GroupToEndSpan | mistrachat_langchain.py:55 | `\s*(.+)$` has no group only when the label ends the text; otherwise the group is a non-empty suffix of the text after the label |
| EventInfo.MatchAtMarker | mistrachat_langchain.py:60 | a pattern matches at a start position only where its label begins, and its group is never empty |
| EventInfo.SearchFromNone | mistrachat_langchain.py:60 | the search from a position finds nothing iff no start position from there on matches |
| EventInfo.SearchFromLeftmost | mistrachat_langchain.py:60 | a match found from a position is the one at the leftmost matching start position |
| EventInfo.SearchIsLeftmost | mistrachat_langchain.py:60 | `re.search` finds nothing iff no start position matches; otherwise it returns the non-empty group of the leftmost matching start position |
| EventInfo.InfoAfter | mistrachat_langchain.py:58-63 | the dictionary after the first n searches holds only stripped values |
| EventInfo.InfoAfterNext | mistrachat_langchain.py:59-62 | one more pattern sets its key to the stripped group when its search matches and changes nothing otherwise |
| EventInfo.InfoAfterKeys | mistrachat_langchain.py:58-63 | after the first n searches, every key of the dictionary is the key of one of those n patterns |
| EventInfo.InfoAfterEntries | mistrachat_langchain.py:58-63 | with distinct keys, after n searches the key of each of those patterns is present iff its search matches, and its value is the stripped group |
| EventInfo.InfoAfterKeeps | mistrachat_langchain.py:58-63 | a later search leaves every other key's presence and value unchanged |
| EventInfo.InfoAfterAdds | mistrachat_langchain.py:58-63 | with distinct keys, search n stores its key iff it matches, with the stripped group |
| EventInfo.ParseEventInfo | mistrachat_langchain.py:48-64 | the loop returns the dictionary of the five searches in table order; its keys are among titre, adresse, date, url, description; every value is stripped |
| EventInfo.EventInfoOf | mistrachat_langchain.py:48-64 | the dictionary `parse_event_info` returns uses only the five keys titre, adresse, date, url, description, and every value is stripped |
| EventInfo.ParsedEntries | mistrachat_langchain.py:50-64 | for each of the five keys: present iff its pattern matches, and the value is the stripped match |
| EventInfo.SearchSkips | mistrachat_langchain.py:60 | a search finds the same match from `p` as from `q` when the label does not occur at any position in between |
| EventInfo.SearchStartsAt | mistrachat_langchain.py:60 | when the first label occurrence is at `p`, the search is the match attempted at `p` |
| EventInfo.UpToCaptures | mistrachat_langchain.py:51-54 | at the position of a label, a space, `v`, a spaced pipe separator and the next label, with `v` stripped, non-empty and free of pipes, the pattern matches and its group is exactly `v` |
| EventInfo.ToEndCaptures | mistrachat_langchain.py:55 | at the position of `label + " " + v`, the to-the-end pattern matches and its group strips to `strip(v)` |
| EventInfo.FieldFound | mistrachat_langchain.py:51-54 | a clean value between its label and the next, with no earlier occurrence of the label, is what the search returns |
| EventInfo.LastFieldFound | mistrachat_langchain.py:55 | when the label does not occur earlier, the to-the-end search matches and its group strips to the stripped written value |
| DocumentRoundTrip.WrittenText | reindex_langchain.py:36 | the document text is the four labelled fields, each followed by a spaced pipe separator, then "Description: " and the description |
| DocumentRoundTrip.WrittenPrefix | reindex_langchain.py:36 | the text before each label, followed by that label, begins the document |
| DocumentRoundTrip.PrefixAbsent | reindex_langchain.py:36 | with clean values, neither a label nor any later label occurs in the text written before that label |
| DocumentRoundTrip.TitleAlwaysParsed | mistrachat_langchain.py:51 | whatever the fields, parsing a written document yields a `titre` entry |
| DocumentRoundTrip.DescriptionAlwaysParsed | mistrachat_langchain.py:55 | whatever the fields, parsing a written document yields a `description` entry |
| DocumentRoundTrip.FieldReadBack | mistrachat_langchain.py:51-54 | with clean values, each of the first four searches returns the written value exactly |
| DocumentRoundTrip.DescriptionReadBack | mistrachat_langchain.py:55 | with clean values, the description search matches and strips to the stripped description |
| DocumentRoundTrip.ParseWrittenDocument | mistrachat_langchain.py:48-64 | round trip: with clean values, parsing the written text gives exactly {titre, adresse, date, url: the written values; description: the stripped description} |
| Chat.Bullets | mistrachat_langchain.py:69-76 | at most one bullet per document |
| Chat.BulletList | mistrachat_langchain.py:71-76 | a parsed document contributes at most one bullet, and one exactly when its `titre` is present and non-empty |
| Chat.BulletShowsTitle | mistrachat_langchain.py:72 | a bullet starts with "- **" immediately followed by the title (or "N/A") |
| Chat.BulletEndsWithLink | mistrachat_langchain.py:76 | a bullet ends with the URL (or "N/A") |
| Chat.EventsList | mistrachat_langchain.py:66-78 | no documents give ""; every bullet of a titled document occurs in the formatted list |
| Chat.ParsedInfosAt | mistrachat_langchain.py:69-70 | entry i of the parsed list is what `parse_event_info` returns for document i |
| Chat.FormatEventsList | mistrachat_langchain.py:66-78 | the loop returns the bullets of the titled documents joined by "\n\n"; no documents gives "" |
| Chat.BulletsSnoc | mistrachat_langchain.py:69-76 | appending a document appends its bullet if it has a title, and nothing otherwise |
| Chat.BulletsAppend | mistrachat_langchain.py:69-76 | the bullets of two document lists are the bullets of each, in order |
| Chat.BulletsAllListed | mistrachat_langchain.py:69-76 | when every document has a title, there is exactly one bullet per document, in input order |
| Chat.BulletsNoneListed | mistrachat_langchain.py:71-78 | when no document has a title, the list and the formatted text are empty |
| Chat.MissingPlaceShown | mistrachat_langchain.py:73 | a missing address appears as "N/A" on the place line |
| Chat.MissingDateShown | mistrachat_langchain.py:74 | a missing date appears as "N/A" on the date line |
| Chat.MissingUrlShown | mistrachat_langchain.py:76 | a missing URL appears as "N/A" on the link line |
| Chat.RagPrompt | mistrachat_langchain.py:82-91 | the prompt starts with the fixed header, the events block follows it verbatim, and the question appears verbatim after "\n\nQUESTION: " |
| Chat.BuildRagPrompt | mistrachat_langchain.py:80-91 | the prompt starts with the fixed header, the formatted events list follows it verbatim, and the question appears verbatim after "\n\nQUESTION: " |
| Chat.PromptOrder | mistrachat_langchain.py:80-91 | the formatted events and the question both occur in the prompt, the events first |
| Chat.SimilaritySearch | mistrachat_langchain.py:118 | the result is a prefix of the ranking, of length k or the whole ranking |
| Chat.Route | mistrachat_langchain.py:117-121 | without retrieval no documents are fetched and the prompt passes unchanged; with retrieval exactly the `similarity_search` result with k = 3 is fetched, min(3, ranking length) documents, and goes through `build_rag_prompt` |
| Chat.GreetingRoutedDirectly | mistrachat_langchain.py:117-121 | a greeting is sent to generation unchanged, with no documents |
| Chat.FailingOracleRetrieves | mistrachat_langchain.py:117-121 | an undecided question whose oracle call fails goes through retrieval and the structured prompt |
| EventPipeline.BulletOfEntries | mistrachat_langchain.py:71-76 | a dictionary holding a non-empty title, an address, a date and a URL is listed, and its bullet shows exactly those four values |
| EventPipeline.WrittenInfosListed | mistrachat_langchain.py:66-76 | each document written from clean fields parses to a listed dictionary whose bullet shows those fields |
| EventPipeline.WrittenDocumentBullet | mistrachat_langchain.py:66-76 | a written document with clean values is listed, and its bullet shows exactly the written title, address, date and URL |
| EventPipeline.IndexedRowsListed | mistrachat_langchain.py:66-78 | documents indexed from rows with clean values give one bullet per row, in row order, each with its row's values |
| Text.Strip | query_classifier.py:44 | Python's `strip()` yields a text with no leading or trailing whitespace |
| Text.StrippedIsFixpoint | mistrachat_langchain.py:62 | a stripped text is its own `strip()` |
| Text.StripIsSubsequence | query_classifier.py:84 | `strip()` only deletes characters |
| Text.StripSkipsLeadingSpace | mistrachat_langchain.py:62 | leading whitespace does not change the result of `strip()` |
| Text.Lower | query_classifier.py:44 | `lower()` keeps the length and lower-cases each character on its own |
| Text.Contains | query_classifier.py:52 | `pat in s` holds iff the pattern occurs at some index of the text |
| Text.Join | mistrachat_langchain.py:78 | `sep.join` of no strings is "" and of one string is that string |
| Text.JoinShowsAll | mistrachat_langchain.py:78 | every element of a joined list occurs in the joined text |
| Text.JoinFive | Exxtraction.py:79-85 | joining five strings with a separator writes them out in order with the separator between each pair |
| Text.RemoveAll | query_classifier.py:84 | `replace(old, "")` never lengthens the text |
| Text.RemoveAllIsSubsequence | query_classifier.py:84 | `replace(old, "")` only deletes characters |
| Text.RemoveAllAbsent | query_classifier.py:84 | a text without the removed pattern is returned unchanged |

"Clean values" (`DocumentRoundTrip.CleanFields`) has three parts. Title,
address, date and URL are non-empty and stripped. None of them holds `|`.
None holds a label that comes later in the layout. The description is
unconstrained.

## Left out

- Calls to the hosted language model are left out: `generate_response` and
  the `chat.complete` request in `_classify_with_llm`. The classifier's call
  is an oracle argument, and the prompt wording, model names and
  temperatures are not modelled.
- The FAISS index and embeddings are left out: loading, building, saving and
  the embedding model. The ranking behind `similarity_search` is an oracle.
- HTTP pagination (`fetch_montpellier_2025`) is left out, as are CSV writing
  and reading, directory creation, the Streamlit page, the chat history,
  environment variables, API-key checks and logging. All of these are I/O or
  user-interface code.
- The commune name is read from the environment in the source. Here it is a
  parameter of `QueryClassifier.NewClassifier`.
- `Text.Lower` only handles ASCII and Latin-1 letters. Python's `str.lower()`
  uses the full Unicode case mapping, including characters whose lower case
  is longer.
- `Reindex.RowFields` reads rows as string-valued dictionaries. The `str()`
  conversion pandas applies to missing cells (`"nan"`) and to non-string
  cells is not modelled.
- `Extraction.ExtractFields` reads records whose `fields` values are
  strings. `clean_field`'s `str(html)` of a non-string value, and its
  falsy-value test on non-strings, are not modelled.
- `EventInfo.Search` covers only the two regular-expression shapes that
  `parse_event_info` uses, not general regular-expression semantics.
- The pandas filtering in the unit-test fixture is left out, because it
  only sets up test data.
