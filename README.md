# Research-assistant core, modelled in Dafny

This project models four self-contained parts of a research-assistant
repository and proves what they promise:

- **SQuAD answer scoring** (`distillation/utils/metrics.py`). This covers:
  - answer normalisation (lower-case, drop punctuation, drop the articles a/an/the, collapse whitespace);
  - exact match;
  - token-level F1 over the multiset intersection of tokens;
  - the corpus aggregation `squad_evaluate` into percentages.

  Scores are exact `real`s.
- **The per-topic paper store** (`agent/mcp_server.py`). Each research topic owns a directory
  under the papers root, named by its slug (lower-cased, spaces turned into
  underscores). The directory holds one `papers_info.json` that maps arXiv short ids to paper records.
  - The root is a class `PaperStore.Store`. It holds a map from entry names to entries and the order in which the root lists them.
  - An entry is a plain file or a directory whose papers file is missing, corrupt or holds a collection.
  - Modelled operations: load (degrading to the empty collection), whole-file save, the load/upsert/save loop of `search_papers`, the first-match scan of `extract_info`, the folder listing and the topic rendering with its 700-character summary cut.
- **Answer-span labelling** (`distillation/scripts/train_student.py`). This is the loop that labels
  every tokenized feature with the start and end token of the gold answer, or
  with the classifier token.
- **Prompt framing and answer extraction** (`finetuning/deploy/prediction.py`). This covers
  `transform_prompt` and the `split('[/INST]')[1].strip()` post-processing
  of `predict`.

Files:

- `wrappers.dfy`: `Option` and `Result`.
- `text.dfy`: ASCII models of the Python string built-ins the core uses:
  `lower`, `split()`, `' '.join`, `strip`, `split(sep)`, `replace`, `title` and `str(int)`.
- `metrics.dfy`, `paper_store.dfy`, `span_labels.dfy` and `prediction.dfy`: one module per core file.

Pure Python code is modelled as functions and lemmas. Code that loops and updates variables is modelled as methods with loop invariants:
- `squad_evaluate`
- the search storage loop
- `extract_info`
- `list_folders`
- `topic_papers`
- the labelling loops

Each such method is proved against a specification function, and the lemmas state the properties of that function.

The model follows the code as written in two places where a reader might expect otherwise:
- The docstring of `search_papers` (`agent/mcp_server.py:83`) promises the stored ids, but the function returns the literal `"hi"`. `PaperStore.Store.SearchPapers` returns `"hi"` and exposes the collected ids separately.
- `list_folders` (`agent/mcp_server.py:206-209`) lists every subdirectory of the root, whether or not it holds a papers file, and so does `PaperStore.Store.ListFolders`; `extract_info` and `topic_papers` treat a directory without a papers file as holding no papers.

## Model

| member | source | states |
|---|---|---|
| Text.ToLower | distillation/utils/metrics.py:14-15 | an upper-case letter becomes its own lower-case letter (code point + 32); every other character is unchanged |
| Text.Lower | distillation/utils/metrics.py:14-15 | `lower()` keeps the length and maps each character on its own: A-Z to a-z, everything else unchanged |
| Text.LowerHasNoUpper | distillation/utils/metrics.py:14-15 | `lower()` leaves no upper-case letter |
| Text.LowerIdentity | distillation/utils/metrics.py:14-15 | lowering a string without upper-case letters changes nothing |
| Text.Split | distillation/utils/metrics.py:8-10 | `split()` yields non-empty, whitespace-free tokens made of characters of the input, and yields none exactly when the input is all whitespace |
| Text.SplitAtSpace | distillation/utils/metrics.py:8-10 | a whitespace character separates tokens: the tokens of `u + c + v` are those of `u` then those of `v`; with `SplitJoin` on one token this fixes `split()` as the maximal non-whitespace runs, in order |
| Text.SplitJoin | distillation/utils/metrics.py:9-10 | splitting the space-join of whitespace-free non-empty words gives the words back |
| Text.JoinWith | distillation/utils/metrics.py:8-10 | `sep.join(parts)` is empty for no parts and the part itself for one part, and is as long as all parts plus one separator between neighbours |
| Text.JoinWithAppend | distillation/utils/metrics.py:8-10 | joining `a + b` is joining `a`, the separator, then joining `b`; with the empty and one-part cases this fixes the joined string as every part in order with one separator between neighbours |
| Text.JoinedSpacing | distillation/utils/metrics.py:9-10 | a space-joined list of tokens has no edge whitespace and single spaces between words |
| Text.Strip | finetuning/deploy/prediction.py:33 | `strip()` is the slice of the input after its leading whitespace; what it drops at either end is whitespace, and its own first and last characters are not |
| Text.StripKeepsAbsent | finetuning/deploy/prediction.py:33 | stripping cannot create an occurrence of a pattern |
| Text.FindSpec | finetuning/deploy/prediction.py:33 | the search for the separator finds nothing exactly when it does not occur, and otherwise its first occurrence |
| Text.SplitOn | finetuning/deploy/prediction.py:33 | `split(sep)` yields at least one piece, and joining the pieces with `sep` gives the input back |
| Text.ReplaceChar | agent/mcp_server.py:52 | `replace(a, b)` keeps the length and replaces exactly the `a` characters |
| Text.Title | agent/mcp_server.py:230 | `title()` keeps the length and the non-letters; each letter stays the same letter, upper case exactly when it starts a run of letters |
| Text.TitleIdempotent | agent/mcp_server.py:230 | title-casing twice is title-casing once |
| Text.NatStr | agent/mcp_server.py:232 | the decimal rendering of a count is a non-empty digit string without leading zero, and zero renders as `"0"` |
| Text.NatStrValue | agent/mcp_server.py:232 | the rendering reads back as the count |
| Metrics.RemovePunc | distillation/utils/metrics.py:11-13 | a character occurs in the result exactly when it occurs in the input and is not in `string.punctuation`; the result is no longer than the input |
| Metrics.RemovePuncAppend | distillation/utils/metrics.py:11-13 | the filter works character by character: the result for `a + b` is the result for `a` then for `b`, so every kept character stays in order |
| Metrics.RemovePuncIdentity | distillation/utils/metrics.py:11-13 | a string without punctuation is unchanged |
| Metrics.DropArticles | distillation/utils/metrics.py:7-8 | a word is kept exactly when it is an input word whose lower-case form is not "a", "an" or "the"; no more words than the input |
| Metrics.DropArticlesAppend | distillation/utils/metrics.py:7-8 | the filter works word by word: the result for `a + b` is the result for `a` then for `b`, so the kept words stay in order |
| Metrics.RemoveArticles | distillation/utils/metrics.py:7-8 | the words of the result are the input's words without the articles, in order |
| Metrics.WhiteSpaceFix | distillation/utils/metrics.py:9-10 | the result has the input's words, no leading or trailing whitespace, and single spaces between words |
| Metrics.DropArticlesIdentity | distillation/utils/metrics.py:7-8 | a word list without articles is unchanged |
| Metrics.NormalizeAnswer | distillation/utils/metrics.py:5-16 | the normalised answer is its kept words joined by single spaces, so the final `white_space_fix` changes nothing |
| Metrics.NormalWordsAreNormal | distillation/utils/metrics.py:5-16 | each kept word is a lower-case, punctuation-free, non-article token |
| Metrics.NormalizeAnswerCharacters | distillation/utils/metrics.py:11-16 | no character of the result is punctuation or upper case, and its only whitespace is the space |
| Metrics.NormalizeAnswerSpacing | distillation/utils/metrics.py:9-10 | the result has no leading or trailing whitespace and single spaces between words |
| Metrics.NormalizeAnswerNoArticles | distillation/utils/metrics.py:7-8 | no word of the result is "a", "an" or "the" |
| Metrics.NormalizeAnswerIdempotent | distillation/utils/metrics.py:5-16 | normalising a normalised answer changes nothing |
| Metrics.ComputeExact | distillation/utils/metrics.py:18-19 | the result is 0 or 1, and it is 1 exactly when the normalised answers are equal |
| Metrics.NumSameBounds | distillation/utils/metrics.py:24-25 | the shared-token count is at most either token count |
| Metrics.HarmonicF1Closed | distillation/utils/metrics.py:30-32 | the harmonic mean of precision and recall equals 2·common/(gold + pred) |
| Metrics.F1Cases | distillation/utils/metrics.py:21-33 | F1 is 1 for two empty token lists, 0 when exactly one is empty or none is shared, 2·common/(gold + pred) otherwise, and always in [0, 1] |
| Metrics.F1OfEqualTokens | distillation/utils/metrics.py:21-33 | identical token lists score F1 = 1 |
| Metrics.ComputeF1 | distillation/utils/metrics.py:21-33 | `compute_f1` lies in [0, 1] and is 1 whenever `compute_exact` is 1 |
| Metrics.MaxOver | distillation/utils/metrics.py:49-50 | the maximum over the golds bounds every gold's score and is attained by one of them |
| Metrics.MaxExact | distillation/utils/metrics.py:49 | the best exact score is 0 or 1, and it is 1 exactly when some gold normalises to the prediction |
| Metrics.MaxF1 | distillation/utils/metrics.py:50 | the best F1 bounds every gold's F1 and is attained by one of them |
| Metrics.ExactCredit | distillation/utils/metrics.py:43-49 | an unanswerable gold (`[]` or `[""]`) credits 1 exactly when the stripped prediction is empty; otherwise the credit is 1 exactly when some gold matches |
| Metrics.F1Credit | distillation/utils/metrics.py:43-50 | an unanswerable gold credits 1 exactly when the stripped prediction is empty; otherwise the credit is the maximum F1 over the golds: it bounds every gold's F1 and is attained by one of them |
| Metrics.CreditBounds | distillation/utils/metrics.py:43-50 | per question, 0 ≤ exact credit ≤ F1 credit ≤ 1 |
| Metrics.MaxCreditsOrdered | distillation/utils/metrics.py:49-50 | over a non-empty gold list, 0 ≤ best exact ≤ best F1 ≤ 1 |
| Metrics.BareGoldIsSingleton | distillation/utils/metrics.py:43 | a bare-string gold scores as the one-element list holding it |
| Metrics.TotalExact | distillation/utils/metrics.py:38-49 | the accumulated exact credit lies between 0 and the number of references |
| Metrics.TotalF1 | distillation/utils/metrics.py:38-50 | the accumulated F1 credit lies between 0 and the number of references |
| Metrics.TotalsBounded | distillation/utils/metrics.py:37-50 | 0 ≤ accumulated exact ≤ accumulated F1 ≤ number of references |
| Metrics.UnpredictedAddNothing | distillation/utils/metrics.py:39-41 | references without a prediction add no credit |
| Metrics.SquadEvaluate | distillation/utils/metrics.py:35-53 | division by zero exactly for empty references; otherwise the scores are 100 × accumulated credit / number of references, with 0 ≤ exact ≤ f1 ≤ 100 |
| Metrics.Percentages | distillation/utils/metrics.py:51-52 | the percentages keep the order exact ≤ f1 and stay in [0, 100] |
| Metrics.UnpredictedScoresZero | distillation/utils/metrics.py:39-52 | with no prediction for any reference, both percentages are 0 although the references count in the denominator |
| Prediction.TransformPrompt | finetuning/deploy/prediction.py:35-37 | the prompt ends with `[/INST]`, and when neither the context nor the question holds the marker, that closing marker is the first one in the prompt |
| Prediction.PromptSplits | finetuning/deploy/prediction.py:35-37 | the prompt is `"<s>[INST] Context: " + c + " Question: " + q + " "` followed by `[/INST]` |
| Prediction.PromptBodyMarkerFree | finetuning/deploy/prediction.py:35-37 | the text before the closing marker has no marker when the context and question have none |
| Prediction.SecondPiece | finetuning/deploy/prediction.py:33 | piece 1 of the split is the text after the first marker up to the next one |
| Prediction.FirstPieceHasNoMarker | finetuning/deploy/prediction.py:33 | the text before the first marker holds no marker |
| Prediction.ExtractAnswer | finetuning/deploy/prediction.py:33 | extraction fails with an index error exactly when the text has no marker; otherwise the answer has no marker and no edge whitespace |
| Prediction.MarkerPieces | finetuning/deploy/prediction.py:33 | the split has a second piece exactly when the text holds the marker, and that piece holds none |
| Prediction.ExtractAnswerBetweenMarkers | finetuning/deploy/prediction.py:33 | the answer is the stripped text between the first marker and the next marker or the end |
| Prediction.AnswerAfterMarker | finetuning/deploy/prediction.py:33 | a marker-free text ending in a space, the marker, then a marker-free `x` extracts to `x` stripped |
| Prediction.PromptRoundTrip | finetuning/deploy/prediction.py:33-37 | a prompt built from marker-free context and question, followed by a marker-free completion `x`, extracts to `x` stripped |
| SpanLabels.IndexOf | distillation/scripts/train_student.py:32 | `list.index`: the first position holding the value |
| SpanLabels.LastIndexOf | distillation/scripts/train_student.py:46-48 | the last position holding the value |
| SpanLabels.FirstContextToken | distillation/scripts/train_student.py:43-45 | the forward scan stops at the first context token |
| SpanLabels.LastContextToken | distillation/scripts/train_student.py:46-48 | the backward scan stops at the last context token |
| SpanLabels.Labels | distillation/scripts/train_student.py:37-58 | the declarative labels of one feature; any labels that satisfy it are token positions of the feature |
| SpanLabels.ScanStart | distillation/scripts/train_student.py:53-55 | the start label s is at or after the first context token, every token from there through s starts at or before the answer, and the next token starts after it or lies at the scan bound |
| SpanLabels.ScanEnd | distillation/scripts/train_student.py:56-58 | the end label e is at or before the last context token, every token from e on ends at or after the answer end, and token e-1 ends before it |
| SpanLabels.LabelFeature | distillation/scripts/train_student.py:31-58 | an unanswered example or an answer outside the window is labelled with the classifier position; otherwise the labels are the two scan results for the first answer |
| SpanLabels.LabelFeatures | distillation/scripts/train_student.py:27-60 | one start and one end label per feature, each the labels of that feature for its own example's answers |
| SpanLabels.LabelsUnique | distillation/scripts/train_student.py:37-58 | the labels are determined by the feature and the answers |
| SpanLabels.StartLabelInWindow | distillation/scripts/train_student.py:49-58 | with the start scan bounded by the window, the start label lies in the context window at or before the answer start, and the end label is at or before the last context token; when the token before the window ends before the answer does (the separator's (0, 0) offset), the end label lies in the window too |
| SpanLabels.StartLabelPastWindow | distillation/scripts/train_student.py:53-55 | with the unbounded scan, the start label can be a padding token after the end label |
| PaperStore.Slug | agent/mcp_server.py:52 | the slug keeps the length; each character is the topic's character lower-cased, with a space turned into `_`; so no upper-case letter and no space remains |
| PaperStore.SlugIdempotent | agent/mcp_server.py:52 | a slug is its own slug |
| PaperStore.SlugExample | agent/mcp_server.py:52 | "Convex Optimization" and "convex optimization" share the slug "convex_optimization" |
| PaperStore.TopicPath | agent/mcp_server.py:50-52 | for a single-name slug, the topic directory is the root joined with the slug |
| PaperStore.PapersPath | agent/mcp_server.py:55-56 | for a single-name slug, the papers file is root/slug/papers_info.json |
| PaperStore.PapersPathIffSlug | agent/mcp_server.py:50-56 | two topics share a papers file exactly when they share a slug |
| PaperStore.Lookup | agent/mcp_server.py:59-69 | a directory whose papers file holds a collection loads as that collection; a missing name, a plain file, a missing file or a corrupt file gives the empty collection |
| PaperStore.LookupAfterWrite | agent/mcp_server.py:59-75 | after a write, topics with the same slug load what was written and every other topic loads what it did before |
| PaperStore.Store.Load | agent/mcp_server.py:59-69 | `_load_topic` returns the collection stored in the slug's directory, and the empty collection when the name is missing, a plain file, or a directory whose file is missing or corrupt |
| PaperStore.Store.Save | agent/mcp_server.py:72-75 | the save fails, changing nothing, exactly when a plain file holds the directory's name; otherwise it creates the root and the directory as needed and replaces the papers file, so that same-slug topics load the data and others are unchanged |
| PaperStore.Store.StorePaper | agent/mcp_server.py:96-107 | one pass: the topic's directory then holds its loaded collection with the result written under its id |
| PaperStore.Ids | agent/mcp_server.py:96-97 | one id per result, in stream order |
| PaperStore.Upserted | agent/mcp_server.py:94-107 | the ids after the loop are the prior ids and the ids of the results |
| PaperStore.UpsertedKeepsOthers | agent/mcp_server.py:94-107 | ids that no result carries keep their prior record |
| PaperStore.UpsertedLastWins | agent/mcp_server.py:94-107 | a repeated id keeps the record of its last result |
| PaperStore.FirstMatch | agent/mcp_server.py:178-190 | the scan finds nothing exactly when no listed directory holds the id; a found record is held by a listed directory |
| PaperStore.Store.StoreResults | agent/mcp_server.py:94-107 | the loop saves after every result; if the first save fails nothing changes; otherwise the topic holds the prior collection (empty if missing or corrupt) with each result written in order, and every id is collected |
| PaperStore.Store.SearchPapers | agent/mcp_server.py:94-110 | the reply is `"hi"` or the error that ended the call; with nothing fetched or a blocked directory nothing changes; otherwise the root exists, the topic's directory holds the upserted collection, no other entry changes, and a new directory is appended to the listing; the topic loads as the upserted collection and other topics as before |
| PaperStore.FirstMatchSpec | agent/mcp_server.py:178-190 | the scan finds nothing exactly when no directory holds the id, and otherwise the record of the first one that does |
| PaperStore.Store.ExtractInfo | agent/mcp_server.py:175-190 | a missing root gives the no-database message; otherwise the reply is the first match in listing order (skipping missing and corrupt files), or the no-information message |
| PaperStore.Folders | agent/mcp_server.py:206-209 | a name is a folder exactly when it is listed and is a directory; there are no more folders than listed names |
| PaperStore.FoldersAppend | agent/mcp_server.py:206-209 | the folders are filtered name by name: the folders of `a + b` are those of `a` then those of `b`, so they keep the listing order |
| PaperStore.FoldersDistinct | agent/mcp_server.py:206-209 | a listing without repeated names gives folders without repeated names |
| PaperStore.ListingLines | agent/mcp_server.py:200-216 | "No topics downloaded yet." appears exactly when there are no folders; otherwise one bullet per folder, in order, then the hint |
| PaperStore.Store.ListFolders | agent/mcp_server.py:197-218 | the listing of the folders, or of none when the root is missing; the folders it lists are distinct, as the root lists each entry once |
| PaperStore.Truncate | agent/mcp_server.py:244 | a summary of at most 700 characters is kept; a longer one becomes its first 700 characters followed by "..." |
| PaperStore.TruncateIdempotent | agent/mcp_server.py:244 | truncating twice is truncating once |
| PaperStore.TruncateUnchanged | agent/mcp_server.py:244 | a summary is shown unchanged exactly when it has at most 700 characters or is 703 characters ending in "..." |
| PaperStore.PaperBlock | agent/mcp_server.py:236-248 | a paper is presented in eleven lines; line 1 names its id and line 7 is its truncated summary |
| PaperStore.Blocks | agent/mcp_server.py:235-248 | the blocks take eleven lines per paper |
| PaperStore.BlocksAt | agent/mcp_server.py:235-248 | block k of the rendering presents the k-th paper |
| PaperStore.Heading | agent/mcp_server.py:229-234 | four heading lines; the third is "Total papers: " followed by decimal digits that read back as the count |
| PaperStore.PapersLinesCount | agent/mcp_server.py:229-248 | the rendering has a four-line heading with "Total papers: N", N the number of entries, and eleven lines per paper |
| PaperStore.PapersLinesBlock | agent/mcp_server.py:236-244 | block k names the k-th paper's id and shows its summary truncated |
| PaperStore.Store.TopicPapers | agent/mcp_server.py:222-249 | an empty collection gives the no-papers message; otherwise the heading followed by one block per paper in enumeration order |
| PaperStore.SaveLoadScenario | agent/mcp_server.py:59-75 | a record saved under "Convex Optimization" loads under "convex optimization", is found by its id, and its directory is listed |

## Findings

| source | as written | input that shows it | evidently intended | confidence | as-written member | corrected member |
|---|---|---|---|---|---|---|
| distillation/scripts/train_student.py:53-55 | the forward scan for the start token is bounded only by the number of tokens, so it runs on over the separator and padding tokens after the context, whose offset (0, 0) passes the `<= start_char` test | a feature with one context token at offsets (0, 5), followed by a separator and a padding token at (0, 0), and answer "abc" at character 2: start label 3 (padding), end label 1 | the scan stops at the last context token, giving start label 1 | not executed | SpanLabels.StartLabelPastWindow | SpanLabels.StartLabelInWindow |

`SpanLabels.LabelFeature` and `SpanLabels.LabelFeatures` take the scan bound as a parameter:
- `ToEnd` is the loop as written.
- `ToWindowEnd` is the corrected loop. `SpanLabels.StartLabelInWindow` proves that it keeps the start label inside the context window, and the end label too whenever the token before the window ends before the answer does, as the separator's (0, 0) offset does for a non-empty answer.

## Left out

- Unicode: `lower`, `title`, `split`, `strip` and `string.punctuation` are modelled on ASCII. Whitespace is 9-13, 28-31 and 32, as in `str.isspace`.
- Floating point: scores are exact reals, so rounding in `compute_f1` and `squad_evaluate` is not modelled.
- `squad_evaluate` takes the references as a sequence of (question id, gold) pairs in dictionary order. A gold is a list or a bare string. Other Python types for golds or predictions are not modelled.
- The JSON format, its indentation, and `json.dumps`: a papers file is `NoFile`, `Corrupt` or a stored collection, and `extract_info` answers the record itself rather than its JSON text.
- Valid JSON that is not a mapping, and papers files without the expected keys, are not modelled.
- I/O errors other than a plain file taking a topic directory's name are not modelled. Examples are permissions, a full disk, and a `papers_info.json` that is itself a directory.
- Slugs that are not a single directory name (empty, containing '/', or `..`) are treated as ordinary entry names. `PaperStore.PapersPathIffSlug` requires non-empty slugs without '/'.
- Directory listing order: the model fixes it as the store's `listing`, and new directories are appended; the real order is defined by the file system.
- The order in which `topic_papers` enumerates a collection is an input to `PaperStore.Store.TopicPapers` (a duplicate-free enumeration of its ids).
- The arXiv client and async iteration are inputs to `PaperStore.Store.SearchPapers`: the results received before the stream ended, and a flag saying whether it ended with an error. `datetime.utcnow()` becomes each result's `savedAt` field.
- Logging, `print`, the MCP server, its decorators and transport, the translation tools, the commented-out PubMed code and `generate_search_prompt` are not modelled.
- Concurrent tool calls racing on one papers file are not modelled; every operation runs alone.
- PaperStore.Store.SearchPapers: the collected ids are returned alongside the reply even when the call fails, although the Python function discards them.
- The tokenizer, the `inputs` dictionary and its `pop`/item assignment in `preprocess_function` are not modelled. The model takes the features (token ids, offsets, sequence ids, sample index) and the answers as inputs and returns the two label lists.
- The crash paths of the labelling loop are preconditions (`SpanLabels.Labellable`). They are:
  - no classifier token;
  - misaligned token lists;
  - an answered example without an answer text or a context token;
  - an end scan that would run below index 0.
  Python's negative-index wrap-around on that last path is not modelled.
- Model loading, tokenisation and generation in `predict`: the decoded output is an input string of `Prediction.ExtractAnswer`.
