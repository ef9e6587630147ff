# Reexarizer in Dafny

Reexarizer is a Next.js web app that summarises text with a hosted language
model. This project models its core and proves properties of the model:

- **The API route** (`Reexarizer`) checks the request. It builds the
  instruction prompt from the text and the options (language, style, target
  length, keywords, custom instructions). It hands the prompt to the backend
  and normalises the raw output: whitespace is collapsed, echoed
  `=== SUMMARY ===` headers and `summary:` labels are stripped, and in bullet
  style the text becomes one `• ` line per fragment.
- **The summariser page** (`Summarize`, with `Keywords`) holds the page
  state:
  - the text;
  - keyword chips extracted by word frequency, with JavaScript's property
    order and stable sort;
  - the mode, target length, language and custom prompt;
  - the summary, cleaned after each request;
  - a history of at most ten items, newest first;
  - the word and sentence counters.
- **The summary context** (`SummaryContext`) is a shared state provider. It
  posts the same request with a different body. A JSON reply sets the summary
  and is appended to an unbounded history; a non-JSON reply changes nothing.
  As written, every request gets a non-JSON reply (see Findings).
- **Two prototype components** (`Result`, `SummaryComponent`, both over
  `Mock`) summarise locally. The mock summary is the text before the first
  `.`, cut to 1000 characters, with `...` appended only when something was
  cut. They also show word, sentence and character counters.

The shared modules hold the JavaScript semantics the core depends on:

- `Strings`: the `\s` whitespace class, `trim`, `split` on a character class
  (empty pieces kept), joins, ASCII lower-casing, and decimal rendering of
  numbers.
- `Ordering`: the stable descending sort and `filter`.
- `Wrappers`: `Option`.

The backend is a parameter `generate` that maps a prompt to the chunks it
streams back, or to `None` when the call throws. The page and the context
receive the outcome of their `fetch` as a `Reply` parameter. `ReplyOf`
connects a `Reply` to the route's `Handle`. `Date.now()` and the clipboard
are also parameters.

## Model

| member | source | states |
|---|---|---|
| Reexarizer.Handle | pages/api/reexarizer.js:3-83 | 405 exactly for a method other than POST; 400 exactly for POST with a present, blank `text`; 200 exactly when the text is present and not blank and the backend answers. The payload is a summary exactly on 200, and that summary is the normalisation of the joined chunks for the requested style. A 500 error object exactly when the text is present and not blank and the backend fails; the uncaught-exception page (status 500) exactly for POST without `text`. |
| Reexarizer.GuardsPrecedeBackend | pages/api/reexarizer.js:4-13 | When the method is not POST or the text is absent or blank, the response is the same for every backend. Its status is 400, 405 or 500, and it never carries a summary. |
| Reexarizer.ReplyOf | pages/api/reexarizer.js:78-81 | What a `fetch` caller sees: no JSON exactly for the uncaught-exception page, and a `summary` property exactly for a 200 reply. |
| Reexarizer.PromptDirectives | pages/api/reexarizer.js:20-37 | The prompt opens with the fixed preamble, followed by the language, style and length rules for the given options. |
| Reexarizer.PromptStyle | pages/api/reexarizer.js:26-34 | After the language rule, the prompt asks for clear bullet points, each starting with `• `, exactly when the style is `bullet`. For any other style it asks for a clean paragraph of well-structured sentences. |
| Reexarizer.PromptEndsWithText | pages/api/reexarizer.js:40-43 | The prompt ends with the `=== TEXT ===` marker line, the text verbatim, and the closing indentation. |
| Reexarizer.PromptTextIsLast | pages/api/reexarizer.js:20-43 | The prompt for any text is the prompt for the empty text with that text spliced in before the closing indentation, so nothing before it depends on the text. |
| Reexarizer.PromptCustomLine | pages/api/reexarizer.js:38-39 | The line after the keyword line is `Custom Instructions: ` plus the custom prompt when one is set, and empty otherwise. |
| Reexarizer.KeywordListNone | pages/api/reexarizer.js:38 | The keyword list reads `none` exactly when the `", "` join is empty: no keywords, or a single empty keyword. |
| Reexarizer.StripHeaders | pages/api/reexarizer.js:65 | Removing `=== SUMMARY ===` matches only drops characters: the result's multiset is contained in the input's. |
| Reexarizer.StripHeadersNoEquals | pages/api/reexarizer.js:65 | Text without `=` is left unchanged by the header removal. |
| Reexarizer.StripHeadersRemoves | pages/api/reexarizer.js:65 | The first `=== SUMMARY ===` match, in any casing, is removed when the text before it has no `=`. That text is kept and the removal goes on in the text after the match. |
| Reexarizer.SummaryLabelAt | pages/api/reexarizer.js:66 | A `summary\s*:` match at the start is at least 8 characters and fits in the string. |
| Reexarizer.StripSummaryLabels | pages/api/reexarizer.js:66 | Removing `summary\s*:` matches only drops characters. |
| Reexarizer.StripLabelsNoS | pages/api/reexarizer.js:66 | Text without `s` or `S` holds no label and is left unchanged. |
| Reexarizer.StripLabelsShort | pages/api/reexarizer.js:66 | Text shorter than `summary` is left unchanged. |
| Reexarizer.StripLabelsRemoves | pages/api/reexarizer.js:66 | The first `summary` label, in any casing and with any whitespace before its colon, is removed when the text before it has no `s` or `S`. That text is kept and the removal goes on in the text after the label. |
| Reexarizer.Clean | pages/api/reexarizer.js:59-67 | The cleaned output has no whitespace at either end and only plain spaces inside; a removed label can leave two in a row. |
| Reexarizer.CleanNotIdempotent | pages/api/reexarizer.js:61-67 | The cleanup is not idempotent: it turns `summarysummary::` into `summary:`, and a second pass turns that into the empty string. |
| Reexarizer.TrimAll | pages/api/reexarizer.js:72 | Each line is trimmed, and the number of lines is kept. |
| Reexarizer.Fragments | pages/api/reexarizer.js:71-73 | Every fragment is non-empty and trimmed, and holds no newline, hyphen or bullet. |
| Reexarizer.MarkAll | pages/api/reexarizer.js:74 | Each line is marked with a bullet unless it already starts with one, and the number of lines is kept. |
| Reexarizer.MarkFragments | pages/api/reexarizer.js:71-74 | A fragment never starts with a bullet, so each marked fragment is `• ` plus the fragment, with no newline. |
| Reexarizer.NormalizeBullets | pages/api/reexarizer.js:69-76 | The bullet result is empty exactly when there are no fragments. Otherwise its newline-separated lines are, in order, `• ` followed by each fragment. |
| Reexarizer.NormalizeParagraph | pages/api/reexarizer.js:59-67 | A non-bullet result has no whitespace at either end and no line break. |
| Keywords.KeepWordsAndSpaces | pages/components/Summarize.tsx:33 | `replace(/[^\w\s]/gi, "")` keeps only word characters and whitespace and never lengthens the text. |
| Keywords.KeepBlank | pages/components/Summarize.tsx:33 | Stripping leaves a blank string exactly when the input holds no word character. |
| Keywords.Tokens | pages/components/Summarize.tsx:31-35 | Every token is a non-empty run of lower-case ASCII letters, digits and `_`. |
| Keywords.TokensEmpty | pages/components/Summarize.tsx:31-35 | There are no tokens exactly when the text holds no word character. |
| Keywords.Frequencies | pages/components/Summarize.tsx:36-37 | `freq` has a property exactly for each token, holding that token's number of occurrences. |
| Keywords.FirstOccurrences | pages/components/Summarize.tsx:36-37 | The property insertion order lists each token once, and lists every token. |
| Keywords.FirstOccurrencesPrefix | pages/components/Summarize.tsx:36-37 | Insertion order is first-seen order: the keys of any prefix of the tokens are a prefix of the keys of all the tokens. |
| Keywords.CountWords | pages/components/Summarize.tsx:36-37 | The `forEach` loop produces exactly `Frequencies` and the first-occurrence order. |
| Keywords.EntryOrder | pages/components/Summarize.tsx:38 | `Object.entries` lists a permutation of the property names. |
| Keywords.EntryOrderIndicesFirst | pages/components/Summarize.tsx:38 | Array-index names come before every other name, in ascending numeric order. |
| Keywords.EntryOrderOthers | pages/components/Summarize.tsx:38 | The other property names keep their insertion order. |
| Keywords.EntriesOf | pages/components/Summarize.tsx:38 | Each entry pairs a property name with its count, in the given name order. |
| Keywords.KeysCounted | pages/components/Summarize.tsx:36-38 | Every listed property name is a counted token. |
| Keywords.CountedEntriesCounts | pages/components/Summarize.tsx:36-38 | Each entry is a token together with its number of occurrences. |
| Keywords.CountedEntriesCover | pages/components/Summarize.tsx:36-38 | Every token has an entry. |
| Keywords.CountedEntriesUnique | pages/components/Summarize.tsx:36-38 | No token has two entries. |
| Keywords.RankedFacts | pages/components/Summarize.tsx:38-39 | After the sort, each entry still pairs a token with its count; the entries are ordered by non-increasing count; none is lost or repeated. |
| Keywords.TopTieOrder | pages/components/Summarize.tsx:38-40 | Among entries with equal counts, the chosen ones are the first such entries in `Object.entries` order (the sort is stable). |
| Keywords.Activate | pages/components/Summarize.tsx:41 | Each entry becomes an active chip with the entry's word. |
| Keywords.ChosenIsTop | pages/components/Summarize.tsx:38-41 | There are `min(limit, #entries)` chips, and they are the first ranked entries' words, all active. |
| Keywords.ChosenShape | pages/components/Summarize.tsx:38-41 | At most `limit` chips; all active; words from the list; no word repeated; ordered by non-increasing count. |
| Keywords.ExtractedShape | pages/components/Summarize.tsx:30-43 | The same for a text: every chip word is a token, and chips are ordered by non-increasing occurrences in the text. |
| Keywords.ChosenComplete | pages/components/Summarize.tsx:38-41 | A word that was left out means all `limit` places are taken, each by a word that occurs at least as often. |
| Keywords.ExtractedComplete | pages/components/Summarize.tsx:30-43 | A token of the text that was left out means all `limit` places are taken, each by a word that occurs at least as often. |
| Keywords.ChosenEmpty | pages/components/Summarize.tsx:38-41 | No chips exactly when `limit` is 0 or there are no words. |
| Keywords.ExtractedEmpty | pages/components/Summarize.tsx:30-43 | No chips exactly when `limit` is 0 or the text holds no word character. |
| Keywords.ExtractKeywords | pages/components/Summarize.tsx:30-43 | The whole pipeline returns exactly `Extracted(text, limit)`, the value the lemmas above describe. |
| Summarize.FormatSummaryIsSquash | pages/components/Summarize.tsx:66-72 | The line-break normalisation in `formatSummary` never fires, because the collapse before it has already turned every line break into a space. |
| Summarize.CleanReplyIsSquash | pages/components/Summarize.tsx:144-149 | Both modes keep the same cleanup of the reply: collapse whitespace, then trim. |
| Summarize.CleanReplyShape | pages/components/Summarize.tsx:144-149 | The kept summary has single spaces, no whitespace at either end and no line break. |
| Summarize.CleanReplyIdempotent | pages/components/Summarize.tsx:144-149 | Cleaning a kept summary again changes nothing. |
| Summarize.BulletLinesJoined | pages/components/Summarize.tsx:145-146 | In Bullet mode the page joins the route's bullet lines into one line, whatever the backend says. |
| Summarize.StyleOf | pages/components/Summarize.tsx:129-134 | The style sent is `bullet` exactly in Bullet mode, and `paragraph` otherwise. |
| Summarize.ActiveWordsAppend | pages/components/Summarize.tsx:137 | The words sent keep the chips' order. |
| Summarize.ActiveWordsMember | pages/components/Summarize.tsx:137 | A word is sent exactly when some active chip carries it. |
| Summarize.RequestCustomLine | pages/components/Summarize.tsx:138 | The prompt carries a custom-instructions line only in Custom mode with a non-empty custom prompt. |
| Summarize.PageReply | pages/components/Summarize.tsx:124-142 | The page's reply is always JSON. It carries a summary exactly when the text is not blank and the backend answers, and that summary is the route's normalised output for the page's style. |
| Summarize.Toggle | pages/components/Summarize.tsx:115-119 | Chips keep their words and positions; exactly the chips with the given word flip. |
| Summarize.ToggleTwice | pages/components/Summarize.tsx:115-119 | Toggling the same word twice restores the chips. |
| Summarize.PushHistory | pages/components/Summarize.tsx:159 | The new item comes first, followed by the newest previous items, with at most ten in all. |
| Summarize.Reverse | pages/components/Summarize.tsx:159 | Reverses the sequence. It is the reference order for `PushHistoryNewest`. |
| Summarize.PushHistoryNewest | pages/components/Summarize.tsx:159 | Pushing item after item onto an empty history keeps exactly the ten newest, newest first. |
| Summarize.DeleteByIdFacts | pages/components/Summarize.tsx:178-179 | Deleting removes exactly the items with the id; kept and removed items together are the old history. |
| Summarize.DeleteByIdAppend | pages/components/Summarize.tsx:178-179 | Deleting keeps the order of the remaining items. |
| Summarize.DeleteAbsentId | pages/components/Summarize.tsx:178-179 | An id that no item carries leaves the history unchanged. |
| Summarize.DeleteByIdTwice | pages/components/Summarize.tsx:178-179 | Deleting the same id twice is the same as deleting it once. |
| Summarize.ItemIdsCollide | pages/components/Summarize.tsx:154 | Two items share an id exactly when they were made in the same millisecond. |
| Summarize.WordCountZero | pages/components/Summarize.tsx:183-184 | The word counters are 0 exactly for blank text. |
| Summarize.SentenceCountZero | pages/components/Summarize.tsx:185 | The sentence counter is 0 exactly when every character is `.`, `!` or `?`. |
| Summarize.SummarizePage.constructor | pages/components/Summarize.tsx:48-64 | The initial state: Paragraph mode, length 50, English, everything else empty. |
| Summarize.SummarizePage.TextChange | pages/components/Summarize.tsx:85-90 | The text is the new value; in Paragraph mode the chips are re-extracted from it; nothing else changes. |
| Summarize.SummarizePage.Paste | pages/components/Summarize.tsx:107-113 | The text gains a newline and the clipboard. In Paragraph mode the chips come from the clipboard alone. |
| Summarize.SummarizePage.KeywordToggle | pages/components/Summarize.tsx:115-119 | The chips are toggled and nothing else changes. |
| Summarize.SummarizePage.Summarize | pages/components/Summarize.tsx:121-165 | On a JSON reply with a summary, the summary is cleaned for the mode and an item is pushed onto the history, which stays within ten items. On any other reply only `loading` changes. `loading` ends false. |
| Summarize.SummarizePage.DeleteHistory | pages/components/Summarize.tsx:178-179 | The history loses exactly the items with the id and stays within ten. |
| Summarize.SummarizePage.ClearHistory | pages/components/Summarize.tsx:181 | The history becomes empty and nothing else changes. |
| Summarize.SummarizePage.ClearKeywords | pages/components/Summarize.tsx:375 | The chips become empty and nothing else changes. |
| Summarize.SummarizePage.Reset | pages/components/Summarize.tsx:436-440 | The summary, text, chips and custom prompt become empty, and nothing else changes. |
| SummaryContext.SentRequestFails | context/SummaryContext.tsx:63-74 | As written, the route answers every request from the context with the uncaught-exception page, whatever the backend, so the reply is not JSON. |
| SummaryContext.IntendedRequestSucceeds | context/SummaryContext.tsx:63-76 | With the text sent under `text`, the reply is JSON. It carries a summary exactly when the input is not blank and the backend answers, and that summary is the route's normalised output. |
| SummaryContext.SummaryProvider.constructor | context/SummaryContext.tsx:40-50 | The initial state: English, paragraph style, length 50, everything else empty. |
| SummaryContext.SummaryProvider.GenerateSummary | context/SummaryContext.tsx:58-92 | Nothing changes for an empty input. Otherwise a JSON reply sets the summary (absent for an error object) and appends an entry with the current settings at the end of the history; a non-JSON reply changes nothing but `loading`; `loading` ends false. |
| SummaryContext.SummaryProvider.ClearHistory | context/SummaryContext.tsx:95 | The history becomes empty and nothing else changes. |
| Mock.FirstSegment | components/Result.tsx:32 | The first segment is the longest prefix without `.`: it is a prefix of the text, contains no `.`, and is followed by `.` when shorter than the text. |
| Mock.MockSummaryFacts | components/Result.tsx:32-35 | The mock summary is at most 1003 characters. It is a prefix of the text exactly when the first segment fits in 1000 characters. In that case it is the first segment itself. Otherwise it is the first 1000 characters followed by `...`, and only then does it end with `...` or contain a `.`. A text of at most 1000 characters without `.` is its own summary. |
| Mock.WordsCountFacts | components/Result.tsx:17-19 | `wordsCount` equals the number of whitespace-separated words, and is 0 exactly for blank text. |
| Mock.SentencesCountZero | components/Result.tsx:20 | `sentencesCount` is 0 exactly when every character is `.` or whitespace. |
| Result.ResultPanel.constructor | components/Result.tsx:11-14 | Everything starts empty or false. |
| Result.ResultPanel.Summarize | components/Result.tsx:26-39 | Nothing changes for an empty paragraph; otherwise the summary is the mock summary and loading ends false. |
| Result.ResultPanel.CopyText | components/Result.tsx:41-45 | Nothing changes for an empty summary; otherwise the summary is marked copied. |
| SummaryComponent.SummaryPanel.constructor | components/SummaryComponent.tsx:4-7 | Everything starts empty or false. |
| SummaryComponent.SummaryPanel.CharacterCount | components/SummaryComponent.tsx:8 | The counter is at most 1000 and at most the length; it equals the length exactly when the length is at most 1000, and is 1000 otherwise. |
| SummaryComponent.SummaryPanel.Edit | components/SummaryComponent.tsx:71 | The text area stores the value as typed, with no cap, and nothing else changes. |
| SummaryComponent.SummaryPanel.Change | components/SummaryComponent.tsx:37-44 | The paragraph is the first `min(length, 1000)` characters of the value, so the counter shows its whole length; the summary and the copied flag are cleared. |
| SummaryComponent.SummaryPanel.Summarize | components/SummaryComponent.tsx:15-30 | Nothing changes for an empty paragraph; otherwise the summary is the mock summary and loading ends false. |
| SummaryComponent.SummaryPanel.CopyText | components/SummaryComponent.tsx:32-35 | The summary is marked copied, even when empty. |
| Strings.TrimEmpty | pages/api/reexarizer.js:11 | `trim()` returns the empty string exactly when the text is all whitespace. |
| Strings.Squash | pages/api/reexarizer.js:61 | `replace(/\s+/g, " ").trim()` yields single plain spaces, no whitespace at either end, and no line break. |
| Strings.SquashIdempotent | pages/components/Summarize.tsx:148 | Collapsing and trimming twice is the same as doing it once. |
| Strings.SquashEmpty | pages/components/Summarize.tsx:148 | Collapsing and trimming gives the empty string exactly for an all-whitespace reply. |
| Strings.TrimIdempotent | pages/api/reexarizer.js:11 | Trimming twice is the same as trimming once. |
| Strings.SplitJoin | pages/api/reexarizer.js:71-75 | Splitting a join on a separator character gives the parts back when no part holds a separator: the bullet lines can be read back from the joined result. |
| Strings.WordsOfTrim | components/Result.tsx:17-19 | Splitting the trimmed text on whitespace runs gives the same words as splitting the text and dropping empty pieces, when the trimmed text is not empty. |
| Strings.NatToStringRoundTrip | pages/components/Summarize.tsx:154 | The decimal rendering of a number reads back as that number. |
| Ordering.SortSorted | pages/components/Summarize.tsx:39 | The sort by `b[1] - a[1]` orders by non-increasing count. |
| Ordering.SortStable | pages/components/Summarize.tsx:39 | The sort is stable: the elements with any one count keep their input order. |
| Ordering.FilterPartition | pages/components/Summarize.tsx:179 | Filtering by a test and by its negation splits the elements between the two results. |

## Left out

- The network and the backend: the language-model call, its client and its sampling parameters are a parameter `generate`. The page's and the context's `fetch` results are `Reply` parameters.
- `Date.now()`, the clipboard, `localStorage`, `FileReader`, `mammoth` (`.docx` upload), `saveAs` (download) and `console.error` are not modelled. The values they supply are parameters.
- Summarize.SummarizePage.Valid: history loaded from `localStorage` on mount is not modelled, so the ten-item bound is proved only for the page's own handlers.
- Summarize.SummarizePage.TextChange: states the new chips as `Extracted`, the specification function that `Keywords.ExtractKeywords` is proved to compute, rather than calling that method.
- Summarize.SummarizePage.Summarize: takes the reply rather than the backend; `Summarize.PageReply` connects the two.
- `setTimeout` delays are not modelled: the copied-flag reset after two seconds, and the two-second mock latency (the mock summary is set when the handler runs).
- `handleCopy`, `handleDownload`, `handleRefresh` (page reload) and `handleFileUpload`: I/O only.
- The plain setters (`setMode`, `setLength`, `setLanguage`, `setCustomPrompt`, `setSelectedHistory` and the context's setters) are not modelled: each assigns one field.
- Concurrency of overlapping asynchronous requests is not modelled; each request is one atomic step.
- Keywords.Frequencies: counts `constructor` and `__proto__` like other tokens. In the source, `freq` is a plain `{}`: `__proto__` gets no property, and the `constructor` property holds a string built from the inherited `Object` function.
- Keywords.FirstOccurrences: lists `__proto__` at its first occurrence; in the source that name never becomes a property of `freq`.
- Keywords.CountWords: the loop is proved equal to `Frequencies`, which does not hold in the source for the tokens `constructor` and `__proto__`.
- Keywords.CountedEntriesCounts: states a count for every entry; in the source the `constructor` entry holds a string.
- Keywords.CountedEntriesCover: gives every token an entry; in the source `__proto__` has none.
- Keywords.RankedFacts: the ordering by count does not hold in the source when `constructor` is a token: the comparator returns NaN for that entry, and the resulting order depends on the engine's sort.
- Keywords.ChosenShape: the chips are not ordered by count in the source when `constructor` is a token, e.g. `["constructor", "b", "b"]` with limit 2.
- Keywords.ChosenComplete: in the source, with `constructor` among the tokens, a less frequent word can displace a more frequent one, e.g. `["constructor", "b", "b"]` with limit 1.
- Keywords.ChosenEmpty: in the source the tokens `["__proto__"]` give no chips although there is a word.
- Keywords.ExtractedShape: the same gap at the text level: `constructor b b` is not ordered by count in the source.
- Keywords.ExtractedComplete: the same gap at the text level: `constructor b b` with limit 1 gives `constructor`, not `b`, in the source.
- Keywords.ExtractedEmpty: in the source the text `__proto__` gives no chips although it holds word characters.
- Keywords.ExtractKeywords: equals `Extracted` only for texts without the tokens `constructor` and `__proto__`; the names inherited from `Object.prototype` are not modelled, because the order produced by a sort whose comparator returns NaN is left to the engine.
- Keywords.TopTieOrder: the order among equal counts follows `Object.entries` only for texts without the token `constructor`. With it, the comparator returns NaN for that entry and the order is left to the engine's sort.
- Strings.Lower: `toLowerCase` is modelled for ASCII letters only. Other letters are kept as they are, so their lower-casing and the `\w` stripping that follows are not modelled.
- Strings are sequences of Unicode scalar values, not UTF-16 code units: `length` and `slice(0, 1000)` count characters, and a cut inside a surrogate pair is not modelled.
- Reexarizer.Normalize: a bullet summary for a reply such as `Summary: A. \n- B\n- C` is not proved as a concrete case. `NormalizeBullets` states the general shape.
- Reexarizer.Clean: no idempotence is stated, because the cleanup is not idempotent (`Reexarizer.CleanNotIdempotent`): on `summarysummary::` one pass removes the inner label and leaves a new `summary:` for a second pass.
- Reexarizer.Handle: the route's `String(output)` for a non-array backend result is not modelled; the backend always returns chunks.
- The context's unused `Replicate` client and the `useSummary` hook are not modelled.
- Result.ResultPanel: nothing in the component ever sets `paragraph`, so its summarise handler never gets past the empty-paragraph guard in practice. The model still states both branches.

## Findings

| source | as written | input that shows it | evidently intended | confidence | as-written member | corrected member |
|---|---|---|---|---|---|---|
| context/SummaryContext.tsx:66-74 | The body sends the input under `inputText`, but the route reads `text` (pages/api/reexarizer.js:8-11). So `text.trim()` throws outside the `try`, the route answers with the uncaught-exception page, `res.json()` throws, and no summary or history entry is ever recorded. | any non-empty `inputText`, any backend | send the input as `text`, so a non-blank input reaches the backend and its normalised summary comes back | not executed | SummaryContext.SentRequestFails | SummaryContext.IntendedRequestSucceeds |
