# Mathaf Encyclopedia scraper: a verified model of the text pipeline

The repository is a family of near-identical Python scripts. Each one crawls
the Mathaf Encyclopedia site for artist biography pages, cuts out the
biography text of each page, runs a named-entity model on it, and writes one
CSV file of entity counts per page. Underneath the HTTP, HTML and NER
libraries, every script runs the same text pipeline. This project models that
pipeline once, in Dafny. Where the scripts differ, the difference becomes a
parameter, and each variant's rules are lemmas citing that variant's own file.

The modules follow the pipeline:

- `Text`: Python's `str.strip`, `str.split()`, `" ".join`, `str.find`,
  `str.count` (non-overlapping), `str.lower` and string order `<`.
- `Chunker`: the word-safe greedy chunker `split_into_chunks`. Also
  `chunk_text`, the fixed-width chunker of gliner2.py, with its 384-character
  rule.
- `Paragraphs`: gliner2.py's paragraph de-duplication loop, which builds
  `text` and `seen_text`.
- `Segmenter`: the two ways a biography is cut out of a page:
  - the phrase-bounded slice of `fetch_main_content_advanced`;
  - the structural walk over the siblings after the Biography `<h1>` up to the
    Exhibitions `<h1>`.
- `Crawler`: `crawl_page`'s href filter and the breadth-first crawl loop with
  its exclusion markers.
- `Years`: the two date rules `\b(18|19|20)\d{2}\b` and `\b\d{4}\b`, each as
  its first match.
- `Demonyms`: `is_it_a_nationality` in its two versions.
- `Normalizer`: `extract_entities` and its inline copies. Each NER span is
  classified into one of five sets, and each set is then sorted.
- `Counter`: occurrence counting and the CSV rows.
- `Pipelines`: the rule set of each script, the language choice of
  v3/trial.py, and the whole per-page step from spans to rows.
- `Sorting` and `Outcomes`: shared Python `sorted` over a set, and the
  Option, Result and error values.

A variant is a `Profile`:

- `PairScriptRules`: Web_scrapping_v2.py and v2/scraper.py.
- `TrialEnglishRules` and `ArabicRules`: v3/trial.py.
- `WebScrappingRules`: Web_scrapping.py.
- `VerbatimRules`: full_project.py.
- `FourDigitRules`: finalMain.py and CounterCode.py.
- NationalityFunction.py runs `VerbatimRules`, then the separate mapping pass
  `Normalizer.ResolveCountries`.

An exception the code raises becomes a `Failure` value. These include:

- the undefined `filename` in Web_scrapping.py;
- `text[0]` on an empty Person text in v3/trial.py;
- the language `ValueError` of v3/trial.py;
- the missing-phrase `ValueError` of v3/trial.py.

The external helpers `is_it_a_nationality` and `is_arabic_country` are
parameters of a `Setting`. So are `urljoin`, the link graph of the site, the
HTTP status and the page text.

Where the code and the specification of the system differ, the model follows the code:

- The crawl appends every link of a page to the queue, not only newly seen
  ones. Duplicates are skipped when they are dequeued.
- When the first word alone is longer than the chunk size,
  `split_into_chunks` emits an empty chunk first.
- Phrase-bounded slicing returns a sentinel sentence in v3/Web_scrapping.py
  but raises in v3/trial.py. Both behaviours are modelled, chosen by a
  `MissingPhrases` parameter.
- v3.1/finalMapping_v2.py's docstring promises `'False'` when nothing
  matches. The code falls through and returns `None`, and
  `Demonyms.CheckedNationality` gives `None` there.

## Model

| member | source | states |
|---|---|---|
| Text.StripLeft | Web_scrapping_v2.py:50 | the result is a suffix of the input, it does not start with whitespace, and only whitespace was removed |
| Text.StripRight | Web_scrapping_v2.py:50 | the result is a prefix of the input, it does not end with whitespace, and only whitespace was removed |
| Text.Strip | v3/Web_scrapping.py:53 | the stripped text neither starts nor ends with whitespace |
| Text.Split | v3/Web_scrapping.py:17 | `str.split()` yields only non-empty words without whitespace |
| Text.SplitJoin | v3/Web_scrapping.py:17-32 | splitting a single-space join of words gives back exactly those words |
| Text.JoinSnoc | v3/Web_scrapping.py:23 | joining words plus one more word appends a space and that word (nothing when the list was empty) |
| Text.SplitWordThen | v3/Web_scrapping.py:17 | a word followed by whitespace splits into that word and the split of the rest |
| Text.Find | v3/Web_scrapping.py:48-49 | `str.find` returns the leftmost match at or after `start`, or -1 exactly when there is none |
| Text.Lower | Web_scrapping_v2.py:53 | lower-casing keeps the length |
| Text.LessIrreflexive | Web_scrapping_v2.py:72 | string order is irreflexive |
| Text.LessTransitive | Web_scrapping_v2.py:72 | string order is transitive |
| Text.LessTotal | Web_scrapping_v2.py:72 | any two distinct strings are ordered one way or the other |
| Sorting.LeastExists | Web_scrapping_v2.py:72-76 | a non-empty set under a strict total order has a least element |
| Sorting.SortSet | Web_scrapping_v2.py:72-76 | `sorted` of a set lists every element exactly once, in ascending order |
| Sorting.SortedUnique | Web_scrapping_v2.py:72-76 | there is only one ascending duplicate-free listing of a set, so the sorted output is determined |
| Chunker.WordsOfGroups | v3/Web_scrapping.py:25-32 | when every chunk splits into its word group, the chunks' words are the groups concatenated |
| Chunker.StructInvariant | v3/Web_scrapping.py:21-28 | after each word, the closed chunks are the joins of their groups, and groups plus open chunk are the words read so far |
| Chunker.BoundsInvariant | v3/Web_scrapping.py:21-28 | after each word, every group of two or more words, and the open chunk, joins within the chunk size |
| Chunker.ShapeInvariant | v3/Web_scrapping.py:21-28 | after each word, only the first group can be empty, exactly when the first word alone was too long, and the open chunk is non-empty once a word was read |
| Chunker.GreedyInvariant | v3/Web_scrapping.py:21-28 | after each word, each closed group plus the next group's first word would have exceeded the chunk size |
| Chunker.PackingDone | v3/Web_scrapping.py:30-32 | closing the last non-empty chunk keeps every word, in order |
| Chunker.PackResult | v3/Web_scrapping.py:17-34 | once the open chunk is closed, the final state satisfies all seven clauses of `WordSafeChunks` listed for `SplitIntoChunks` |
| Chunker.SplitIntoChunks | v3/Web_scrapping.py:9-34 | the chunks' words are exactly `content.split()`; each chunk is a single-space join; only a one-word chunk may be longer than `chunk_size`; an empty chunk appears only first and exactly when the first word is too long; packing is greedy; no words gives no chunks |
| Chunker.SlicesConcat | gliner2.py:32-33 | the fixed-width slices concatenate back to the text |
| Chunker.SlicesCount | gliner2.py:32-33 | the number of slices is the ceiling of length over width (zero for empty text) |
| Chunker.SlicesLengths | gliner2.py:32-33 | every slice is non-empty and at most the width; all but the last are exactly the width |
| Chunker.ChunkText | gliner2.py:32-33 | `chunk_text` fails on width 0 (the zero `range` step), gives `[]` on a negative width, and otherwise reproduces the text in slices of the stated lengths and number |
| Chunker.GlinerChunks | gliner2.py:35-39 | text of at most 384 characters stays one chunk, even when empty; longer text is cut into 384-character slices that concatenate back to it |
| Paragraphs.StripAll | gliner2.py:21 | one text per paragraph, none dropped; no text starts or ends with whitespace, and each is its paragraph's text stripped |
| Paragraphs.KeptMembers | gliner2.py:23-26 | a paragraph is kept exactly when it is non-empty and occurs in the page |
| Paragraphs.KeptNoRepeats | gliner2.py:24-25 | no kept paragraph appears twice |
| Paragraphs.KeptOrder | gliner2.py:17-26 | kept paragraphs appear in the order of their first occurrence |
| Paragraphs.CollectText | gliner2.py:17-26 | the loop's `text` is the kept paragraphs each followed by a blank line, and `seen_text` holds exactly the kept paragraphs |
| Segmenter.PhraseSlice | v3/Web_scrapping.py:48-53 | a slice exists exactly when both `find` calls succeed; it is the stripped text from the first start phrase up to the first end phrase at or after it |
| Segmenter.PhraseSliceNone | v3/Web_scrapping.py:48-52 | there is no slice exactly when the start phrase is absent, or no end phrase follows its first occurrence |
| Segmenter.SamePhraseIsEmpty | v3/Web_scrapping.py:48-53 | with equal start and end phrases, the slice is empty whenever the phrase occurs |
| Segmenter.FetchMainContentAdvanced | v3/Web_scrapping.py:37-58 | a non-200 status fails; missing phrases give the sentinel sentence (v3/trial.py:52-53 raises instead); otherwise the result satisfies all seven clauses of `WordSafeChunks` for the slice's words and chunk size 500 |
| Segmenter.FindHeader | Web_scrapping_v2.py:135-136 | `soup.find` returns the first `<h1>` whose text contains the word, or nothing when none does |
| Segmenter.StopIndex | Web_scrapping_v2.py:143-146 | the walk stops at the first next sibling equal as a tag (name, text, attributes) to the Exhibitions header, or at the end |
| Segmenter.ParagraphTextsMembers | Web_scrapping_v2.py:147-148 | a text is collected exactly when it is the text of a `<p>` next sibling in the walked range |
| Segmenter.BiographyMembers | Web_scrapping_v2.py:135-148 | with both headers found, a text is in the biography exactly when it is a `<p>` sibling after the Biography header and no sibling equal as a tag to the Exhibitions header comes before it |
| Segmenter.WalkMembers | Web_scrapping_v2.py:143-148 | the walk from a header collects exactly the `<p>` siblings that come before the first stop sibling |
| Segmenter.StopUnderOtherParent | Web_scrapping_v2.py:135-148 | a copy of the Exhibitions header among the Biography header's siblings ends the walk even when the header found first sits under another parent, so only the paragraph before the copy is collected |
| Segmenter.StopBeyond | Web_scrapping_v2.py:143-146 | a sibling with no stop sibling before it lies inside the walked range |
| Segmenter.StopAt | Web_scrapping_v2.py:143-146 | the first stop sibling, or the end, is where the walk stops |
| Segmenter.BiographyFound | Web_scrapping_v2.py:141-148 | with both headers found, the biography is the walk from the Biography header to the Exhibitions header |
| Segmenter.BiographyContent | Web_scrapping_v2.py:134-148 | the loop computes the biography content; it is `[]` when either header is missing |
| Segmenter.SiblingParagraphs | Web_scrapping_v2.py:143-148 | the sibling loop collects the `<p>` texts up to the stop sibling |
| Crawler.BioLinksMembers | Web_scrapping_v2.py:88-93 | a link is returned exactly when it is the join of an href holding `/bios/Pages` |
| Crawler.CrawlPage | Web_scrapping_v2.py:81-99 | a request error or HTTP error status gives `[]`; otherwise the joined marker hrefs, in document order |
| Crawler.SkipStep | v3/Web_scrapping.py:82-83 | dequeuing an already visited URL keeps the crawl invariant |
| Crawler.VisitStep | v3/Web_scrapping.py:87-95 | crawling a new URL, marking it visited, enqueueing all its links and collecting it if it is a target keeps the crawl invariant |
| Crawler.ReachStep | v3/Web_scrapping.py:80-89 | everything visited or queued stays within every link-closed set that holds the seed |
| Crawler.Crawl | v3/Web_scrapping.py:74-95 | the visiting order is exactly `Bfs`, the order of `pop(0)` and `extend`; each URL is crawled at most once, starting with the seed; the collected URLs are exactly the visited targets, once each, in visiting order; the links of every visited page, excluded ones included, were followed; only pages reachable from the seed are visited |
| Crawler.LinksInUniverse | v3/Web_scrapping.py:87-89 | every link of a page is a URL a crawl from the seed can meet |
| Crawler.BfsStart | v3/Web_scrapping.py:75-79 | before the loop, with the seed alone queued, nothing is visited and all of `Bfs` is to come |
| Crawler.BfsSkip | v3/Web_scrapping.py:80-83 | dequeuing a visited URL leaves the rest of the `Bfs` order unchanged |
| Crawler.BfsVisit | v3/Web_scrapping.py:80-89 | visiting a new head moves it from the rest of the `Bfs` order to the order so far, with its links queued at the back |
| Crawler.BfsDone | v3/Web_scrapping.py:79 | with the queue empty, the order so far is the whole `Bfs` order |
| Crawler.BfsExample | v3/Web_scrapping.py:79-89 | a seed linking to `a/x` then `b/x` is visited first, then `a/x`, then `b/x` |
| Crawler.LoopStart | v3/Web_scrapping.py:75-79 | the loop invariant holds with the seed alone queued and nothing visited or collected |
| Crawler.LoopSkip | v3/Web_scrapping.py:80-83 | dequeuing a visited URL keeps the loop invariant: crawl state, reach and the rest of the `Bfs` order |
| Crawler.LoopVisit | v3/Web_scrapping.py:80-95 | visiting a new URL, queueing its links and collecting it exactly when it is a target keeps the loop invariant and leaves fewer URLs unvisited |
| Crawler.LoopDone | v3/Web_scrapping.py:79-95 | with the queue empty, the order is `Bfs`, the seed came first, each URL once, the collected URLs are the visited targets once each in visiting order, every visited page's links were visited, and only pages reachable from the seed were |
| Crawler.CrawlDone | v3/Web_scrapping.py:79-95 | once the queue is empty, the seed was visited first, the collected URLs are the visited targets once each, and every visited page's links were visited |
| Crawler.TargetsNoDup | v3/Web_scrapping.py:92-95 | filtering a duplicate-free visiting order gives a duplicate-free list of exactly the visited targets |
| Crawler.DefaultExclusionsMean | v3/Web_scrapping.py:92-95 | a URL is collected exactly when it holds the path and neither `init=` nor `default` |
| Crawler.InitExclusionsMean | full_project.py:104-108 | a URL is collected exactly when it holds the path and not `init=`, so `default` pages are kept |
| Years.SearchFrom | Web_scrapping_v2.py:63 | the search finds the leftmost match at or after the position, or reports none exactly when there is none |
| Years.FirstYear | Web_scrapping_v2.py:63-65 | `re.search` fails exactly when no position matches; otherwise it gives the four characters of the leftmost match |
| Years.FirstYearShape | Web_scrapping_v2.py:63-65 | a found year is four digits, starting 18, 19 or 20 under the century rule |
| Years.CenturyImpliesAnyFour | finalMain.py:74 | a century-rule match is also a four-digit-rule match |
| Years.FirstYearIdempotent | Web_scrapping_v2.py:63-65 | extracting the year from an extracted year gives it back |
| Years.FirstYearAt | Web_scrapping_v2.py:63 | the leftmost matching position decides the result |
| Years.ExampleSentence | Web_scrapping_v2.py:63 | "in 1987." yields 1987 |
| Years.ExampleNoYear | Web_scrapping_v2.py:63-64 | a text without digits yields nothing |
| Years.ExampleLeadingZeros | finalMain.py:74-76 | 0042 is kept by the four-digit rule and rejected by the century rule |
| Years.ExampleNoBoundary | finalMain.py:74 | five digits in a row hold no standalone four-digit number |
| Years.ValueInjective | Web_scrapping_v2.py:74 | equal-length digit strings with the same `int` value are equal, so the integer sort of years is a strict order |
| Demonyms.IsItANationality | finalMapping.py:14-20 | `False` exactly when no row matches; otherwise the Country of the first row whose lower-cased male or female demonym contains the lower-cased query |
| Demonyms.FirstMatchDecides | finalMapping.py:16-19 | the first matching row in file order decides the result |
| Demonyms.LowerIdempotent | finalMapping.py:17 | lower-casing twice is lower-casing once |
| Demonyms.CaseInsensitive | finalMapping.py:17-18 | queries that differ only in letter case give the same result |
| Demonyms.LoweredQuery | finalMapping.py:17-18 | a lower-cased query gives the same result |
| Demonyms.EmptyQueryMatchesFirst | finalMapping.py:17-19 | the empty query matches the first row |
| Demonyms.ExampleFrench | finalMapping.py:17-19 | "french" matches a row whose demonym is "French" |
| Demonyms.ExamplePartialQuery | finalMapping.py:17-19 | a prefix of a demonym matches too, since the test is substring containment |
| Demonyms.CheckedNationality | v3.1/finalMapping_v2.py:14-31 | a missing file gives the not-found message; a header without both demonym columns gives the missing-columns message before any row is read |
| Demonyms.SearchRowsAgrees | v3.1/finalMapping_v2.py:22-27 | on well-formed rows, the search of the checked version is the first-match search (`None` when nothing matches) |
| Demonyms.CheckedAgrees | v3.1/finalMapping_v2.py:19-27 | with both demonym columns present and well-formed rows, the checked version returns what the first version returns |
| Demonyms.ExampleShortRow | v3.1/finalMapping_v2.py:24-31 | a row with a missing demonym value gives the error string of the failing `.lower()` |
| Demonyms.ExampleNoCountryColumn | v3.1/finalMapping_v2.py:26-31 | a matching row without a Country column gives the error string of the missing key |
| Normalizer.OrElse | Web_scrapping_v2.py:59 | `lookup or text` is the lookup result when it is a non-empty string, and the text otherwise |
| Normalizer.ClassifyEnglish | v3/trial.py:93-107 | a kept span has the label of its category; a kept date is four digits; the only errors are `text[0]` on an empty Person text and the undefined lookup name |
| Normalizer.ClassifyArabic | v3/trial.py:109-125 | a kept span has the label of its category, a kept date is four digits, and nothing raises |
| Normalizer.Classify | Web_scrapping_v2.py:48-69 | under any profile, a kept span has its category's label, and a kept date is four digits |
| Normalizer.BucketMembers | Web_scrapping_v2.py:48-69 | a pair is in a category's set exactly when some span is classified into that category with that text and carries that label |
| Normalizer.BucketShape | Web_scrapping_v2.py:56-69 | every pair of a set carries the category's label, and every date is four digits |
| Normalizer.FirstRaiseExtends | Web_scrapping.py:48-53 | once a prefix of the spans raises, the whole loop raises the same error |
| Normalizer.FirstRaiseMeans | Web_scrapping.py:48-53 | the loop raises exactly when some span raises, and then with the first such span's error |
| Normalizer.BucketOrdered | Web_scrapping_v2.py:72-76 | the sort keys are a strict total order on each set: text, or the year's integer value for dates |
| Normalizer.SortBucket | Web_scrapping_v2.py:72-76 | each sorted list holds exactly its set's pairs, once each, ascending by its key |
| Normalizer.Collect | Web_scrapping_v2.py:48-69 | the loop raises the first span's error, or fills the five sets with exactly the classified pairs |
| Normalizer.ExtractEntities | Web_scrapping_v2.py:35-78 | fails exactly when some span raises, with the first error; otherwise each of the five lists holds exactly its category's pairs, without duplicates, in ascending key order |
| Normalizer.SortedTexts | Web_scrapping.py:65-69 | the texts of a sorted list are duplicate-free and are exactly the set's texts; outside dates they ascend by text |
| Normalizer.ResolveCountries | NationalityFunction.py:80-87 | `valid_countries` holds exactly the lookup result or the country itself for each raw country, and is no larger than the raw set |
| Normalizer.ResolvedSize | NationalityFunction.py:80-87 | mapping can merge countries but never adds one |
| Normalizer.MappedBucket | NationalityFunction.py:67-87 | mapping the raw country set afterwards equals mapping each span inline |
| Normalizer.ResolveAfterEqualsInline | NationalityFunction.py:80-87 | the verbatim-then-mapped countries are the countries of the inline rule of finalMain.py:70-72 |
| Pipelines.PronounDropped | Web_scrapping_v2.py:53-57 | a Person span whose lower-cased text is a pronoun is dropped under every English rule set |
| Pipelines.PersonKept | Web_scrapping_v2.py:56-57 | under every English rule set with the not-a-pronoun Person rule, any other Person span is kept as its stripped text |
| Pipelines.TrialPersonRule | v3/trial.py:95-96 | an empty Person text raises `IndexError`; otherwise it is kept exactly when it starts with a capital and is not a pronoun |
| Pipelines.CountryMapped | Web_scrapping_v2.py:58-60 | a Country span stores the lookup result when it is a non-empty string, and the stripped text otherwise |
| Pipelines.CountryVerbatim | full_project.py:43-44 | a Country span stores its stripped text |
| Pipelines.CountryRaises | Web_scrapping.py:51-53 | a Country span raises `NameError` for the undefined `filename` |
| Pipelines.OnlyCountryRaises | Web_scrapping.py:48-62 | in Web_scrapping.py no other label raises |
| Pipelines.RaiseAt | Web_scrapping.py:48-53 | a raising span with no raise before it ends the loop with its error |
| Pipelines.CountryRaisesNameError | Web_scrapping.py:48-53 | the first Country span makes the whole extraction raise `NameError` |
| Pipelines.DateRule | Web_scrapping_v2.py:61-65 | a Date span contributes only the first year match, or nothing |
| Pipelines.LeadingZeroDate | finalMain.py:73-76 | 0042 is kept as a date by finalMain.py and dropped by Web_scrapping_v2.py |
| Pipelines.PlacesAndOthers | Web_scrapping_v2.py:66-69 | Place and City texts are kept as they are; spans with any other label produce nothing |
| Pipelines.ArabicFilter | v3/trial.py:110-120 | name, state, place and city spans without an Arabic character are dropped; date spans follow the century rule; a state with Arabic text is kept as it is |
| Pipelines.ArabicCountryCity | v3/trial.py:123-125 | a city with Arabic text is dropped exactly when `is_arabic_country` holds |
| Pipelines.SelectLanguage | v3/trial.py:65-77 | a recognised URL selects the English or Arabic rules; otherwise the language `ValueError` |
| Pipelines.SelectLanguageCases | v3/trial.py:65-77 | `/en/` (case-insensitive) selects English with threshold 0.5 and wins over `/ar/`; `/ar/` alone selects Arabic with 0.6; the error occurs exactly when neither appears |
| Pipelines.SelectLanguageIgnoresCase | v3/trial.py:65-69 | the choice ignores letter case |
| Pipelines.KeptPairsMembers | Web_scrapping_v2.py:157 | the counted union holds exactly the pairs some span was classified into |
| Pipelines.KeptByMembers | Web_scrapping_v2.py:157 | the union of the five sets holds exactly the pairs some span was classified into, whatever the classifier |
| Pipelines.AllEntriesKept | Web_scrapping_v2.py:151-157 | the union of the five sorted lists is the set of kept pairs |
| Pipelines.ProcessPairPage | Web_scrapping_v2.py:151-187 | fails exactly when extraction raises, with the first error raised; otherwise writes one row per kept `(entity, label)` and a row for each, each with the page link and the summed count of its text, in `(entity, label)` order |
| Pipelines.ProcessTrialPage | v3/trial.py:138-159 | an unrecognised URL fails; otherwise the page fails exactly when extraction under the selected rules raises, with the first error raised, and on success writes one row per kept pair and a row for each, each with the page link and the summed count of its text, in `(entity, label)` order |
| Pipelines.ProcessTextPage | Web_scrapping.py:140-168 | fails exactly when extraction raises, with the first error raised; otherwise one row per kept text, counted, sorted by text, with the link on the first row only |
| Pipelines.TextRowsFewer | Web_scrapping.py:145 | keying by text alone never gives more rows than keying by pair |
| Counter.CountPositive | Web_scrapping_v2.py:161 | `count` is positive exactly when the entity occurs in the chunk |
| Counter.CountFits | Web_scrapping_v2.py:161 | non-overlapping occurrences fit in the chunk: count times length is at most the chunk's length |
| Counter.ExampleNonOverlapping | Web_scrapping_v2.py:161 | "aa" occurs twice in "aaaa", not three times |
| Counter.ExampleInsideWord | Web_scrapping_v2.py:161 | "Art" is counted inside "Artist" |
| Counter.TotalCountPositive | Web_scrapping_v2.py:161 | the summed count is positive exactly when some chunk contains the entity |
| Counter.TotalCountAppend | Web_scrapping_v2.py:161 | the summed count over two lists of chunks is the sum of their counts |
| Counter.TwoChunks | Web_scrapping_v2.py:161 | over two chunks, the total is the two counts added |
| Counter.ExampleTwoChunks | Web_scrapping_v2.py:161 | an entity once in each of two chunks counts 2 |
| Counter.FirstChunkOnce | Web_scrapping_v2.py:161 | the first sample chunk holds the entity once |
| Counter.SecondChunkOnce | Web_scrapping_v2.py:161 | the second sample chunk holds the entity once |
| Counter.ParisOnce | Web_scrapping_v2.py:161 | a text with one occurrence whose first letter appears nowhere else counts once |
| Counter.NoStart | Web_scrapping_v2.py:161 | no occurrence starts at a position without the first character |
| Counter.CountAt | Web_scrapping_v2.py:161 | a single occurrence with no other match counts once |
| Counter.CountSkip | Web_scrapping_v2.py:161 | positions without a match do not change the count |
| Counter.CountEntities | Web_scrapping_v2.py:159-166 | the counter has exactly the kept keys, each with the summed count of its text |
| Counter.TextKeysFewer | Web_scrapping.py:145 | there are no more distinct texts than distinct pairs |
| Counter.ExampleTextCollapse | Web_scrapping.py:145 | the same name as Person and City is two pairs but one text |
| Counter.PairOrder | Web_scrapping_v2.py:173 | tuple order on `(entity, label)` is a strict total order |
| Counter.TextOrder | Web_scrapping.py:152 | string order is a strict total order |
| Counter.SortPairs | Web_scrapping_v2.py:173 | the keys are listed once each, ascending by `(entity, label)` |
| Counter.SortStrings | Web_scrapping.py:152 | the keys are listed once each, ascending by text |
| Counter.LabelledRows | Web_scrapping_v2.py:173-185 | one row per key, each `[bio_url, entity, label, count]` with that key's count, in key order |
| Counter.WriteLabelled | Web_scrapping_v2.py:182-185 | the loop writes row j from key j and its count |
| Counter.PlainRows | Web_scrapping.py:152-168 | one row per text, in text order, the link on the first row and `''` on the rest |
| Counter.WritePlain | Web_scrapping.py:162-168 | the `link_written` loop writes the link in row 0 only |

## Left out

- HTTP (`requests.get`, `raise_for_status`, `requests_cache`) and folder creation: the status code, the page text and a request failure are inputs.
- HTML parsing with BeautifulSoup and boilerpy3: a page is a sequence of element records (tag, text, attributes and the index of the parent element), in document order, and BeautifulSoup's `==` on tags becomes `Segmenter.SameTag`: the same name, attributes and text, wherever the tags sit. The text stands for the contents, so two tags whose children differ in markup but not in text count as equal.
- `urljoin`: reference resolution per section 5.2 of RFC 3986 is an uninterpreted function parameter.
- The NER model (`predict_entities`, GLiNER, spaCy) with its float scores: the spans of a page are an input. The thresholds are kept only as hundredths (50 and 60).
- `is_arabic_country` is not part of this model. It and `is_it_a_nationality` are function parameters of the normalizer. v3/trial.py:4 imports `is_arabic_country` from finalMapping, but finalMapping.py does not define it, so that import fails as shipped; the model assumes a working helper.
- mapping.py, imported by finalMain.py, NationalityFunction.py and CounterCode.py, is not part of this model. Those scripts use the finalMapping.py lookup here.
- CSV reading and writing and the file encodings: only the row sequences are modelled. A demonym file is a header and a sequence of records.
- Word clouds and graphs (finalWordCloud.py, v3/finalWordCloud.py, v3/graphs.py): rendering only.
- The command-line drivers v3.1/web_scrapping_v3.py and v3.3/web_scrapping_v3.py: `input()` prompts and printed exceptions.
- v3/finalCrawling.py and v3.2/finalCrawling.py: thin request wrappers whose href filter is `Crawler.CrawlPage`.
- gliner_scrpit.py and script.py: library calls, and the same de-duplication loop as `Paragraphs.CollectText`.
- Timing, `print` output, and CounterCode.py's printing of its unsorted counts.
- v3/Web_scrapping.py lines 119-236 repeat lines 1-118 verbatim, so only the first copy is modelled.
- The per-page processing of v3/Web_scrapping.py (line 110): it calls `scrape_bio_page` with three arguments, but v2/scraper.py defines it with two. That call would raise, and the exception is caught and printed.
- The `int(count)` and `isinstance(count, int)` guards of Web_scrapping_v2.py:163-187 always succeed on a sum of counts, so they are not modelled.
- Python's `str.find` with a negative start: v3/Web_scrapping.py:49 passes -1 only when the start phrase is missing, and then the result is unused.
- Unicode: `str.lower`, `isupper`, `\b`, `\d` and `\w` are modelled on ASCII letters, digits and word characters. Whitespace is Python's full `isspace` set.
- Demonyms.CheckedNationality: its `ensures` states only the two early error returns. The agreement with the first-match search is the separate lemma `Demonyms.CheckedAgrees`, and the row-level exception returns are examples.
