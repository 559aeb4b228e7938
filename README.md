# Static pagination detection, modelled in Dafny

This project models `detectStaticPagination` from `src/index.ts`. The function takes the HTML of a page and the page's own URL, and finds the groups of links that look like numbered pagination. It works in four steps.

1. **Candidate extraction.** For every `<a>` element with a non-empty `href` that resolves against the page URL, and whose trimmed text contains a digit, each maximal run of ASCII digits in the absolute URL gives one candidate. The candidate's URL template is the URL with that run replaced by `{page}`, and its page number is the run's value.
2. **Grouping.** Candidates are grouped by template in an insertion-ordered map.
3. **Page sets.** A group with fewer than two distinct page numbers is dropped. Otherwise its pages are deduplicated by URL, keeping the first occurrence. The current page is read by matching the page URL against the template: the template's first `{page}` stands for one or more digits, and a failed match gives 1.
4. **Plausibility filter.** A group is emitted when either signal holds:
   - some page sits inside an element whose lower-cased `id` or `class` contains `pagination`;
   - some page's trimmed text is exactly the decimal string of its page number.

Modules, in dependency order:

- `Wrappers`: `Option` and `Result`.
- `Text`: digits and numerals, ECMAScript whitespace and trimming, ASCII lower-casing, substring search.
- `DigitScan`: the matches of the digit pattern as maximal runs.
- `Candidates`: anchors, candidates, the specification of extraction and grouping, and the imperative loops that build the template map.
- `PageSet`: the distinct page numbers, deduplication by URL, the current page.
- `Plausibility`: the structural and text signals.
- `Detector`: the whole pipeline, as the function `Detect` and as the method `DetectStaticPagination`, and its end-to-end properties.

Some things are inputs to the model rather than computed by it:

- The HTML parser is not modelled. Each `<a>` element is an `Anchor` value holding its raw `href`, its `innerText`, and the `id` and `class` attributes of the element and of each ancestor, in `parentNode` order.
- URL resolution is a `Resolver` parameter that returns `None` where the resolving constructor throws.
- Whether the page's own URL parses is the boolean `baseValid`.

The map that the source mutates in place is modelled as an insertion order `seq<string>` plus a `map<string, seq<Candidate>>`. The methods that build it are proved, through the invariant `Candidates.GroupsHold`, to produce the map that the specification functions `Templates` and `GroupOf` describe.

## Model

| member | source | states |
|---|---|---|
| Text.DecimalString | src/index.ts:124 | a page number's decimal string is a canonical numeral (digits only, no leading zero) whose value is the number; it starts with '0' only for 0 |
| Text.CanonicalRoundTrip | src/index.ts:55 | reading a canonical numeral and printing it back gives the same string |
| Text.DecimalStringIff | src/index.ts:124 | a text equals the decimal string of n exactly when it is a canonical numeral whose value is n |
| Text.LeadingZeroNotReproduced | src/index.ts:55 | a leading zero does not change the value read but is never printed back, so a text like "03" can never equal the number's string |
| Text.Trim | src/index.ts:42 | trimming yields a slice of the input with only whitespace cut away at both ends, and no whitespace left at either end |
| Text.TrimIdempotent | src/index.ts:124 | trimming an already trimmed text changes nothing |
| Text.IndexOfFrom | src/index.ts:93 | the search gives the leftmost occurrence at or after the start, or None when there is none |
| DigitScan.RunsFrom | src/index.ts:45-46 | every match found from a position is a maximal digit run at or after it, and the matches are strictly ordered and disjoint |
| DigitScan.DigitRuns | src/index.ts:45-46 | the matches of the global digit pattern are maximal digit runs in left-to-right order |
| DigitScan.RunsFromComplete | src/index.ts:45-46 | every digit at or after the search position lies inside one of the matches found |
| DigitScan.DigitRunsExact | src/index.ts:45-46 | a run is matched exactly when it is a maximal run of digits of the URL |
| Candidates.AnchorCandidatesSpec | src/index.ts:31-64 | an anchor yields nothing when its href is missing or empty, its href does not resolve, or its trimmed text is empty or holds no digit; otherwise it yields one candidate per maximal digit run in run order, each with template = prefix + "{page}" + suffix and the run's value as page number |
| Candidates.AllCandidatesWellFormed | src/index.ts:42-64 | every candidate comes from a maximal digit run of its URL and carries a trimmed text that holds a digit |
| Candidates.PushUrlCandidates | src/index.ts:48-71 | pushing one URL's candidates into the template map yields the map of the candidates seen so far followed by that URL's candidates |
| Candidates.PushKeepsGroups | src/index.ts:66-70 | creating a missing key with an empty group and then appending the candidate keeps the map equal to the grouping of the extended candidate list |
| Candidates.CollectCandidateGroups | src/index.ts:29-72 | the loop over anchors builds exactly the insertion-ordered grouping of all candidates |
| Candidates.SameUrlSamePage | src/index.ts:48-55 | two candidates with the same template and the same URL come from the same digit run and so carry the same page number |
| Candidates.TemplatesSpec | src/index.ts:66-68 | the map's keys are exactly the templates of the candidates, each key once |
| Candidates.TemplatesPrefix | src/index.ts:66-68 | keys are only ever appended: the keys after the first n candidates are a prefix of the final keys |
| Candidates.GroupOfMembers | src/index.ts:70 | a template's group holds exactly the candidates with that template |
| Candidates.GroupOfAbsent | src/index.ts:66-67 | a template not yet among the keys has an empty group |
| PageSet.DedupByUrl | src/index.ts:80-88 | the loop with the seen-URL set computes the first-occurrence deduplication of the group |
| PageSet.UniqueByUrlKeepsUrls | src/index.ts:80-88 | deduplication keeps every URL of the group and adds none |
| PageSet.UniqueByUrlSpec | src/index.ts:80-88 | the kept pages are exactly the candidates at the first occurrences of their URLs, in group order |
| PageSet.LastKept | src/index.ts:84-86 | the last candidate is kept exactly when its URL was not seen before it |
| PageSet.UniqueByUrlDistinct | src/index.ts:80-88 | the kept pages' URLs are pairwise distinct |
| PageSet.FirstPlaceholder | src/index.ts:91-93 | the first "{page}" in prefix + "{page}" + suffix is the one after prefix when prefix has none of its own |
| PageSet.CurrentPageSpec | src/index.ts:91-103 | the current page is d when the page URL is the template's prefix, a non-empty numeral of value d, and its suffix; otherwise it is 1 |
| PageSet.CurrentPageWithoutPlaceholder | src/index.ts:91-103 | a template without "{page}" never captures a number, so the current page is 1 |
| PageSet.CurrentPageOfOwnUrl | src/index.ts:91-103 | matching a candidate's own URL against its template gives back that candidate's page number, when no literal "{page}" precedes the run |
| Plausibility.FindPaginationAncestor | src/index.ts:114-121 | the walk up the ancestors answers true exactly when some element on the chain has "pagination" in its lower-cased id or class |
| Plausibility.PassesStructureCheck | src/index.ts:113-122 | the structural signal holds exactly when some page's element chain has a marked element |
| Plausibility.PassesTextMatchIff | src/index.ts:124 | the text signal holds exactly when some page's text is a canonical numeral equal to its page number |
| Detector.BuildResults | src/index.ts:74-131 | the loop over the map's entries emits, in key order, the result of every group that has at least two distinct page numbers and passes a signal |
| Detector.DetectStaticPagination | src/index.ts:16-132 | the entry point computes the detection function: a failure for an invalid page URL, otherwise the list of results |
| Detector.PageOfCandidate | src/index.ts:77-88 | the page kept for a candidate's URL carries that candidate's page number |
| Detector.TwoDistinctPages | src/index.ts:77-88 | a group whose page-number set has size at least two keeps, after deduplication, two pages with different numbers |
| Detector.PagesRebuild | src/index.ts:42-88 | every kept page's URL is its template with its own digit run put back, and its text is trimmed and holds a digit |
| Detector.GroupResultWellFormed | src/index.ts:76-128 | an emitted result has at least two pages with distinct page numbers and distinct URLs, pages rebuilt from its template, a passing signal, and the current page read from the page URL |
| Detector.ResultsForPrefix | src/index.ts:76 | the results of a prefix of the keys form a prefix of the results |
| Detector.ResultsForSpec | src/index.ts:76-128 | over distinct keys, every result is its own key's group result, a key has a result exactly when its group yields one, and no key has two |
| Detector.ResultsWellFormed | src/index.ts:76-128 | every emitted result is well formed, belongs to a candidate template, and carries the current page for that template |
| Detector.ResultsExactly | src/index.ts:76-128 | a template is emitted exactly when its group has at least two distinct page numbers and its deduplicated pages pass the structural or the text signal, and it is emitted at most once |
| Detector.ResultsInDocumentOrder | src/index.ts:66-76 | results follow the order in which their templates first appear in the document |
| Detector.DetectSpec | src/index.ts:16-17 | an invalid page URL is the only failure; otherwise the results are those of the templates in order of first appearance, each well formed |

## Left out

- HTML parsing (`parse`, `querySelectorAll`, `innerText`) is not modelled: anchors come in as values with their attributes and ancestor chain already extracted.
- URL resolution and serialisation (`new URL(href, base).toString()`) is an opaque `Resolver` parameter, and the validity of the page URL is the boolean `baseValid`, because the WHATWG URL parser is outside this core.
- Element identity is not modelled: a page's `element` is represented by the `id`/`class` attributes of the element and its ancestors, which is all the filter reads.
- The regular expression built from the escaped template is modelled by its meaning: a literal prefix up to the first `{page}`, one or more ASCII digits, and the literal suffix, anchored at both ends. Escaping makes every other character literal, and `\{page\}` in the escaped string can only come from a literal `{page}`.
- Text.NumberValue: page numbers are unbounded naturals. The model does not capture that `parseInt` rounds digit strings above 2^53 to the nearest double. The `isNaN` guards are therefore unreachable, because a digit run always parses.
- Text.DecimalString: agrees with `toString` only for page numbers up to 2^53. Above that, `toString` writes the shortest digits that read back as the same double (2^60 prints as "1152921504606847000", not its exact decimal), and from 10^21 on it uses exponent form; neither is modelled, so for such numbers the text signal of src/index.ts:124 may hold in the model where it fails in the source.
- Text.ToLower: lower-casing is ASCII only, because non-ASCII case mapping does not change whether the ASCII word "pagination" occurs.
- Text.IsWhitespace: covers the ECMAScript white-space and line-terminator code points of the Basic Multilingual Plane. Model strings are sequences of Unicode scalar values, not UTF-16 code units, so a lone surrogate cannot be represented and positions past a non-BMP character differ from JavaScript string indices. None of this changes what the core computes: digit runs, trimming, the "pagination" search and the text comparison at src/index.ts:124 involve only ASCII or BMP characters.
