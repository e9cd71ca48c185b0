# Site search: scoring, recent searches and the page index

This project models the client-side search of a React blog shell and proves
properties of the model. The search has three parts:

- **The index builder** (`src/utils/pageContentIndexer.js`) has two sources.
  - Five fixed navigation entries.
  - The documents extracted from the rendered page: navigation links, headings with the section text after them, content blocks, sidebar lines and buttons.
  - Static entries come first. Later documents whose lower-cased, trimmed title repeats an earlier one are dropped. When extraction fails, only the fixed entries are used.
- **The ranker** (`searchContent` in `src/utils/searchIndex.js`).
  - It lower-cases, trims and splits the query into terms and scores every document against every term with fixed weights.
  - It keeps the documents scoring above zero, stable-sorts them by descending score and returns the first ten.
- **The recent-search store** (`src/utils/searchIndex.js`). It holds at most five entries, newest first, with one entry per query (compared case-insensitively). Entries can be removed by timestamp. The store also produces two fixed suggestions.

Modules:

| module | models |
|---|---|
| `Text` | The JavaScript string operations the code uses, over `seq<char>`: the `\s` class, `trim`, ASCII `toLowerCase`, `split(/\s+/)` with its empty pieces, `includes`, `startsWith`, the global literal match count, `join(' ')` and decimal rendering. |
| `Seqs` | `slice(0, n)`, `filter`, subsequence and pairwise predicates. |
| `Documents` | The searchable document record and its `type` tag. |
| `PageExtraction` | `indexPageContent` over an abstract page. The page is the node lists the selectors pick, each node already reduced to its extracted text. The five extraction loops are methods, each proved equal to a function. |
| `Unique` | The `seen`-set de-duplication, generic in element and key. |
| `DocumentStore` | `getStaticNavigationItems` and `getAllSearchableContent`. |
| `SearchIndex` | The scoring loops, `searchContent`, the filter / stable sort / top-ten pipeline and `getSuggestedSearches`. |
| `RecentSearches` | The recent-search store, as a class over the storage slot. |

The model follows the code as written. Three consequences of it are worth knowing:

- The heading loop tests for a following heading of the same or a shallower level only after stepping to the next sibling. So the sibling right after a heading is always gathered, even when it is itself such a heading (`PageExtraction.FirstSiblingGathered`).
- A query that is not blank always yields at least one term. So the second emptiness test (`terms.length === 0`, `src/utils/searchIndex.js:27`) never fires (`SearchIndex.RankByTerms`).
- The result list is sorted by score, so in general it is not a subsequence of the index. What holds is this: documents with the same score appear in index order, and no document appears more often than the index holds it.

## Model

| member | source | states |
|---|---|---|
| Text.TrimEmptyIff | src/utils/searchIndex.js:19 | `trim` gives the empty string exactly when the string is all whitespace |
| Text.TrimFacts | src/utils/searchIndex.js:24 | the trimmed string is a contiguous slice of the input that neither starts nor ends with whitespace, and everything cut off before and after it is whitespace |
| Text.NonEmptySplit | src/utils/searchIndex.js:25 | dropping the empty pieces of `split(/\s+/)` leaves exactly the maximal runs of non-whitespace |
| Text.TokensShape | src/utils/searchIndex.js:25 | every run is non-empty and holds no whitespace |
| Text.SplitWordsInside | src/utils/searchIndex.js:55 | every piece of a whitespace split occurs in the split string |
| Text.SplitWordsOfWord | src/utils/searchIndex.js:55 | a non-empty string without whitespace splits into itself alone |
| Text.CountPositiveIff | src/utils/searchIndex.js:66-70 | the global literal match count is positive exactly when the pattern occurs |
| Text.ContainsTransitive | src/utils/searchIndex.js:60 | a pattern found in a piece of a string is found in the string |
| Text.DecimalDigits | src/utils/pageContentIndexer.js:127 | the rendering of an index in a template literal consists of decimal digits |
| SearchIndex.TermsShape | src/utils/searchIndex.js:24-27 | every query term is non-empty and has no whitespace; a query that is not blank yields at least one term |
| SearchIndex.RankByTerms | src/utils/searchIndex.js:19-27 | a blank query ranks nothing; any other query ranks by its terms, which are never empty |
| SearchIndex.WordBonusOf | src/utils/searchIndex.js:55-63 | the inner loop over title words adds 25 per word starting with the term and 15 per word containing it |
| SearchIndex.ScoreItem | src/utils/searchIndex.js:30-73 | the scoring loop computes the sum over terms of what each term earns |
| SearchIndex.ScoreTerm | src/utils/searchIndex.js:36-71 | one term earns 100 for an equal title or else 50 for a title containing it, 30 for the keywords and 10 for the content containing it, the word bonuses, 5 per title occurrence and 1 per content occurrence |
| SearchIndex.ScoreAll | src/utils/searchIndex.js:30-74 | the mapping pass pairs every document, in order, with its score |
| SearchIndex.WordsBonusPositive | src/utils/searchIndex.js:55-63 | the word bonus is positive exactly when some title word contains the term |
| SearchIndex.TitleScorePositive | src/utils/searchIndex.js:38-69 | a term earns title points exactly when the lowered title contains it |
| SearchIndex.TermScorePositive | src/utils/searchIndex.js:36-71 | a term earns points exactly when the title, the joined keywords or the content contains it |
| SearchIndex.TermsScorePositive | src/utils/searchIndex.js:36-71 | the summed score over terms is positive exactly when some term matches a field |
| SearchIndex.AnyMatchExists | src/utils/searchIndex.js:36-71 | some term matches, as the recursion over terms states it, exactly when there is an index of a matching term |
| SearchIndex.ScorePositiveIff | src/utils/searchIndex.js:30-75 | the `score > 0` filter keeps exactly the documents in which some term occurs in the title, keywords or content |
| SearchIndex.ExactTitleScore | src/utils/searchIndex.js:38-69 | a title equal to a one-word term earns 145: 100 (not the 50 as well), 25 and 15 for its word, 5 for one occurrence |
| SearchIndex.InsertSorted | src/utils/searchIndex.js:76 | inserting into a list sorted by descending score keeps it sorted |
| SearchIndex.InsertWithScore | src/utils/searchIndex.js:76 | an inserted element goes after every element of its own score |
| SearchIndex.InsertBehindWithScore | src/utils/searchIndex.js:76 | an element placed behind a head of at least its score keeps the head's place among the elements of each score |
| SearchIndex.InsertInFrontWithScore | src/utils/searchIndex.js:76 | an element placed before a sorted list of lower scores comes last among the elements of its own score |
| SearchIndex.SortByScoreSorted | src/utils/searchIndex.js:76 | the sort yields non-increasing scores |
| SearchIndex.SortByScoreStable | src/utils/searchIndex.js:76 | the sort keeps documents of equal score in their input order |
| SearchIndex.SortByScoreCorrect | src/utils/searchIndex.js:76 | the sort is sorted and stable for every score |
| SearchIndex.PositiveFacts | src/utils/searchIndex.js:75 | the filter keeps only positive scores, invents nothing and keeps every positive-score group in order |
| SearchIndex.RankedPrefix | src/utils/searchIndex.js:75-77 | at most ten results, best first, drawn from the matches |
| SearchIndex.RankedShape | src/utils/searchIndex.js:73-77 | each result is a document of the index with its own positive score; no document appears more often than the index holds it |
| SearchIndex.RankedOrderAndCutoff | src/utils/searchIndex.js:75-77 | the results of each score are the first matches of that score in index order; all of them appear when fewer than ten match or the score beats the last result; the count is the smaller of ten and the number of matches |
| SearchIndex.SearchContent | src/utils/searchIndex.js:18-80 | `searchContent` returns the ranking of the query over the index built from the page |
| SearchIndex.SuggestedTitles | src/utils/searchIndex.js:124-134 | the two suggestions are Home (`#home`) and Categories (`#categories`) |
| SearchIndex.SuggestedInEveryIndex | src/utils/searchIndex.js:124-134 | the suggestions are the projections of the first two documents of every index |
| RecentSearches.RecentStore.GetRecentSearches | src/utils/searchIndex.js:85-92 | an empty or unreadable slot reads as no entries |
| RecentSearches.RecentStore.Save | src/utils/searchIndex.js:97-119 | a successful write stores the new entry followed by the other queries' entries, cut to five; a failing write changes nothing; a valid list stays valid |
| RecentSearches.RecentStore.Remove | src/utils/searchIndex.js:139-148 | a successful write stores and returns the entries with another timestamp; a failing write returns no entries and changes nothing; a valid list stays valid |
| RecentSearches.SavedShape | src/utils/searchIndex.js:100-114 | after saving, the new entry is first; the rest are earlier entries in their order, none with the same query case-insensitively; at most five entries |
| RecentSearches.SavedValid | src/utils/searchIndex.js:109-114 | saving keeps queries pairwise distinct and the list within five |
| RecentSearches.SavedKeeps | src/utils/searchIndex.js:109-114 | below capacity, every earlier entry with another query survives a save |
| RecentSearches.SavedTwice | src/utils/searchIndex.js:109-114 | saving the same query twice equals saving it once with the later entry |
| RecentSearches.RemovedShape | src/utils/searchIndex.js:142 | removal keeps, in order, exactly the entries with another timestamp and preserves validity |
| RecentSearches.SaveThenRemove | src/utils/searchIndex.js:142-144 | removing a just-saved entry with a fresh timestamp leaves the other queries' entries minus any evicted by the save |
| Seqs.FilterSubseq | src/utils/searchIndex.js:109-111 | a filter keeps elements in order and invents none |
| Seqs.FilterPairwise | src/utils/searchIndex.js:142 | a filter keeps any pairwise relation of the list |
| PageExtraction.LinkTarget | src/utils/pageContentIndexer.js:43 | a link targets its `href` when that is non-empty, else its `data-href` when that is non-empty, else `#`; never empty |
| PageExtraction.IndexLinks | src/utils/pageContentIndexer.js:41-57 | the link loop adds one navigation document per link with non-blank text |
| PageExtraction.NavItemShape | src/utils/pageContentIndexer.js:41-56 | a link adds a document exactly when its trimmed text is not blank; the document is `nav-item-<index>`, a navigation entry of category Page titled by that text, with `Navigate to <text>` as content, the link's target as `href` and the whitespace split of the lowered text as keywords |
| PageExtraction.GatherSection | src/utils/pageContentIndexer.js:66-83 | the gathering loop computes the section text after a heading |
| PageExtraction.GatherBound | src/utils/pageContentIndexer.js:68-70 | gathering stops once 200 characters are held, so it exceeds the limit by at most one sibling's text and space |
| PageExtraction.GatherStopsAtSection | src/utils/pageContentIndexer.js:77-82 | nothing at or after a later heading of the same or a shallower level is gathered |
| PageExtraction.FirstSiblingGathered | src/utils/pageContentIndexer.js:70-82 | the sibling right after the heading is always gathered, even when it ends the section |
| PageExtraction.HyphenateShape | src/utils/pageContentIndexer.js:88 | replacing whitespace runs by hyphens leaves no whitespace and changes nothing without whitespace |
| PageExtraction.HyphenateSplits | src/utils/pageContentIndexer.js:88 | replacing every whitespace run by one hyphen equals splitting on whitespace runs and joining the pieces with hyphens |
| PageExtraction.HeadingIdShape | src/utils/pageContentIndexer.js:86-90 | a generated id is `heading-<index>-` followed by the first 20 characters (or all, when fewer) of the hyphenated lower-cased text, which hold no whitespace; a short single word is kept whole |
| PageExtraction.HeadingItemShape | src/utils/pageContentIndexer.js:81-101 | a heading adds a document exactly when its trimmed text is not blank; the document is titled by that text, keeps the heading's own id when it has one, links to `#` plus its id, has the upper-cased tag as category, the trimmed section as content (the title when the section is blank) and the whitespace split of the lowered title as keywords |
| PageExtraction.IndexHeading | src/utils/pageContentIndexer.js:62-101 | a heading with blank text adds nothing; otherwise it adds one document with the gathered section |
| PageExtraction.IndexHeadings | src/utils/pageContentIndexer.js:61-103 | the heading loop adds the documents of the headings in order |
| PageExtraction.UntilTerminator | src/utils/pageContentIndexer.js:120 | the first sentence is the longest prefix of the text without `.`, `!` or `?`: it ends at the first terminator or at the end of the text |
| PageExtraction.ContentTitleShape | src/utils/pageContentIndexer.js:120-127 | the title of a content block is never empty: the trimmed first sentence itself when it has 1 to 60 characters, its first 60 characters plus `...` when longer, `Content <index+1>` when it is empty |
| PageExtraction.LongWordsKept | src/utils/pageContentIndexer.js:132 | the kept words are the words of more than three characters, each kept as often as it occurs, in their order; no other word is kept |
| PageExtraction.ContentItemShape | src/utils/pageContentIndexer.js:125-133 | the added document is `content-<index>` of kind Content with the tag as category, the trimmed text as content, the content title, a link to the block's own id or else its document id, and as keywords the lowered words of more than three characters, each as often as it occurs, in order and without whitespace |
| PageExtraction.IndexBlocks | src/utils/pageContentIndexer.js:106-136 | the content loop checks each block against everything before it, including earlier blocks |
| PageExtraction.ContentItemAdmitted | src/utils/pageContentIndexer.js:111-118 | a block adds at most one document, and adds one exactly when its trimmed text has at least 20 characters and its first 50 characters occur in no earlier document's non-empty content; the document it adds then has at least 20 characters of content whose first 50 occur in no earlier document's content |
| PageExtraction.ContentItemsAdmitted | src/utils/pageContentIndexer.js:106-136 | every document the content loop adds passed both tests against all documents collected before it |
| PageExtraction.IndexPageContentRules | src/utils/pageContentIndexer.js:106-136 | over the whole pass, every content document has at least 20 characters of content, and no earlier document with content contains its first 50 characters |
| PageExtraction.SidebarItemShape | src/utils/pageContentIndexer.js:140-153 | a sidebar line adds a document exactly when its trimmed text is not blank; the document is a profile entry with id `sidebar-<index>`, category `Sidebar`, a link to `#sidebar`, the trimmed text as content and its lowered whitespace-split words as keywords, titled by that text when it has at most 50 characters, else by its first 50 characters plus `...` |
| PageExtraction.IndexSidebar | src/utils/pageContentIndexer.js:140-154 | the sidebar loop adds one profile document per non-blank line |
| PageExtraction.ButtonItemShape | src/utils/pageContentIndexer.js:158-171 | the label is the truthy `aria-label`, else the trimmed text; a button adds a document exactly when the label has 1 to 49 characters; the document is `button-<index>` of kind Button and category UI Element, titled by the label, with `Button: <label>` as content, no `href` and the whitespace split of the lowered label as keywords |
| PageExtraction.IndexButtons | src/utils/pageContentIndexer.js:158-172 | the button loop adds one document per button with an acceptable label |
| PageExtraction.IndexPageContent | src/utils/pageContentIndexer.js:28-175 | the pass collects links, headings, content blocks, sidebar lines and buttons, in that order |
| PageExtraction.IndexPageWellFormed | src/utils/pageContentIndexer.js:28-175 | every extracted document has a non-empty title, and sidebar and button documents keep their bounds |
| DocumentStore.StaticItems | src/utils/pageContentIndexer.js:181-228 | five fixed entries, all navigation entries of category Page with a link target |
| DocumentStore.StaticKeys | src/utils/pageContentIndexer.js:181-228 | the fixed entries' keys are home, categories, archives, friends, about, in that order, all different |
| DocumentStore.MergeUnique | src/utils/pageContentIndexer.js:242-251 | the `seen`-set loop computes the first-of-each-key merge |
| Unique.DedupKeys | src/utils/pageContentIndexer.js:245-251 | the merge keeps every key it meets |
| Unique.DedupDistinct | src/utils/pageContentIndexer.js:245-251 | no two kept documents share a key |
| Unique.DedupSubseq | src/utils/pageContentIndexer.js:245-251 | the kept documents are the input with some removed, in order |
| Unique.DedupIsFirsts | src/utils/pageContentIndexer.js:245-251 | the merge keeps exactly the first document of each key |
| Unique.DedupPrefix | src/utils/pageContentIndexer.js:241-251 | merging more documents never disturbs what was kept before |
| Unique.DedupOfDistinct | src/utils/pageContentIndexer.js:245-251 | documents whose keys are already distinct all survive |
| DocumentStore.GetAllSearchableContent | src/utils/pageContentIndexer.js:235-258 | the index is the merge of the fixed entries and the page documents, or the fixed entries alone when extraction fails |
| DocumentStore.BuildIndexStartsWithStatic | src/utils/pageContentIndexer.js:241-257 | every index, with or without a page, starts with the five fixed entries |
| DocumentStore.BuildIndexDistinct | src/utils/pageContentIndexer.js:245-251 | no two documents of the index share a lower-cased, trimmed title |
| DocumentStore.BuildIndexWellFormed | src/utils/pageContentIndexer.js:235-258 | every document of the index has a non-empty title |

## Left out

- DOM access (`querySelectorAll`, `cloneNode`, `textContent`, selector matching, removal of scripts, styles and hidden nodes) is not modelled. The page is a value holding each selected node's extracted text, tag, level and attributes.
- The write of a generated id back onto the heading element is not modelled; only the id itself is.
- The `element` field, a reference to the DOM node, is not part of a document.
- `localStorage`, `JSON.parse` and `JSON.stringify` are modelled as a storage field. It holds `None` when the slot is empty or unreadable. A `writable` flag says whether `setItem` succeeds.
- `Date.now()` becomes the `now` parameter of `Save`.
- RecentSearches.RecentStore.GetRecentSearches, RecentSearches.RecentStore.Save and RecentSearches.RecentStore.Remove: a slot holding valid JSON that is not an array (`null`, a number, an object, a string) is not modelled, because the slot is either a list of entries or `None`. In the source, reading such a slot returns the parsed value as it is, a save always fails at `recent.filter` and changes nothing, and a removal returns an empty list.
- A stored list whose entries are not query records is not modelled. In the source, such a list makes the save's filter throw, which is then swallowed.
- Text.Lower: lower-cases ASCII letters only, because Unicode case mapping is out of scope; non-ASCII letters are kept as they are.
- SearchIndex.ScoreItem: counts occurrences by a literal leftmost, non-overlapping scan on the lowered strings. It does not model the regular-expression engine or its case-insensitive flag beyond ASCII.
- A `null` or `undefined` query and documents without title, content or keywords are not modelled, because every caller and every built document supplies them.
- The React hook, its debounce timer, navigation, scrolling and all presentational components are not part of the model.
- The warning `console.warn` logs when extraction fails (src/utils/pageContentIndexer.js:255) is not modelled; only the fallback to the fixed entries is.
- Lengths are counted in characters, one per Unicode scalar value, where JavaScript counts UTF-16 code units. A text with characters outside the Basic Multilingual Plane is therefore measured shorter here than in the browser, and a cut that would split a surrogate pair in JavaScript is not modelled. This affects the following members and constants:
- PageExtraction.GatherSection and PageExtraction.GatherBound: the 200-character section limit is counted in characters, not UTF-16 code units.
- PageExtraction.HeadingIdShape: the 20-character slug is counted in characters, not UTF-16 code units.
- PageExtraction.ContentItemShape and PageExtraction.IndexPageContentRules: the 20-character floor and the 50-character overlap probe are counted in characters, not UTF-16 code units.
- PageExtraction.ContentTitleShape: the 60-character title cut is counted in characters, not UTF-16 code units.
- PageExtraction.SidebarItemShape: the 50-character title cut is counted in characters, not UTF-16 code units.
- PageExtraction.ButtonItemShape and PageExtraction.ButtonItemWellFormed: the 50-character label bound is counted in characters, not UTF-16 code units.
- PageExtraction.LongWords and PageExtraction.LongWordsKept: the more-than-three-characters keyword test is counted in characters, not UTF-16 code units.
- DocumentStore.StaticItems: its contract states the count, kind, category and link of every entry; their titles are stated through their keys (`StaticKeys`) and, for the first two, `SuggestedTitles`.
