# GoogleSearch: the five most used JavaScript libraries of a search

`GoogleSearch` searches Google for a word, takes the `https` links of the
result page, downloads every linked page on a pool of worker threads, pulls
every `<script src…</script>` element out of each page, counts how often each
element occurs across all pages, and prints the five most frequent ones.

This project models that program in Dafny and proves what each step does:

- `text.dfy`, module `Text`: Java's `String.replace(w, "")`, which is one
  left-to-right pass that is not repeated, the line terminators of
  `java.util.regex`, and substring occurrence. Module `Wrappers` holds `Option`.
- `scanner.dfy`, module `Scanner`: the two regular expressions
  `<script src(.*?)</script>` and `href="https:[^>][^"]*"`, and the repeated
  `Matcher.find()` that walks over them. Each is modelled twice:
  - as functions: the match at one index, the leftmost match from an index,
    and all successive matches;
  - as the scanning loops of a regex engine.

  A declarative `IsMatch` describes what a match is. The lemmas prove that the
  scanner finds exactly those matches: the leftmost one, each after the
  previous one ended, and every one.
- `extractors.dfy`, module `Extractors`: `javaScriptLibraries` and
  `searchResults`, each as the `while (matcher.find())` loop of the source.
  Each loop is proved equal to a function over all matches. Proved:
  - every script reference is a complete, single-line element;
  - every cleaned link starts with `"https:`, ends with `"` and holds no `>`;
  - there is one result per match, in order, with duplicates kept.
- `partitioner.dfy`, module `Partitioner`: the split `partitioningBy(e ->
  results.indexOf(e) > size / noOfThreads)`. It always yields two groups, the
  `false` group first. Proved:
  - the input is an interleaving of the two groups, which therefore form a
    permutation of it;
  - the group an element lands in depends on its first index;
  - for a list without duplicates the groups are the prefix of
    `size / n + 1` elements and the rest;
  - with one processor, the second group is empty.
- `workers.dfy`, module `Workers`:
  - `downloadPage` as a lookup of the URL with its quotes removed;
  - the worker lambda (a loop over its links that stops at the first failed
    download);
  - `submitJavaScritSearchRequests`;
  - the merge loop over `futureList`, which adds the lists of the futures that
    succeeded.

  Proved: when every page can be fetched, the merge holds exactly the
  references of all pages with their multiplicities, however the links were
  split. A group with an unreachable link contributes nothing.
- `ranker.dfy`, module `Ranker`: `groupingBy(identity(), counting())`, the
  stable sort by descending count, and `limit(5)`. Proved: the reported keys
  number min(5, distinct references), occur no more than once each, are ordered
  by count, and no reference left out occurs more often than one reported. The
  counts add up to the number of references collected.
- `google_search.dfy`, module `GoogleSearch`: `main` as one method that calls
  each step, and end-to-end properties of what it prints.

The network is a parameter:

- the search result page is an `Option<string>`, `None` when the request
  raises an `IOException`;
- every other download goes through a `Fetcher`, a function from URL to
  `Option<string>`.

Two behaviours of the code are easy to misread, and the model keeps both:

- The first group holds the elements whose first index is *at most*
  `size / n`, so ten distinct links and two processors give groups of six and
  four, not five and five.
- The merge takes the futures in list order and waits on each. It does not
  take them in order of completion.

## Model

| member | source | states |
|---|---|---|
| Text.RemoveAll | src/main/java/com/google/search/GoogleSearch.java:139-140 | Java's `s.replace(w, "")` (and `replaceAll` of a literal at line 98): one left-to-right pass that deletes each non-overlapping occurrence of `w` and does not search again the text a deletion joins; never longer than `s` |
| Text.RemoveCharCounts | src/main/java/com/google/search/GoogleSearch.java:98 | deleting one character with `replace`/`replaceAll` removes every copy of it and keeps every other character with its multiplicity |
| Text.RemoveAllKeepsPrefix | src/main/java/com/google/search/GoogleSearch.java:139-140 | a `replace(w, "")` pass leaves untouched a prefix in which no occurrence of `w` starts |
| Text.RemoveAllKeepsLast | src/main/java/com/google/search/GoogleSearch.java:139-140 | a last character that is not part of `w` survives the pass as the last character |
| Text.RemoveCharAppend | src/main/java/com/google/search/GoogleSearch.java:98 | deleting a character from a concatenation is deleting it from each part |
| Text.RemoveAbsentChar | src/main/java/com/google/search/GoogleSearch.java:98 | deleting a character that does not occur changes nothing |
| Scanner.MatchEnd | src/main/java/com/google/search/GoogleSearch.java:119-132 | one match attempt of either pattern at index i: for the script pattern, `<script src` at i and then the first `</script>` reached on the same line; for the link pattern, `href="https:` at i, one character other than `>`, then up to the first `"`; the end lies past i and within the page |
| Scanner.CloseFrom | src/main/java/com/google/search/GoogleSearch.java:119 | the lazy `(.*?)</script>` reaches the first `</script>` at or after k without crossing a line terminator, or no such close exists |
| Scanner.QuoteFrom | src/main/java/com/google/search/GoogleSearch.java:132 | `[^"]*"` stops at the first `"` at or after k, or there is none |
| Scanner.MatchEndIsMatch | src/main/java/com/google/search/GoogleSearch.java:119-132 | a match attempt at index i ends at e exactly when page[i..e] has the shape the pattern describes |
| Scanner.NextMatch | src/main/java/com/google/search/GoogleSearch.java:123-137 | `find()` reports the leftmost match starting at or after its position, and none when no start index there matches |
| Scanner.Spans | src/main/java/com/google/search/GoogleSearch.java:123-142 | repeated `find()` yields matches in order, each starting at or after the end of the one before, with no match skipped in between or after the last one |
| Scanner.FindsAllUnique | src/main/java/com/google/search/GoogleSearch.java:123-142 | the sequence of matches repeated `find()` reports is the only sequence with those properties |
| Scanner.SpansOrdered | src/main/java/com/google/search/GoogleSearch.java:123-142 | reported matches do not overlap: each ends before any later one begins |
| Scanner.ScanScript | src/main/java/com/google/search/GoogleSearch.java:119 | the scanning loop for one attempt of the script pattern ends where the match ends |
| Scanner.ScanLink | src/main/java/com/google/search/GoogleSearch.java:132 | the scanning loop for one attempt of the link pattern ends where the match ends |
| Scanner.ScanMatch | src/main/java/com/google/search/GoogleSearch.java:119-132 | one match attempt of either pattern ends where the match ends |
| Scanner.Find | src/main/java/com/google/search/GoogleSearch.java:123-137 | the loop over start indices returns the leftmost match |
| Extractors.Slices | src/main/java/com/google/search/GoogleSearch.java:124 | `matcher.group(0)` for each match: the text of each span, one string per span, in span order |
| Extractors.ScriptReferences | src/main/java/com/google/search/GoogleSearch.java:118-128 | what `javaScriptLibraries` returns: the text of every match of the script pattern that repeated `find()` reports from the start of the page, in order |
| Extractors.MatchIsScriptReference | src/main/java/com/google/search/GoogleSearch.java:119-124 | every matched script element starts with `<script src`, ends with `</script>`, lies on one line and closes at its first `</script>` |
| Extractors.ScriptReferencesShape | src/main/java/com/google/search/GoogleSearch.java:118-128 | every string `javaScriptLibraries` returns is such an element |
| Extractors.ScriptReferencesAreMatches | src/main/java/com/google/search/GoogleSearch.java:122-127 | one string per match, the k-th being the text of the k-th match, in page order, duplicates kept |
| Extractors.ScriptReferencesEmpty | src/main/java/com/google/search/GoogleSearch.java:118-128 | the list is empty exactly when the page holds no match anywhere |
| Extractors.JavaScriptLibraries | src/main/java/com/google/search/GoogleSearch.java:118-128 | the `while (matcher.find())` loop returns exactly the matched elements in order |
| Extractors.CleanLink | src/main/java/com/google/search/GoogleSearch.java:139-140 | one match cleaned: `replace("href=", "")`, then `replace(">", "")` |
| Extractors.CleanAll | src/main/java/com/google/search/GoogleSearch.java:138-141 | each match cleaned, one link per match, in order |
| Extractors.ReferredLinks | src/main/java/com/google/search/GoogleSearch.java:130-144 | what `searchResults` returns for the page text: every match of the link pattern that repeated `find()` reports, cleaned, in order, duplicates kept |
| Extractors.HrefPass | src/main/java/com/google/search/GoogleSearch.java:139 | removing `href=` from a match leaves `"https:` at the front and the closing `"` at the end |
| Extractors.GreaterThanPass | src/main/java/com/google/search/GoogleSearch.java:140 | removing `>` keeps the front and the closing `"` and leaves no `>` |
| Extractors.MatchIsLink | src/main/java/com/google/search/GoogleSearch.java:132-140 | every cleaned link match starts with `"https:`, ends with `"` and holds no `>` |
| Extractors.ReferredLinksShape | src/main/java/com/google/search/GoogleSearch.java:130-144 | every link `searchResults` returns has that shape |
| Extractors.ReferredLinksAreMatches | src/main/java/com/google/search/GoogleSearch.java:136-142 | one link per match, the k-th being the k-th match cleaned, in page order, duplicates kept |
| Extractors.SearchResults | src/main/java/com/google/search/GoogleSearch.java:130-144 | the `while (matcher.find())` loop with its two `replace` calls returns exactly the cleaned matches in order |
| Partitioner.IndexOf | src/main/java/com/google/search/GoogleSearch.java:43 | `indexOf` is -1 exactly for an absent element, and otherwise the first index holding it |
| Partitioner.Group | src/main/java/com/google/search/GoogleSearch.java:43 | one side of `partitioningBy`: the elements whose `indexOf` is past `index` (the `true` list) or not (the `false` list), in input order |
| Partitioner.Partition | src/main/java/com/google/search/GoogleSearch.java:40-43 | `partitioningBy(...).values()` always yields two groups |
| Partitioner.PartitionIsInterleaving | src/main/java/com/google/search/GoogleSearch.java:43 | each group keeps the input order and the input interleaves them, so together they are a permutation of it |
| Partitioner.PartitionMembers | src/main/java/com/google/search/GoogleSearch.java:41-43 | an element is in the first group exactly when its first index is at most size / n, and in the second exactly when it is past that |
| Partitioner.PartitionDistinct | src/main/java/com/google/search/GoogleSearch.java:41-43 | for a list without duplicates, the groups are its first min(size, size / n + 1) elements and the rest |
| Partitioner.PartitionSingleWorker | src/main/java/com/google/search/GoogleSearch.java:40-43 | with one processor, the first group is the whole list and the second is empty |
| Workers.StripQuotes | src/main/java/com/google/search/GoogleSearch.java:98 | the URL handed to the connection has no `"` left and keeps every other character |
| Workers.StripQuotesIdempotent | src/main/java/com/google/search/GoogleSearch.java:98 | stripping quotes twice is stripping them once |
| Workers.StripQuotesAppend | src/main/java/com/google/search/GoogleSearch.java:98 | quote stripping keeps the order of the remaining characters, piece by piece |
| Workers.DownloadPage | src/main/java/com/google/search/GoogleSearch.java:92-116 | `downloadPage`: the page at the URL with every `"` removed, or `None` where opening or reading it raises an `IOException`, which line 105 turns into a `RuntimeException` |
| Workers.DownloadQuotedLink | src/main/java/com/google/search/GoogleSearch.java:98-102 | a link `"u"` with no quote inside is downloaded as `u` |
| Workers.Extracted | src/main/java/com/google/search/GoogleSearch.java:82-83 | the script references of one link's page; the `None` case only matters for links outside `AllFetched`, since a failed download aborts the worker |
| Workers.Concat | src/main/java/com/google/search/GoogleSearch.java:81-84 | the lists a function yields for the links, appended one after the other in link order, as `scriptLibs.addAll` does |
| Workers.FlatExtract | src/main/java/com/google/search/GoogleSearch.java:81-84 | the list a worker builds when every download succeeds: each link's script references, link after link |
| Workers.WorkerResult | src/main/java/com/google/search/GoogleSearch.java:80-86 | what a worker's future yields: all its links' references when every download succeeds, otherwise a failure |
| Workers.ConcatMembers | src/main/java/com/google/search/GoogleSearch.java:81-84 | a reference is in a worker's list exactly when it comes from one of the worker's links |
| Workers.InterleavedConcat | src/main/java/com/google/search/GoogleSearch.java:81-84 | extracting from two interleaved groups gives the same references, with multiplicities, as extracting from all links |
| Workers.FlatExtractShape | src/main/java/com/google/search/GoogleSearch.java:81-84 | everything a worker collects is a complete script element |
| Workers.RunWorker | src/main/java/com/google/search/GoogleSearch.java:80-86 | the worker loop returns the references of all its links in link order, or fails as soon as one download fails |
| Workers.WorkerResults | src/main/java/com/google/search/GoogleSearch.java:78-88 | the future list: one worker result per group, in group order |
| Workers.WorkerResultsAt | src/main/java/com/google/search/GoogleSearch.java:78-88 | the future of the k-th group holds that group's worker result |
| Workers.SubmitAll | src/main/java/com/google/search/GoogleSearch.java:74-90 | one future per group, in group order |
| Workers.MergeSuccessful | src/main/java/com/google/search/GoogleSearch.java:46-54 | `allReferredJavaScripts`: the lists of the successful futures appended in future order; a failed future, caught at line 50, adds nothing |
| Workers.MergeMembers | src/main/java/com/google/search/GoogleSearch.java:46-54 | a reference is merged exactly when some successful future holds it |
| Workers.MergeAppend | src/main/java/com/google/search/GoogleSearch.java:46-54 | merging a list of futures is merging each part and concatenating |
| Workers.MergeSkipsFailure | src/main/java/com/google/search/GoogleSearch.java:48-52 | a failed future, wherever it is, adds nothing to the merge |
| Workers.CollectFutures | src/main/java/com/google/search/GoogleSearch.java:46-54 | the `forEach` over the futures concatenates the successful lists in future order |
| Workers.AllReferred | src/main/java/com/google/search/GoogleSearch.java:43-54 | the merged list `main` ranks: the result links partitioned, one worker per group, the futures merged |
| Workers.AllReferredShape | src/main/java/com/google/search/GoogleSearch.java:43-54 | every merged string is a complete script element |
| Workers.AllReferredTwoGroups | src/main/java/com/google/search/GoogleSearch.java:43-54 | the merge is the first group's result followed by the second group's |
| Workers.AllReferredComplete | src/main/java/com/google/search/GoogleSearch.java:41-54 | when every page can be fetched, the merge holds every reference of every page with its multiplicity: splitting the work loses and duplicates nothing |
| Workers.AllReferredSingleWorker | src/main/java/com/google/search/GoogleSearch.java:40-54 | with one processor and every page fetched, the merge is exactly the references in link order |
| Workers.AllReferredFailedGroup | src/main/java/com/google/search/GoogleSearch.java:48-52 | a group holding an unreachable link contributes nothing, and the merge is the other group's result |
| Ranker.Tally | src/main/java/com/google/search/GoogleSearch.java:56 | the counting map has a key for exactly the collected references, each mapped to its number of occurrences |
| Ranker.SumCounts | src/main/java/com/google/search/GoogleSearch.java:56 | the total of the counts the map holds for the given keys |
| Ranker.TallySum | src/main/java/com/google/search/GoogleSearch.java:56 | the counts of the counting map add up to the number of collected references |
| Ranker.FirstSeen | src/main/java/com/google/search/GoogleSearch.java:56 | the map's keys: every collected reference exactly once |
| Ranker.EntriesOf | src/main/java/com/google/search/GoogleSearch.java:58 | the map's `entrySet()` as a list of (reference, count) pairs, in the given key order |
| Ranker.Insert | src/main/java/com/google/search/GoogleSearch.java:58 | one insertion step of the sort adds the entry and keeps every other entry |
| Ranker.InsertSorted | src/main/java/com/google/search/GoogleSearch.java:58 | inserting into a list sorted by descending count keeps it sorted |
| Ranker.SortEntries | src/main/java/com/google/search/GoogleSearch.java:58 | the sort is a permutation of the entries with counts in descending order |
| Ranker.SortEntriesDistinctKeys | src/main/java/com/google/search/GoogleSearch.java:58 | sorting keeps one entry per reference |
| Ranker.Ranked | src/main/java/com/google/search/GoogleSearch.java:56-58 | the counting map's entries after the stable sort by descending count |
| Ranker.RankedEntries | src/main/java/com/google/search/GoogleSearch.java:56-58 | the sorted entries are one per distinct reference, each with its count, in descending count order |
| Ranker.Keys | src/main/java/com/google/search/GoogleSearch.java:60 | `map(Map.Entry::getKey)`: the reference of each entry, in order |
| Ranker.TopFive | src/main/java/com/google/search/GoogleSearch.java:56-60 | `top5Script`: the references of the first five ranked entries, or of all of them when there are fewer |
| Ranker.TopFivePrefix | src/main/java/com/google/search/GoogleSearch.java:60 | `limit(5)` keeps the keys of the first min(5, entries) sorted entries |
| Ranker.TopFiveSpec | src/main/java/com/google/search/GoogleSearch.java:56-60 | the report has min(5, distinct references) entries with no repeats, each collected, in descending count order; no reference left out occurs more often than a reported one |
| Ranker.TopFiveAll | src/main/java/com/google/search/GoogleSearch.java:60 | with at most five distinct references, every one of them is reported |
| GoogleSearch.TopScripts | src/main/java/com/google/search/GoogleSearch.java:27-72 | what `main` prints: nothing when the search request fails, otherwise the top five of the merged script references of the result links |
| GoogleSearch.Run | src/main/java/com/google/search/GoogleSearch.java:27-72 | `main` computes, step by step, the references the model's functions describe |
| GoogleSearch.TopScriptsShape | src/main/java/com/google/search/GoogleSearch.java:33-69 | at most five complete script elements are printed, none twice, and nothing when the search request fails |
| GoogleSearch.TopScriptsRanksAllPages | src/main/java/com/google/search/GoogleSearch.java:40-60 | when every page can be fetched, the ranking uses the counts over all result pages, whatever the processor count |
| GoogleSearch.FetchedUrlIsHttps | src/main/java/com/google/search/GoogleSearch.java:98 | every result link is fetched as an `https:` URL with no `"` and no `>` |

## Left out

- HTTP itself is not modelled: opening connections, the `User-Agent`
  header, the search URL and the URL encoding of the search word. The search
  page and every download are parameters.
- A `Fetcher` gives the same page for the same URL every time. A network that
  answers differently on a repeated request is not modelled.
- `convertStreamToString` is not part of this model. It reads lines and joins
  them with `\n`, and the model takes the resulting page text as given.
- Concurrency is not modelled. The thread pool, the `Future`s and the
  unused `BufferedReader` in `downloadPage` are left out. The workers run one
  after the other. Each worker owns its list, and the merge waits on the
  futures in list order, so the printed result does not depend on scheduling.
- Printing, `printStackTrace` and `System.exit` are not modelled.
  `GoogleSearch.Run` returns the list `main` would print.
- Java strings are sequences of UTF-16 code units, while the model's strings
  are sequences of Dafny characters.
- Only the two regular expressions the program uses are modelled; there is no
  general regex engine.
- Ranker.TopFive: reference entries with equal counts reach the stable sort in
  first-occurrence order. In Java they arrive in `HashMap` iteration order,
  which the program does not fix. `TopFiveSpec` states only what holds for
  every order of ties.
- The processor count is a parameter, at least 1, as
  `availableProcessors()` guarantees.
