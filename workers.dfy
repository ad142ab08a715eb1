/**
 * Fetching the result pages and collecting their script references: one
 * worker per group of links, then the merge of what the workers return.
 *
 * The network is a parameter: a `Fetcher` maps a URL to its page, or to
 * `None` when opening or reading it raises an `IOException` (a malformed URL
 * included). `downloadPage` turns that exception into a `RuntimeException`,
 * which ends the worker's task, so the worker's future fails as a whole and
 * the merge prints its stack trace and adds nothing for it.
 */
module Workers {
  import opened Wrappers
  import opened Text
  import opened Extractors
  import opened Partitioner

  type Fetcher = string -> Option<string>

  /** `URL.replaceAll("\"", "")`: the URL with every double quote removed. */
  function StripQuotes(url: string): (r: string)
    ensures '"' !in r
    ensures multiset(r) == multiset(url)['"' := 0]
  {
    RemoveCharCounts(url, '"');
    RemoveAll(url, "\"")
  }

  /** Stripping quotes a second time changes nothing. */
  lemma StripQuotesIdempotent(url: string)
    ensures StripQuotes(StripQuotes(url)) == StripQuotes(url)
  {
    RemoveAbsentChar(StripQuotes(url), '"');
  }

  /** Quote stripping works piece by piece: it keeps every other character in its order. */
  lemma StripQuotesAppend(a: string, b: string)
    ensures StripQuotes(a + b) == StripQuotes(a) + StripQuotes(b)
  {
    RemoveCharAppend(a, b, '"');
  }

  /** `downloadPage`: fetch the URL with its quotes removed. */
  function DownloadPage(fetch: Fetcher, url: string): Option<string> {
    fetch(StripQuotes(url))
  }

  /**
   * A link as the search page yields it, `"https:…"`, is fetched as the bare
   * `https:…` between its quotes.
   */
  lemma DownloadQuotedLink(fetch: Fetcher, u: string)
    requires '"' !in u
    ensures DownloadPage(fetch, "\"" + u + "\"") == fetch(u)
  {
    var q: string := "\"";
    assert StripQuotes(q) == [] by {
      assert OccursAt(q, q, 0);
      assert q[|q|..] == [];
    }
    StripQuotesAppend(q, u);
    StripQuotesAppend(q + u, q);
    RemoveAbsentChar(u, '"');
    assert StripQuotes(q + u + q) == u;
    assert "\"" + u + "\"" == q + u + q;
  }

  /**
   * The script references of the page behind one link. The program never
   * yields `[]` for a failed download: the failure aborts the whole worker
   * (`WorkerResult`). So the `None` case here, and with it `FlatExtract`, is
   * meaningful only when every link can be fetched (`AllFetched`), which is
   * the only way the rest of the model uses them.
   */
  function Extracted(fetch: Fetcher, link: string): seq<string> {
    match DownloadPage(fetch, link)
    case None => []
    case Some(page) => ScriptReferences(page)
  }

  /** Every link of the group can be fetched. */
  predicate AllFetched(fetch: Fetcher, links: seq<string>) {
    forall l :: l in links ==> DownloadPage(fetch, l).Some?
  }

  /** The lists `f` yields for the links, one after the other, in link order. */
  function Concat(f: string -> seq<string>, links: seq<string>): seq<string>
    decreases |links|
  {
    if links == [] then []
    else Concat(f, links[..|links| - 1]) + f(links[|links| - 1])
  }

  /** The script references of all the links, link after link, each page's in page order. */
  function FlatExtract(fetch: Fetcher, links: seq<string>): seq<string> {
    Concat(link => Extracted(fetch, link), links)
  }

  /** What one worker's future yields: all the references of its links, or a failure. */
  function WorkerResult(fetch: Fetcher, links: seq<string>): Option<seq<string>> {
    if AllFetched(fetch, links) then Some(FlatExtract(fetch, links)) else None
  }

  /** Concatenating over two lists of links one after the other is concatenating over their concatenation. */
  lemma {:induction false} ConcatAppend(f: string -> seq<string>, a: seq<string>, b: seq<string>)
    ensures Concat(f, a + b) == Concat(f, a) + Concat(f, b)
    decreases |b|
  {
    if b == [] {
      assert a + b == a;
    } else {
      var front := b[..|b| - 1];
      assert (a + b)[..|a + b| - 1] == a + front;
      assert (a + b)[|a + b| - 1] == b[|b| - 1];
      ConcatAppend(f, a, front);
      AppendAssoc(Concat(f, a), Concat(f, front), f(b[|b| - 1]));
    }
  }

  /** The concatenation starts with the list of the first link. */
  lemma ConcatCons(f: string -> seq<string>, x: string, rest: seq<string>)
    ensures Concat(f, [x] + rest) == f(x) + Concat(f, rest)
  {
    ConcatAppend(f, [x], rest);
    assert [x][..0] == [];
  }

  /** A string is in the concatenation exactly when it is in the list of some link. */
  lemma {:induction false} ConcatMembers(f: string -> seq<string>, links: seq<string>)
    ensures forall r :: r in Concat(f, links) <==> exists l :: l in links && r in f(l)
    decreases |links|
  {
    if links != [] {
      var front := links[..|links| - 1];
      ConcatMembers(f, front);
      assert links == front + [links[|links| - 1]];
    }
  }

  /**
   * Splitting the links into two interleaved groups and concatenating over
   * each yields the same strings, with the same multiplicities, as
   * concatenating over all of them.
   */
  lemma {:induction false} InterleavedConcat(f: string -> seq<string>, s: seq<string>, a: seq<string>, b: seq<string>)
    requires Interleaves(s, a, b)
    ensures multiset(Concat(f, a)) + multiset(Concat(f, b)) == multiset(Concat(f, s))
    decreases |s|
  {
    if s != [] {
      assert s == [s[0]] + s[1..];
      ConcatCons(f, s[0], s[1..]);
      if a != [] && a[0] == s[0] && Interleaves(s[1..], a[1..], b) {
        InterleavedConcat(f, s[1..], a[1..], b);
        assert a == [a[0]] + a[1..];
        ConcatCons(f, a[0], a[1..]);
      } else {
        InterleavedConcat(f, s[1..], a, b[1..]);
        assert b == [b[0]] + b[1..];
        ConcatCons(f, b[0], b[1..]);
      }
    }
  }

  /** Everything a worker extracts is a complete `<script src…</script>` reference. */
  lemma FlatExtractShape(fetch: Fetcher, links: seq<string>)
    ensures forall r :: r in FlatExtract(fetch, links) ==> IsScriptReference(r)
  {
    var f := link => Extracted(fetch, link);
    ConcatMembers(f, links);
    forall r | r in FlatExtract(fetch, links)
      ensures IsScriptReference(r)
    {
      var l :| l in links && r in f(l);
      match DownloadPage(fetch, l)
      case None =>
      case Some(page) => ScriptReferencesShape(page);
    }
  }

  /**
   * The lambda each worker runs: download its links one by one and append
   * each page's script references; the first download that fails ends the
   * task and the future holds the failure.
   */
  method RunWorker(fetch: Fetcher, links: seq<string>) returns (r: Option<seq<string>>)
    ensures r == WorkerResult(fetch, links)
  {
    var scriptLibs: seq<string> := [];
    var i := 0;
    while i < |links|
      invariant 0 <= i <= |links|
      invariant AllFetched(fetch, links[..i])
      invariant scriptLibs == FlatExtract(fetch, links[..i])
    {
      var page := DownloadPage(fetch, links[i]);
      assert links[..i + 1][..i] == links[..i];
      match page {
        case None =>
          assert links[i] in links;
          return None;
        case Some(p) =>
          var libs := JavaScriptLibraries(p);
          scriptLibs := scriptLibs + libs;
          i := i + 1;
      }
    }
    assert links[..i] == links;
    return Some(scriptLibs);
  }

  /** The futures of all groups, one per group and in group order. */
  function WorkerResults(fetch: Fetcher, groups: seq<seq<string>>): (futures: seq<Option<seq<string>>>)
    ensures |futures| == |groups|
    decreases |groups|
  {
    if groups == [] then []
    else WorkerResults(fetch, groups[..|groups| - 1]) + [WorkerResult(fetch, groups[|groups| - 1])]
  }

  /** The future of each group is exactly that group's worker result. */
  lemma {:induction false} WorkerResultsAt(fetch: Fetcher, groups: seq<seq<string>>)
    ensures forall k :: 0 <= k < |groups| ==> WorkerResults(fetch, groups)[k] == WorkerResult(fetch, groups[k])
    decreases |groups|
  {
    if groups != [] {
      WorkerResultsAt(fetch, groups[..|groups| - 1]);
    }
  }

  /** `submitJavaScritSearchRequests`: one worker per group, futures kept in group order. */
  method SubmitAll(fetch: Fetcher, groups: seq<seq<string>>) returns (futureList: seq<Option<seq<string>>>)
    ensures futureList == WorkerResults(fetch, groups)
  {
    futureList := [];
    var i := 0;
    while i < |groups|
      invariant 0 <= i <= |groups|
      invariant futureList == WorkerResults(fetch, groups[..i])
    {
      var future := RunWorker(fetch, groups[i]);
      assert groups[..i + 1][..i] == groups[..i];
      futureList := futureList + [future];
      i := i + 1;
    }
    assert groups[..i] == groups;
  }

  /** The merge: the lists of the successful futures, in future order; a failed one adds nothing. */
  function MergeSuccessful(futures: seq<Option<seq<string>>>): seq<string>
    decreases |futures|
  {
    if futures == [] then []
    else
      MergeSuccessful(futures[..|futures| - 1]) +
      match futures[|futures| - 1]
      case None => []
      case Some(v) => v
  }

  /** A string is merged exactly when some successful future holds it. */
  lemma {:induction false} MergeMembers(futures: seq<Option<seq<string>>>)
    ensures forall x :: x in MergeSuccessful(futures) <==>
      exists k :: 0 <= k < |futures| && futures[k].Some? && x in futures[k].value
    decreases |futures|
  {
    if futures != [] {
      var front := futures[..|futures| - 1];
      MergeMembers(front);
      forall x
        ensures x in MergeSuccessful(futures) <==>
          exists k :: 0 <= k < |futures| && futures[k].Some? && x in futures[k].value
      {
        if x in MergeSuccessful(front) {
          var k :| 0 <= k < |front| && front[k].Some? && x in front[k].value;
          assert futures[k] == front[k];
        }
        if exists k :: 0 <= k < |futures| && futures[k].Some? && x in futures[k].value {
          var k :| 0 <= k < |futures| && futures[k].Some? && x in futures[k].value;
          if k < |front| {
            assert front[k] == futures[k];
          }
        }
      }
    }
  }

  /** Merging two runs of futures is merging each and concatenating. */
  lemma {:induction false} MergeAppend(a: seq<Option<seq<string>>>, b: seq<Option<seq<string>>>)
    ensures MergeSuccessful(a + b) == MergeSuccessful(a) + MergeSuccessful(b)
    decreases |b|
  {
    if b == [] {
      assert a + b == a;
    } else {
      var front := b[..|b| - 1];
      assert (a + b)[..|a + b| - 1] == a + front;
      assert (a + b)[|a + b| - 1] == b[|b| - 1];
      MergeAppend(a, front);
    }
  }

  /** A failed future anywhere in the list contributes nothing to the merge. */
  lemma MergeSkipsFailure(a: seq<Option<seq<string>>>, b: seq<Option<seq<string>>>)
    ensures MergeSuccessful(a + [None] + b) == MergeSuccessful(a + b)
  {
    var failed: seq<Option<seq<string>>> := [None];
    MergeAppend(a + failed, b);
    MergeAppend(a, failed);
    MergeAppend(a, b);
    assert failed[..0] == [];
    assert MergeSuccessful(failed) == [];
  }

  /** The loop over `futureList`: `addAll` each successful future's list, skip each failed one. */
  method CollectFutures(futureList: seq<Option<seq<string>>>) returns (allReferredJavaScripts: seq<string>)
    ensures allReferredJavaScripts == MergeSuccessful(futureList)
  {
    allReferredJavaScripts := [];
    var i := 0;
    while i < |futureList|
      invariant 0 <= i <= |futureList|
      invariant allReferredJavaScripts == MergeSuccessful(futureList[..i])
    {
      assert futureList[..i + 1][..i] == futureList[..i];
      match futureList[i] {
        case None =>
        case Some(v) =>
          allReferredJavaScripts := allReferredJavaScripts + v;
      }
      i := i + 1;
    }
    assert futureList[..i] == futureList;
  }

  /** All the script references the workers return for the result links, merged. */
  function AllReferred(fetch: Fetcher, results: seq<string>, noOfThreads: nat): seq<string>
    requires noOfThreads >= 1
  {
    MergeSuccessful(WorkerResults(fetch, Partition(results, noOfThreads)))
  }

  /** The merged list holds only complete script references. */
  lemma AllReferredShape(fetch: Fetcher, results: seq<string>, noOfThreads: nat)
    requires noOfThreads >= 1
    ensures forall r :: r in AllReferred(fetch, results, noOfThreads) ==> IsScriptReference(r)
  {
    var groups := Partition(results, noOfThreads);
    var futures := WorkerResults(fetch, groups);
    MergeMembers(futures);
    WorkerResultsAt(fetch, groups);
    forall r | r in AllReferred(fetch, results, noOfThreads)
      ensures IsScriptReference(r)
    {
      var k :| 0 <= k < |futures| && futures[k].Some? && r in futures[k].value;
      FlatExtractShape(fetch, groups[k]);
    }
  }

  /** The two groups' futures, merged, are the lower group's list followed by the upper group's. */
  lemma AllReferredTwoGroups(fetch: Fetcher, results: seq<string>, noOfThreads: nat)
    requires noOfThreads >= 1
    ensures var groups := Partition(results, noOfThreads);
      AllReferred(fetch, results, noOfThreads) ==
        MergeSuccessful([WorkerResult(fetch, groups[0])]) + MergeSuccessful([WorkerResult(fetch, groups[1])])
  {
    var groups := Partition(results, noOfThreads);
    var futures := WorkerResults(fetch, groups);
    WorkerResultsAt(fetch, groups);
    assert futures == [WorkerResult(fetch, groups[0])] + [WorkerResult(fetch, groups[1])];
    MergeAppend([WorkerResult(fetch, groups[0])], [WorkerResult(fetch, groups[1])]);
  }

  /**
   * When every result page can be fetched, the merge holds every script
   * reference of every page, as often as it occurs there: splitting the work
   * between two workers loses and duplicates nothing.
   */
  lemma AllReferredComplete(fetch: Fetcher, results: seq<string>, noOfThreads: nat)
    requires noOfThreads >= 1 && AllFetched(fetch, results)
    ensures multiset(AllReferred(fetch, results, noOfThreads)) == multiset(FlatExtract(fetch, results))
  {
    var groups := Partition(results, noOfThreads);
    PartitionMembers(results, noOfThreads);
    PartitionIsInterleaving(results, noOfThreads);
    assert AllFetched(fetch, groups[0]) && AllFetched(fetch, groups[1]);
    AllReferredTwoGroups(fetch, results, noOfThreads);
    assert [Some(FlatExtract(fetch, groups[0]))][..0] == [];
    assert [Some(FlatExtract(fetch, groups[1]))][..0] == [];
    InterleavedConcat(link => Extracted(fetch, link), results, groups[0], groups[1]);
  }

  /** With one worker and every page fetched, the merge is exactly the references in link order. */
  lemma AllReferredSingleWorker(fetch: Fetcher, results: seq<string>)
    requires AllFetched(fetch, results)
    ensures AllReferred(fetch, results, 1) == FlatExtract(fetch, results)
  {
    PartitionSingleWorker(results);
    AllReferredTwoGroups(fetch, results, 1);
    assert [Some(FlatExtract(fetch, results))][..0] == [];
    assert FlatExtract(fetch, []) == [];
    assert AllFetched(fetch, []);
    assert [Some(FlatExtract(fetch, []))][..0] == [];
  }

  /** A group with a link that cannot be fetched contributes nothing at all. */
  lemma AllReferredFailedGroup(fetch: Fetcher, results: seq<string>, noOfThreads: nat, g: nat)
    requires noOfThreads >= 1 && g < 2
    requires !AllFetched(fetch, Partition(results, noOfThreads)[g])
    ensures var groups := Partition(results, noOfThreads);
      AllReferred(fetch, results, noOfThreads) == MergeSuccessful([WorkerResult(fetch, groups[1 - g])])
  {
    var groups := Partition(results, noOfThreads);
    AllReferredTwoGroups(fetch, results, noOfThreads);
    var failed: seq<Option<seq<string>>> := [None];
    assert failed[..0] == [];
    assert MergeSuccessful(failed) == [];
  }
}
