/**
 * `main`: search, collect the result links, split them between two workers,
 * merge the script references the workers find, and report the five most
 * referenced ones.
 *
 * The search request itself is a parameter: `searchPage` is the text of the
 * search result page, or `None` when the request raised an `IOException`, in
 * which case `main` prints the stack trace and exits without reporting
 * anything. The processor count is the parameter `noOfThreads` (at least 1).
 */
module GoogleSearch {
  import opened Wrappers
  import opened Text
  import opened Extractors
  import opened Partitioner
  import opened Workers
  import opened Ranker

  /** The references `main` prints, one per line, for a given search outcome. */
  function TopScripts(searchPage: Option<string>, fetch: Fetcher, noOfThreads: nat): seq<string>
    requires noOfThreads >= 1
  {
    match searchPage
    case None => []
    case Some(page) => TopFive(AllReferred(fetch, ReferredLinks(page), noOfThreads))
  }

  /** `main`, from the search page on: each step is the operation it calls. */
  method Run(searchPage: Option<string>, fetch: Fetcher, noOfThreads: nat) returns (top5Script: seq<string>)
    requires noOfThreads >= 1
    ensures top5Script == TopScripts(searchPage, fetch, noOfThreads)
  {
    match searchPage {
      case None =>
        top5Script := [];
      case Some(page) =>
        var results := SearchResults(page);
        var groupedResults := Partition(results, noOfThreads);
        var futureList := SubmitAll(fetch, groupedResults);
        var allReferredJavaScripts := CollectFutures(futureList);
        top5Script := TopFive(allReferredJavaScripts);
    }
  }

  /**
   * Whatever the pages and however the fetches go: at most five references
   * are printed, none twice, each a complete `<script src…</script>` element,
   * and nothing at all when the search request fails.
   */
  lemma TopScriptsShape(searchPage: Option<string>, fetch: Fetcher, noOfThreads: nat)
    requires noOfThreads >= 1
    ensures var r := TopScripts(searchPage, fetch, noOfThreads);
      && |r| <= TopCount
      && (forall a, b :: 0 <= a < b < |r| ==> r[a] != r[b])
      && (forall x :: x in r ==> IsScriptReference(x))
      && (searchPage.None? ==> r == [])
  {
    match searchPage
    case None =>
    case Some(page) =>
      var all := AllReferred(fetch, ReferredLinks(page), noOfThreads);
      TopFiveSpec(all);
      AllReferredShape(fetch, ReferredLinks(page), noOfThreads);
  }

  /**
   * When every result page can be fetched, the report depends on the counts
   * over all result pages and not on how the links were split: each printed
   * reference occurs on those pages at least as often as any reference not
   * printed, and the printed ones come most frequent first.
   */
  lemma TopScriptsRanksAllPages(page: string, fetch: Fetcher, noOfThreads: nat)
    requires noOfThreads >= 1
    requires AllFetched(fetch, ReferredLinks(page))
    ensures var r := TopScripts(Some(page), fetch, noOfThreads);
      var found := FlatExtract(fetch, ReferredLinks(page));
      && (forall x :: x in r ==> x in found)
      && (forall a, b :: 0 <= a < b < |r| ==> multiset(found)[r[a]] >= multiset(found)[r[b]])
      && (forall x, y :: x in r && y in found && y !in r ==> multiset(found)[x] >= multiset(found)[y])
  {
    var links := ReferredLinks(page);
    var all := AllReferred(fetch, links, noOfThreads);
    var found := FlatExtract(fetch, links);
    assert TopScripts(Some(page), fetch, noOfThreads) == TopFive(all);
    AllReferredComplete(fetch, links, noOfThreads);
    forall x
      ensures x in all <==> x in found
    {
      assert x in all <==> x in multiset(all);
      assert x in found <==> x in multiset(found);
    }
    TopFiveSpec(all);
  }

  /** Every result link is fetched as an `https:` URL with no quote and no `>` left in it. */
  lemma FetchedUrlIsHttps(l: string)
    requires IsLink(l)
    ensures var u := StripQuotes(l);
      |u| >= 6 && u[..6] == "https:" && '"' !in u && '>' !in u
  {
    var scheme := "https:";
    var rest := l[|LinkHead|..];
    assert l == "\"" + scheme + rest;
    StripQuotesAppend("\"" + scheme, rest);
    StripQuotesAppend("\"", scheme);
    assert StripQuotes("\"") == [] by {
      assert OccursAt("\"", "\"", 0);
    }
    RemoveAbsentChar(scheme, '"');
    var u := StripQuotes(l);
    assert u == scheme + StripQuotes(rest);
    assert multiset(u)['>'] == multiset(l)['>'] == 0;
  }
}
