/**
 * The split of the result links among workers:
 *
 *   index = results.size() / noOfThreads
 *   results.stream().collect(partitioningBy(e -> results.indexOf(e) > index)).values()
 *
 * `partitioningBy` always yields two lists, the `false` list first, whatever
 * the worker count is; `indexOf` places a repeated link with its first
 * occurrence.
 */
module Partitioner {
  import opened Text

  /** `List.indexOf`: the first index holding x, or -1 when x is absent. */
  function IndexOf(s: seq<string>, x: string): (r: int)
    ensures r == -1 <==> x !in s
    ensures r != -1 ==> 0 <= r < |s| && s[r] == x && x !in s[..r]
  {
    if s == [] then -1
    else if s[0] == x then 0
    else
      var t := IndexOf(s[1..], x);
      assert t != -1 ==> s[..t + 1] == [s[0]] + s[1..][..t];
      if t == -1 then -1 else t + 1
  }

  /** The elements of xs whose first position in `all` is past `index` (upper) or not (lower), in order. */
  function Group(all: seq<string>, xs: seq<string>, index: int, upper: bool): seq<string> {
    if xs == [] then []
    else (if (IndexOf(all, xs[0]) > index) == upper then [xs[0]] else []) + Group(all, xs[1..], index, upper)
  }

  /** The two groups handed to the workers: the `false` group, then the `true` group. */
  function Partition(results: seq<string>, noOfThreads: nat): (groups: seq<seq<string>>)
    requires noOfThreads >= 1
    ensures |groups| == 2
  {
    var index := |results| / noOfThreads;
    [Group(results, results, index, false), Group(results, results, index, true)]
  }

  /** `s` is an interleaving of `a` and `b`: each keeps its order and together they use up `s`. */
  ghost predicate Interleaves(s: seq<string>, a: seq<string>, b: seq<string>)
    decreases |s|
  {
    if s == [] then a == [] && b == []
    else
      || (a != [] && a[0] == s[0] && Interleaves(s[1..], a[1..], b))
      || (b != [] && b[0] == s[0] && Interleaves(s[1..], a, b[1..]))
  }

  /** An interleaving is a permutation of what it interleaves. */
  lemma {:induction false} InterleavesPermutes(s: seq<string>, a: seq<string>, b: seq<string>)
    requires Interleaves(s, a, b)
    ensures multiset(a + b) == multiset(s)
    decreases |s|
  {
    if s != [] {
      assert s == [s[0]] + s[1..];
      if a != [] && a[0] == s[0] && Interleaves(s[1..], a[1..], b) {
        InterleavesPermutes(s[1..], a[1..], b);
        assert a + b == [a[0]] + (a[1..] + b);
      } else {
        InterleavesPermutes(s[1..], a, b[1..]);
        assert b == [b[0]] + b[1..];
        assert multiset(a + b) == multiset(a) + multiset(b);
      }
    }
  }

  /** The lower and upper groups of any suffix interleave to that suffix. */
  lemma {:induction false} GroupsInterleave(all: seq<string>, xs: seq<string>, index: int)
    ensures Interleaves(xs, Group(all, xs, index, false), Group(all, xs, index, true))
    decreases |xs|
  {
    if xs != [] {
      GroupsInterleave(all, xs[1..], index);
      var lo, hi := Group(all, xs, index, false), Group(all, xs, index, true);
      if IndexOf(all, xs[0]) > index {
        assert hi == [xs[0]] + Group(all, xs[1..], index, true);
        assert hi[1..] == Group(all, xs[1..], index, true);
        assert lo == Group(all, xs[1..], index, false);
      } else {
        assert lo == [xs[0]] + Group(all, xs[1..], index, false);
        assert lo[1..] == Group(all, xs[1..], index, false);
        assert hi == Group(all, xs[1..], index, true);
      }
    }
  }

  /** A group holds exactly the elements of xs on its side of `index`. */
  lemma {:induction false} GroupMembers(all: seq<string>, xs: seq<string>, index: int, upper: bool)
    ensures forall x :: x in Group(all, xs, index, upper) <==> x in xs && (IndexOf(all, x) > index) == upper
    decreases |xs|
  {
    if xs != [] {
      GroupMembers(all, xs[1..], index, upper);
      assert xs == [xs[0]] + xs[1..];
    }
  }

  /**
   * Both groups keep the input order and together are the input: the input
   * interleaves them, so their concatenation is a permutation of it.
   */
  lemma PartitionIsInterleaving(results: seq<string>, noOfThreads: nat)
    requires noOfThreads >= 1
    ensures var groups := Partition(results, noOfThreads);
      Interleaves(results, groups[0], groups[1]) &&
      multiset(groups[0] + groups[1]) == multiset(results)
  {
    var index := |results| / noOfThreads;
    GroupsInterleave(results, results, index);
    var groups := Partition(results, noOfThreads);
    InterleavesPermutes(results, groups[0], groups[1]);
  }

  /**
   * Which group an element lands in depends only on its first occurrence:
   * the first group holds those whose first index is at most size / n.
   */
  lemma PartitionMembers(results: seq<string>, noOfThreads: nat)
    requires noOfThreads >= 1
    ensures var index := |results| / noOfThreads;
      var groups := Partition(results, noOfThreads);
      && (forall x :: x in groups[0] <==> x in results && IndexOf(results, x) <= index)
      && (forall x :: x in groups[1] <==> x in results && IndexOf(results, x) > index)
  {
    var index := |results| / noOfThreads;
    GroupMembers(results, results, index, false);
    GroupMembers(results, results, index, true);
  }

  /** In a duplicate-free list, the first position of each element is its position. */
  lemma IndexOfDistinct(s: seq<string>, k: nat)
    requires Distinct(s) && k < |s|
    ensures IndexOf(s, s[k]) == k
  {
  }

  /** For a duplicate-free list, the groups of the suffix from j split it at `cut`. */
  lemma {:induction false} GroupsOfDistinctSuffix(all: seq<string>, j: nat, index: int, cut: nat)
    requires Distinct(all) && j <= |all|
    requires cut == if index + 1 < 0 then 0 else if index + 1 > |all| then |all| else index + 1
    ensures Group(all, all[j..], index, false) == if j <= cut then all[j..cut] else []
    ensures Group(all, all[j..], index, true) == if j <= cut then all[cut..] else all[j..]
    decreases |all| - j
  {
    if j < |all| {
      GroupsOfDistinctSuffix(all, j + 1, index, cut);
      IndexOfDistinct(all, j);
      assert all[j..][1..] == all[j + 1..];
      assert all[j..] == [all[j]] + all[j + 1..];
      if j < cut {
        assert all[j..cut] == [all[j]] + all[j + 1..cut];
      }
    }
  }

  /**
   * For a duplicate-free list, the first group is the first min(size, size / n + 1)
   * elements and the second group is the rest.
   */
  lemma PartitionDistinct(results: seq<string>, noOfThreads: nat)
    requires noOfThreads >= 1 && Distinct(results)
    ensures var cut := if |results| / noOfThreads + 1 < |results| then |results| / noOfThreads + 1 else |results|;
      Partition(results, noOfThreads) == [results[..cut], results[cut..]]
  {
    var index := |results| / noOfThreads;
    var cut := if index + 1 < |results| then index + 1 else |results|;
    GroupsOfDistinctSuffix(results, 0, index, cut);
    assert results[0..] == results;
  }

  /** Elements all on the lower side of `index` all stay in the lower group, in order. */
  lemma {:induction false} GroupAllLower(all: seq<string>, xs: seq<string>, index: int)
    requires forall x :: x in xs ==> IndexOf(all, x) <= index
    ensures Group(all, xs, index, false) == xs
    ensures Group(all, xs, index, true) == []
    decreases |xs|
  {
    if xs != [] {
      assert xs[0] in xs;
      GroupAllLower(all, xs[1..], index);
      assert xs == [xs[0]] + xs[1..];
    }
  }

  /** With a single worker the first group is the whole list and the second is empty. */
  lemma PartitionSingleWorker(results: seq<string>)
    ensures Partition(results, 1) == [results, []]
  {
    forall x | x in results
      ensures IndexOf(results, x) <= |results|
    {
    }
    GroupAllLower(results, results, |results|);
  }
}
