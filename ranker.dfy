/**
 * The ranking of the collected script references: count each distinct
 * reference (`groupingBy(identity(), counting())`), sort the entries by count
 * in descending order (`sorted(reverseOrder(comparingByValue()))`) and keep
 * the keys of the first five (`limit(5)`).
 *
 * The counting map is a `HashMap`, so the order in which entries with equal
 * counts reach the stable sort is not fixed by the program. The model feeds
 * them to the sort in first-occurrence order; `TopFiveSpec` states what holds
 * whatever the order of ties.
 */
module Ranker {
  import opened Text

  /** How many references are reported. */
  const TopCount: nat := 5

  /** A map entry: a reference and how often it occurs. */
  type Entry = (string, nat)

  /** The counting map: every element of xs, with the number of times it occurs. */
  function Tally(xs: seq<string>): (m: map<string, nat>)
    ensures forall x :: x in m <==> x in xs
    ensures forall x :: x in m ==> m[x] == multiset(xs)[x]
    decreases |xs|
  {
    if xs == [] then map[]
    else
      var front, last := xs[..|xs| - 1], xs[|xs| - 1];
      assert xs == front + [last];
      var m := Tally(front);
      m[last := if last in m then m[last] + 1 else 1]
  }

  /** The distinct elements of xs, each at its first occurrence. */
  function FirstSeen(xs: seq<string>): (ks: seq<string>)
    ensures Distinct(ks)
    ensures forall x :: x in ks <==> x in xs
    decreases |xs|
  {
    if xs == [] then []
    else
      var front, last := xs[..|xs| - 1], xs[|xs| - 1];
      assert xs == front + [last];
      var ks := FirstSeen(front);
      if last in ks then ks else ks + [last]
  }

  /** The total of the counts m holds for the keys ks. */
  function SumCounts(ks: seq<string>, m: map<string, nat>): nat
    requires forall k :: k in ks ==> k in m
    decreases |ks|
  {
    if ks == [] then 0
    else
      assert forall k :: k in ks[..|ks| - 1] ==> k in ks;
      SumCounts(ks[..|ks| - 1], m) + m[ks[|ks| - 1]]
  }

  /** Maps that agree on the keys give the same total. */
  lemma {:induction false} SumCountsAgree(ks: seq<string>, m1: map<string, nat>, m2: map<string, nat>)
    requires forall k :: k in ks ==> k in m1 && k in m2 && m1[k] == m2[k]
    ensures SumCounts(ks, m1) == SumCounts(ks, m2)
    decreases |ks|
  {
    if ks != [] {
      assert forall k :: k in ks[..|ks| - 1] ==> k in ks;
      SumCountsAgree(ks[..|ks| - 1], m1, m2);
    }
  }

  /** Raising the count of one key, which occurs once among the keys, raises the total by one. */
  lemma {:induction false} SumCountsBump(ks: seq<string>, m1: map<string, nat>, m2: map<string, nat>, x: string)
    requires Distinct(ks) && x in ks
    requires forall k :: k in ks ==> k in m1 && k in m2
    requires m2[x] == m1[x] + 1
    requires forall k :: k in ks && k != x ==> m2[k] == m1[k]
    ensures SumCounts(ks, m2) == SumCounts(ks, m1) + 1
    decreases |ks|
  {
    var front := ks[..|ks| - 1];
    assert forall k :: k in front ==> k in ks;
    if ks[|ks| - 1] == x {
      SumCountsAgree(front, m1, m2);
    } else {
      assert ks == front + [ks[|ks| - 1]];
      SumCountsBump(front, m1, m2, x);
    }
  }

  /** Every collected reference is counted once: the counts add up to the number of references. */
  lemma {:induction false} TallySum(xs: seq<string>)
    ensures SumCounts(FirstSeen(xs), Tally(xs)) == |xs|
    decreases |xs|
  {
    if xs != [] {
      var front, last := xs[..|xs| - 1], xs[|xs| - 1];
      var ks, m := FirstSeen(front), Tally(front);
      TallySum(front);
      if last in ks {
        SumCountsBump(ks, m, Tally(xs), last);
      } else {
        SumCountsAgree(ks, m, Tally(xs));
        assert (ks + [last])[..|ks|] == ks;
      }
    }
  }

  /** A duplicate-free list is as long as the set of its elements is large. */
  lemma {:induction false} DistinctCard(s: seq<string>)
    requires Distinct(s)
    ensures |set x | x in s| == |s|
    decreases |s|
  {
    if s != [] {
      var front := s[..|s| - 1];
      DistinctCard(front);
      assert (set x | x in s) == (set x | x in front) + {s[|s| - 1]};
      assert s[|s| - 1] !in front;
    }
  }

  /** The entries of the map, listed in the order of ks. */
  function EntriesOf(ks: seq<string>, m: map<string, nat>): (es: seq<Entry>)
    requires forall k :: k in ks ==> k in m
    ensures |es| == |ks|
    ensures forall i :: 0 <= i < |ks| ==> es[i] == (ks[i], m[ks[i]])
    decreases |ks|
  {
    if ks == [] then [] else [(ks[0], m[ks[0]])] + EntriesOf(ks[1..], m)
  }

  /** The counts never go up along the list. */
  ghost predicate NonIncreasing(es: seq<Entry>) {
    forall a, b :: 0 <= a < b < |es| ==> es[a].1 >= es[b].1
  }

  /** No reference has two entries. */
  ghost predicate DistinctKeys(es: seq<Entry>) {
    forall a, b :: 0 <= a < b < |es| ==> es[a].0 != es[b].0
  }

  /**
   * One step of a stable sort by descending count: e goes after every entry
   * whose count is at least its own.
   */
  function Insert(e: Entry, s: seq<Entry>): (r: seq<Entry>)
    ensures |r| == |s| + 1
    ensures multiset(r) == multiset(s) + multiset{e}
    decreases |s|
  {
    if s == [] then [e]
    else if s[0].1 < e.1 then [e] + s
    else
      assert s == [s[0]] + s[1..];
      [s[0]] + Insert(e, s[1..])
  }

  /** What the insertion holds is e and what s held. */
  lemma InsertMembers(e: Entry, s: seq<Entry>)
    ensures forall x :: x in Insert(e, s) <==> x == e || x in s
  {
    forall x
      ensures x in Insert(e, s) <==> x == e || x in s
    {
      assert x in Insert(e, s) <==> x in multiset(Insert(e, s));
      assert x in s <==> x in multiset(s);
    }
  }

  /** Inserting into a list sorted by descending count keeps it sorted. */
  lemma {:induction false} InsertSorted(e: Entry, s: seq<Entry>)
    requires NonIncreasing(s)
    ensures NonIncreasing(Insert(e, s))
    decreases |s|
  {
    if s != [] && s[0].1 >= e.1 {
      var rest := Insert(e, s[1..]);
      InsertSorted(e, s[1..]);
      InsertMembers(e, s[1..]);
      var r := [s[0]] + rest;
      forall a, b | 0 <= a < b < |r|
        ensures r[a].1 >= r[b].1
      {
        if a == 0 {
          assert r[b] in rest;
          if r[b] != e {
            var j :| 0 <= j < |s[1..]| && s[1..][j] == r[b];
            assert s[j + 1] == r[b];
          }
        } else {
          assert r[a] == rest[a - 1] && r[b] == rest[b - 1];
        }
      }
    }
  }

  /** Inserting an entry whose reference is new keeps the references distinct. */
  lemma {:induction false} InsertDistinctKeys(e: Entry, s: seq<Entry>)
    requires DistinctKeys(s)
    requires forall x :: x in s ==> x.0 != e.0
    ensures DistinctKeys(Insert(e, s))
    decreases |s|
  {
    if s != [] && s[0].1 >= e.1 {
      var rest := Insert(e, s[1..]);
      InsertDistinctKeys(e, s[1..]);
      InsertMembers(e, s[1..]);
      assert forall x :: x in rest ==> x.0 != s[0].0 by {
        forall x | x in rest
          ensures x.0 != s[0].0
        {
          if x != e {
            var j :| 0 <= j < |s[1..]| && s[1..][j] == x;
            assert s[j + 1] == x;
          }
        }
      }
      var r := [s[0]] + rest;
      forall a, b | 0 <= a < b < |r|
        ensures r[a].0 != r[b].0
      {
        if a == 0 {
          assert r[b] in rest;
        } else {
          assert r[a] == rest[a - 1] && r[b] == rest[b - 1];
        }
      }
    }
  }

  /** The stable insertion sort of the entries by descending count. */
  function SortEntries(es: seq<Entry>): (r: seq<Entry>)
    ensures |r| == |es|
    ensures multiset(r) == multiset(es)
    ensures NonIncreasing(r)
    decreases |es|
  {
    if es == [] then []
    else
      var front := es[..|es| - 1];
      assert es == front + [es[|es| - 1]];
      InsertSorted(es[|es| - 1], SortEntries(front));
      Insert(es[|es| - 1], SortEntries(front))
  }

  /** Sorting keeps the references distinct. */
  lemma {:induction false} SortEntriesDistinctKeys(es: seq<Entry>)
    requires DistinctKeys(es)
    ensures DistinctKeys(SortEntries(es))
    decreases |es|
  {
    if es != [] {
      var front, last := es[..|es| - 1], es[|es| - 1];
      SortEntriesDistinctKeys(front);
      forall x | x in SortEntries(front)
        ensures x.0 != last.0
      {
        assert x in multiset(SortEntries(front));
        var j :| 0 <= j < |front| && front[j] == x;
        assert es[j] == x;
      }
      InsertDistinctKeys(last, SortEntries(front));
    }
  }

  /** The counting map's entries, sorted by descending count. */
  function Ranked(xs: seq<string>): seq<Entry> {
    SortEntries(EntriesOf(FirstSeen(xs), Tally(xs)))
  }

  /** There is one ranked entry per distinct reference. */
  lemma RankedSize(xs: seq<string>)
    ensures |Ranked(xs)| == |set x | x in xs|
  {
    var ks := FirstSeen(xs);
    DistinctCard(ks);
    assert (set x | x in ks) == (set x | x in xs);
  }

  /** No reference is ranked twice. */
  lemma RankedDistinctKeys(xs: seq<string>)
    ensures DistinctKeys(Ranked(xs))
  {
    var es := EntriesOf(FirstSeen(xs), Tally(xs));
    assert DistinctKeys(es);
    SortEntriesDistinctKeys(es);
  }

  /** Each ranked entry is a collected reference with its number of occurrences. */
  lemma RankedCounts(xs: seq<string>)
    ensures forall e :: e in Ranked(xs) ==> e.0 in xs && e.1 == multiset(xs)[e.0]
  {
    var es := EntriesOf(FirstSeen(xs), Tally(xs));
    forall e | e in Ranked(xs)
      ensures e.0 in xs && e.1 == multiset(xs)[e.0]
    {
      assert e in multiset(Ranked(xs));
      assert e in multiset(es);
    }
  }

  /** Every collected reference is ranked. */
  lemma RankedCovers(xs: seq<string>)
    ensures forall x :: x in xs ==> exists j :: 0 <= j < |Ranked(xs)| && Ranked(xs)[j].0 == x
  {
    var ks := FirstSeen(xs);
    var es := EntriesOf(ks, Tally(xs));
    var r := Ranked(xs);
    forall x | x in xs
      ensures exists j :: 0 <= j < |r| && r[j].0 == x
    {
      var i :| 0 <= i < |ks| && ks[i] == x;
      assert es[i] in multiset(es);
      assert es[i] in multiset(r);
      var j :| 0 <= j < |r| && r[j] == es[i];
    }
  }

  /**
   * The ranked entries: one per distinct reference, each with its number of
   * occurrences, counts never increasing.
   */
  lemma RankedEntries(xs: seq<string>)
    ensures |Ranked(xs)| == |set x | x in xs|
    ensures NonIncreasing(Ranked(xs))
    ensures DistinctKeys(Ranked(xs))
    ensures forall e :: e in Ranked(xs) ==> e.0 in xs && e.1 == multiset(xs)[e.0]
    ensures forall x :: x in xs ==> exists j :: 0 <= j < |Ranked(xs)| && Ranked(xs)[j].0 == x
  {
    RankedSize(xs);
    RankedDistinctKeys(xs);
    RankedCounts(xs);
    RankedCovers(xs);
  }

  /** The references of the entries, in order. */
  function Keys(es: seq<Entry>): (ks: seq<string>)
    ensures |ks| == |es|
    ensures forall i :: 0 <= i < |es| ==> ks[i] == es[i].0
    decreases |es|
  {
    if es == [] then [] else [es[0].0] + Keys(es[1..])
  }

  /** The references printed: the keys of the first `TopCount` ranked entries. */
  function TopFive(xs: seq<string>): seq<string> {
    var ranked := Ranked(xs);
    Keys(if |ranked| <= TopCount then ranked else ranked[..TopCount])
  }

  /** The reported references are the references of the leading ranked entries. */
  lemma TopFivePrefix(xs: seq<string>)
    ensures |TopFive(xs)| == if |Ranked(xs)| <= TopCount then |Ranked(xs)| else TopCount
    ensures forall i :: 0 <= i < |TopFive(xs)| ==> TopFive(xs)[i] == Ranked(xs)[i].0
  {
    var ranked := Ranked(xs);
    var top := if |ranked| <= TopCount then ranked else ranked[..TopCount];
    assert forall i :: 0 <= i < |top| ==> top[i] == ranked[i];
  }

  /** Every reported reference was collected, and none is reported twice. */
  lemma TopFiveDistinct(xs: seq<string>)
    ensures forall x :: x in TopFive(xs) ==> x in xs
    ensures forall a, b :: 0 <= a < b < |TopFive(xs)| ==> TopFive(xs)[a] != TopFive(xs)[b]
  {
    TopFivePrefix(xs);
    RankedDistinctKeys(xs);
    RankedCounts(xs);
    var r, ranked := TopFive(xs), Ranked(xs);
    forall x | x in r
      ensures x in xs
    {
      var i :| 0 <= i < |r| && r[i] == x;
      assert ranked[i] in ranked;
    }
  }

  /** The reported references come in order of their number of occurrences, most first. */
  lemma TopFiveOrdered(xs: seq<string>)
    ensures forall a, b :: 0 <= a < b < |TopFive(xs)| ==> multiset(xs)[TopFive(xs)[a]] >= multiset(xs)[TopFive(xs)[b]]
  {
    TopFivePrefix(xs);
    RankedCounts(xs);
    var r, ranked := TopFive(xs), Ranked(xs);
    forall a, b | 0 <= a < b < |r|
      ensures multiset(xs)[r[a]] >= multiset(xs)[r[b]]
    {
      assert ranked[a] in ranked && ranked[b] in ranked;
    }
  }

  /** No collected reference left out occurs more often than a reported one. */
  lemma TopFiveMaximal(xs: seq<string>)
    ensures forall x, y :: x in TopFive(xs) && y in xs && y !in TopFive(xs) ==> multiset(xs)[x] >= multiset(xs)[y]
  {
    TopFivePrefix(xs);
    RankedCounts(xs);
    RankedCovers(xs);
    var r, ranked := TopFive(xs), Ranked(xs);
    forall x, y | x in r && y in xs && y !in r
      ensures multiset(xs)[x] >= multiset(xs)[y]
    {
      var a :| 0 <= a < |r| && r[a] == x;
      var j :| 0 <= j < |ranked| && ranked[j].0 == y;
      assert ranked[a] in ranked && ranked[j] in ranked;
      assert a < |r| <= j;
    }
  }

  /**
   * The top five: as many as there are distinct references, up to five; no
   * repeats; each one collected; ordered by count; and no reference left out
   * occurs more often than any reference reported.
   */
  lemma TopFiveSpec(xs: seq<string>)
    ensures var r := TopFive(xs);
      && |r| == (if |set x | x in xs| <= TopCount then |set x | x in xs| else TopCount)
      && (forall a, b :: 0 <= a < b < |r| ==> r[a] != r[b])
      && (forall x :: x in r ==> x in xs)
      && (forall a, b :: 0 <= a < b < |r| ==> multiset(xs)[r[a]] >= multiset(xs)[r[b]])
      && (forall x, y :: x in r && y in xs && y !in r ==> multiset(xs)[x] >= multiset(xs)[y])
  {
    TopFivePrefix(xs);
    RankedSize(xs);
    TopFiveDistinct(xs);
    TopFiveOrdered(xs);
    TopFiveMaximal(xs);
  }

  /** Fewer than five distinct references: every one of them is reported. */
  lemma TopFiveAll(xs: seq<string>)
    requires |set x | x in xs| <= TopCount
    ensures forall x :: x in xs <==> x in TopFive(xs)
  {
    var ranked := Ranked(xs);
    RankedSize(xs);
    RankedCovers(xs);
    TopFivePrefix(xs);
    TopFiveDistinct(xs);
    forall x | x in xs
      ensures x in TopFive(xs)
    {
      var j :| 0 <= j < |ranked| && ranked[j].0 == x;
      assert TopFive(xs)[j] == x;
    }
  }
}
