/** Optional values: a page that could not be fetched, a regex search that found nothing. */
module Wrappers {
  datatype Option<+T> = None | Some(value: T)
}

/** Character-level helpers shared by the scanners and the link cleaning. */
module Text {

  /** `w` occurs in `s` starting at index `m`. */
  predicate OccursAt(s: string, w: string, m: int) {
    0 <= m && m + |w| <= |s| && s[m..m + |w|] == w
  }

  /** An occurrence fixes each character it covers. */
  lemma OccursAtChars(s: string, w: string, m: int)
    requires OccursAt(s, w, m)
    ensures forall j :: 0 <= j < |w| ==> s[m + j] == w[j]
  {
    forall j | 0 <= j < |w|
      ensures s[m + j] == w[j]
    {
      assert s[m..m + |w|][j] == s[m + j];
    }
  }

  /** No element occurs twice. */
  ghost predicate Distinct(s: seq<string>) {
    forall a, b :: 0 <= a < b < |s| ==> s[a] != s[b]
  }

  /**
   * Sequence concatenation is associative. Stated once for any element type and
   * called from the extraction loops, where the same step written as an inline
   * assertion is proved in the loop's much larger context.
   */
  lemma AppendAssoc<T>(a: seq<T>, b: seq<T>, c: seq<T>)
    ensures (a + b) + c == a + (b + c)
  {
  }

  /** One differing character rules an occurrence out. */
  lemma NotOccursAt(s: string, w: string, m: int, j: int)
    requires 0 <= j < |w| && 0 <= m && m + j < |s| && s[m + j] != w[j]
    ensures !OccursAt(s, w, m)
  {
    if OccursAt(s, w, m) {
      OccursAtChars(s, w, m);
    }
  }

  /** The line terminators of java.util.regex: without DOTALL, `.` matches none of them. */
  predicate IsLineTerminator(c: char) {
    c == '\n' || c == '\r' || c == '\U{85}' || c == '\U{2028}' || c == '\U{2029}'
  }

  /** `s` lies on one line: it holds no line terminator. */
  predicate LineFree(s: string) {
    forall m :: 0 <= m < |s| ==> !IsLineTerminator(s[m])
  }

  /**
   * Java's `s.replace(w, "")`: one left-to-right pass that deletes every
   * non-overlapping occurrence of `w`; text that a deletion brings together
   * is not searched again.
   */
  function RemoveAll(s: string, w: string): (r: string)
    requires w != []
    ensures |r| <= |s|
    decreases |s|
  {
    if s == [] then []
    else if OccursAt(s, w, 0) then RemoveAll(s[|w|..], w)
    else [s[0]] + RemoveAll(s[1..], w)
  }

  /** Deleting never starts inside a prefix `a` none of whose positions starts an occurrence. */
  lemma {:induction false} RemoveAllKeepsPrefix(a: string, b: string, w: string)
    requires w != []
    requires forall k :: 0 <= k < |a| ==> !OccursAt(a + b, w, k)
    ensures RemoveAll(a + b, w) == a + RemoveAll(b, w)
    decreases |a|
  {
    if a != [] {
      assert !OccursAt(a + b, w, 0);
      assert (a + b)[1..] == a[1..] + b;
      forall k | 0 <= k < |a[1..]|
        ensures !OccursAt(a[1..] + b, w, k)
      {
        assert !OccursAt(a + b, w, k + 1);
      }
      RemoveAllKeepsPrefix(a[1..], b, w);
      assert RemoveAll(a + b, w) == [a[0]] + RemoveAll(a[1..] + b, w);
      assert a == [a[0]] + a[1..];
    } else {
      assert a + b == b;
    }
  }

  /** A last character that does not occur in `w` survives as the last character. */
  lemma {:induction false} RemoveAllKeepsLast(s: string, w: string)
    requires w != [] && s != [] && s[|s| - 1] !in w
    ensures RemoveAll(s, w) != [] && RemoveAll(s, w)[|RemoveAll(s, w)| - 1] == s[|s| - 1]
    decreases |s|
  {
    if OccursAt(s, w, 0) {
      if |w| == |s| {
        assert false;
      }
      assert s[|w|..][|s[|w|..]| - 1] == s[|s| - 1];
      RemoveAllKeepsLast(s[|w|..], w);
    } else if |s| > 1 {
      assert s[1..][|s[1..]| - 1] == s[|s| - 1];
      RemoveAllKeepsLast(s[1..], w);
    }
  }

  /** Deleting a single character `c` removes exactly the copies of `c` and keeps everything else. */
  lemma {:induction false} RemoveCharCounts(s: string, c: char)
    ensures c !in RemoveAll(s, [c])
    ensures multiset(RemoveAll(s, [c])) == multiset(s)[c := 0]
    decreases |s|
  {
    if s != [] {
      RemoveCharCounts(s[1..], c);
      assert s == [s[0]] + s[1..];
      assert s[0..1] == [s[0]];
    }
  }

  /** Deleting a character that does not occur changes nothing. */
  lemma {:induction false} RemoveAbsentChar(s: string, c: char)
    requires c !in s
    ensures RemoveAll(s, [c]) == s
    decreases |s|
  {
    if s != [] {
      assert s[0..1] == [s[0]];
      RemoveAbsentChar(s[1..], c);
    }
  }

  /** Deleting a single character distributes over concatenation. */
  lemma {:induction false} RemoveCharAppend(a: string, b: string, c: char)
    ensures RemoveAll(a + b, [c]) == RemoveAll(a, [c]) + RemoveAll(b, [c])
    decreases |a|
  {
    if a != [] {
      assert (a + b)[1..] == a[1..] + b;
      assert (a + b)[0..1] == a[0..1] == [a[0]];
      RemoveCharAppend(a[1..], b, c);
      if a[0] == c {
        assert RemoveAll(a + b, [c]) == RemoveAll(a[1..] + b, [c]);
        assert RemoveAll(a, [c]) == RemoveAll(a[1..], [c]);
      } else {
        assert RemoveAll(a + b, [c]) == [a[0]] + RemoveAll(a[1..] + b, [c]);
        assert RemoveAll(a, [c]) == [a[0]] + RemoveAll(a[1..], [c]);
      }
    } else {
      assert a + b == b;
    }
  }
}
