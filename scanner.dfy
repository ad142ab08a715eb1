/**
 * The two fixed regular expressions of GoogleSearch, written as dedicated
 * scanners, and the `while (matcher.find())` search that both extractors run.
 *
 *   ScriptTag  stands for  <script src(.*?)</script>
 *   HttpsHref  stands for  href="https:[^>][^"]*"
 *
 * MatchEnd gives the end of the match the regex engine reports for a match
 * attempt starting at one index; NextMatch is one call of `find()`; Spans is
 * the whole sequence of matches `find()` reports, each search resuming where
 * the previous match ended.
 */
module Scanner {
  import opened Wrappers
  import opened Text

  /** Literal text that opens a script match. */
  const ScriptOpen: string := "<script src"
  /** Literal text that closes a script match. */
  const ScriptClose: string := "</script>"
  /** Literal text of the link pattern, up to its first character class. */
  const HrefPrefix: string := "href=\"https:"

  datatype Pattern = ScriptTag | HttpsHref

  /**
   * The lazy `(.*?)</script>` tail from index k: the first `</script>` at or
   * after k that is reached without crossing a line terminator.
   */
  function CloseFrom(page: string, k: nat): (r: Option<nat>)
    ensures r.Some? ==>
      && k <= r.value
      && OccursAt(page, ScriptClose, r.value)
      && LineFree(page[k..r.value])
      && forall m :: k <= m < r.value ==> !OccursAt(page, ScriptClose, m)
    ensures r.None? ==>
      forall j :: k <= j && OccursAt(page, ScriptClose, j) ==> !LineFree(page[k..j])
    decreases |page| - k
  {
    if OccursAt(page, ScriptClose, k) then Some(k)
    else if k >= |page| || IsLineTerminator(page[k]) then None
    else
      var r := CloseFrom(page, k + 1);
      assert r.Some? ==> page[k..r.value] == [page[k]] + page[k + 1..r.value];
      assert r.None? ==> forall j :: k < j && OccursAt(page, ScriptClose, j) ==>
        page[k..j] == [page[k]] + page[k + 1..j];
      r
  }

  /** The greedy `[^"]*"` tail from index k: the first `"` at or after k. */
  function QuoteFrom(page: string, k: nat): (r: Option<nat>)
    requires k <= |page|
    ensures r.Some? ==> k <= r.value < |page| && page[r.value] == '"' && '"' !in page[k..r.value]
    ensures r.None? ==> '"' !in page[k..]
    decreases |page| - k
  {
    if k == |page| then None
    else if page[k] == '"' then Some(k)
    else
      var r := QuoteFrom(page, k + 1);
      assert r.Some? ==> page[k..r.value] == [page[k]] + page[k + 1..r.value];
      assert page[k..] == [page[k]] + page[k + 1..];
      r
  }

  /** End of the match that an attempt at index i finds, if the attempt succeeds. */
  function MatchEnd(pat: Pattern, page: string, i: nat): (r: Option<nat>)
    ensures r.Some? ==> i < r.value <= |page|
  {
    match pat
    case ScriptTag =>
      if OccursAt(page, ScriptOpen, i) then
        match CloseFrom(page, i + |ScriptOpen|)
        case Some(j) => Some(j + |ScriptClose|)
        case None => None
      else None
    case HttpsHref =>
      if OccursAt(page, HrefPrefix, i) && i + |HrefPrefix| < |page| && page[i + |HrefPrefix|] != '>' then
        match QuoteFrom(page, i + |HrefPrefix| + 1)
        case Some(q) => Some(q + 1)
        case None => None
      else None
  }

  /**
   * What it means for page[i..e] to be the match the regex reports at index i,
   * stated without any search: for the script pattern, an opening, a
   * single-line middle holding no `</script>`, then `</script>`; for the link
   * pattern, the literal prefix, one character other than `>`, then
   * characters other than `"` up to a closing `"`.
   */
  ghost predicate IsMatch(pat: Pattern, page: string, i: nat, e: nat) {
    match pat
    case ScriptTag =>
      && i + |ScriptOpen| + |ScriptClose| <= e <= |page|
      && OccursAt(page, ScriptOpen, i)
      && OccursAt(page, ScriptClose, e - |ScriptClose|)
      && LineFree(page[i + |ScriptOpen|..e - |ScriptClose|])
      && forall m :: i + |ScriptOpen| <= m < e - |ScriptClose| ==> !OccursAt(page, ScriptClose, m)
    case HttpsHref =>
      && i + |HrefPrefix| + 2 <= e <= |page|
      && OccursAt(page, HrefPrefix, i)
      && page[i + |HrefPrefix|] != '>'
      && page[e - 1] == '"'
      && '"' !in page[i + |HrefPrefix| + 1..e - 1]
  }

  /** The scanner's match at an index is exactly the match the pattern describes there. */
  lemma MatchEndIsMatch(pat: Pattern, page: string, i: nat, e: nat)
    ensures MatchEnd(pat, page, i) == Some(e) <==> IsMatch(pat, page, i, e)
  {
    if IsMatch(pat, page, i, e) {
      match pat {
        case ScriptTag =>
          match CloseFrom(page, i + |ScriptOpen|) {
            case None =>
              assert false;
            case Some(j) =>
              if j != e - |ScriptClose| {
                assert false;
              }
          }
        case HttpsHref =>
          match QuoteFrom(page, i + |HrefPrefix| + 1) {
            case None =>
              assert false;
            case Some(q) =>
              if q != e - 1 {
                assert false;
              }
          }
      }
    }
  }

  /**
   * One call of `Matcher.find()` from index p: the leftmost index at or after
   * p where an attempt succeeds, with the end of that match.
   */
  function NextMatch(pat: Pattern, page: string, p: nat): (r: Option<(nat, nat)>)
    ensures r.Some? ==>
      && p <= r.value.0
      && MatchEnd(pat, page, r.value.0) == Some(r.value.1)
      && forall k :: p <= k < r.value.0 ==> MatchEnd(pat, page, k).None?
    ensures r.None? ==> forall k :: p <= k ==> MatchEnd(pat, page, k).None?
    decreases |page| - p
  {
    if p >= |page| then None
    else
      match MatchEnd(pat, page, p)
      case Some(e) => Some((p, e))
      case None => NextMatch(pat, page, p + 1)
  }

  /** No match attempt at an index in [lo, hi) succeeds. */
  ghost predicate NoMatchIn(pat: Pattern, page: string, lo: nat, hi: nat) {
    forall k :: lo <= k < hi ==> MatchEnd(pat, page, k).None?
  }

  /**
   * `sp` is what repeated `find()` from p reports: every span is a match,
   * the first is the leftmost at or after p, each later one is the leftmost
   * at or after the end of the one before, and nothing matches after the last.
   */
  ghost predicate FindsAll(pat: Pattern, page: string, p: nat, sp: seq<(nat, nat)>) {
    && (forall idx :: 0 <= idx < |sp| ==> MatchEnd(pat, page, sp[idx].0) == Some(sp[idx].1))
    && (sp == [] ==> NoMatchIn(pat, page, p, |page|))
    && (sp != [] ==> p <= sp[0].0 && NoMatchIn(pat, page, p, sp[0].0))
    && (forall a, b :: 0 <= a && b == a + 1 && b < |sp| ==>
          sp[a].1 <= sp[b].0 && NoMatchIn(pat, page, sp[a].1, sp[b].0))
    && (sp != [] ==> NoMatchIn(pat, page, sp[|sp| - 1].1, |page|))
  }

  /** Prepending the leftmost match from p to the matches found after it. */
  lemma FindsAllCons(pat: Pattern, page: string, p: nat, rest: seq<(nat, nat)>)
    requires NextMatch(pat, page, p).Some?
    requires FindsAll(pat, page, NextMatch(pat, page, p).value.1, rest)
    ensures FindsAll(pat, page, p, [NextMatch(pat, page, p).value] + rest)
  {
    var (i, e) := NextMatch(pat, page, p).value;
    var sp := [(i, e)] + rest;
    forall a, b | 0 <= a && b == a + 1 && b < |sp|
      ensures sp[a].1 <= sp[b].0 && NoMatchIn(pat, page, sp[a].1, sp[b].0)
    {
      if a > 0 {
        assert sp[a] == rest[a - 1] && sp[b] == rest[b - 1];
      }
    }
    if rest == [] {
      assert NoMatchIn(pat, page, sp[|sp| - 1].1, |page|);
    } else {
      assert sp[|sp| - 1] == rest[|rest| - 1];
    }
  }

  /** Dropping the first match leaves what `find()` reports from that match's end. */
  lemma FindsAllTail(pat: Pattern, page: string, p: nat, sp: seq<(nat, nat)>)
    requires sp != [] && FindsAll(pat, page, p, sp)
    ensures FindsAll(pat, page, sp[0].1, sp[1..])
  {
    var rest := sp[1..];
    forall a, b | 0 <= a && b == a + 1 && b < |rest|
      ensures rest[a].1 <= rest[b].0 && NoMatchIn(pat, page, rest[a].1, rest[b].0)
    {
      assert rest[a] == sp[a + 1] && rest[b] == sp[b + 1];
    }
    if rest != [] {
      assert rest[0] == sp[1];
    }
  }

  /** The spans of all matches reported by repeated `find()` starting at index p. */
  function Spans(pat: Pattern, page: string, p: nat): (sp: seq<(nat, nat)>)
    ensures FindsAll(pat, page, p, sp)
    ensures forall idx :: 0 <= idx < |sp| ==> sp[idx].0 < sp[idx].1 <= |page|
    decreases |page| - p
  {
    match NextMatch(pat, page, p)
    case None => []
    case Some((i, e)) =>
      var rest := Spans(pat, page, e);
      FindsAllCons(pat, page, p, rest);
      [(i, e)] + rest
  }

  /** One step of repeated `find()`: the first match, then the matches after its end. */
  lemma SpansStep(pat: Pattern, page: string, p: nat)
    ensures NextMatch(pat, page, p).None? ==> Spans(pat, page, p) == []
    ensures NextMatch(pat, page, p).Some? ==>
      Spans(pat, page, p) == [NextMatch(pat, page, p).value] + Spans(pat, page, NextMatch(pat, page, p).value.1)
  {
  }

  /** The first span FindsAll admits is the one `find()` reports. */
  lemma FindsAllHead(pat: Pattern, page: string, p: nat, sp: seq<(nat, nat)>)
    requires FindsAll(pat, page, p, sp)
    ensures NextMatch(pat, page, p) == if sp == [] then None else Some(sp[0])
  {
    var first := NextMatch(pat, page, p);
    if sp != [] {
      var i := sp[0].0;
      assert MatchEnd(pat, page, i).Some?;
      var i' := first.value.0;
      assert i' < i ==> MatchEnd(pat, page, i').None?;
      assert i < i' ==> MatchEnd(pat, page, i).None?;
    }
  }

  /** Repeated `find()` has only one possible outcome: FindsAll determines the spans. */
  lemma {:induction false} FindsAllUnique(pat: Pattern, page: string, p: nat, sp: seq<(nat, nat)>)
    requires FindsAll(pat, page, p, sp)
    ensures sp == Spans(pat, page, p)
    decreases |page| - p
  {
    FindsAllHead(pat, page, p, sp);
    if sp != [] {
      FindsAllTail(pat, page, p, sp);
      FindsAllUnique(pat, page, sp[0].1, sp[1..]);
      assert sp == [sp[0]] + sp[1..];
    }
  }

  /** Reported matches do not overlap and come in left-to-right order. */
  lemma {:induction false} SpansOrdered(pat: Pattern, page: string, p: nat, a: nat, b: nat)
    requires a < b < |Spans(pat, page, p)|
    ensures Spans(pat, page, p)[a].1 <= Spans(pat, page, p)[b].0
    decreases b - a
  {
    var sp := Spans(pat, page, p);
    assert sp[b - 1].1 <= sp[b].0;
    if a < b - 1 {
      SpansOrdered(pat, page, p, a, b - 1);
    }
  }

  /** One attempt of `<script src(.*?)</script>` at index i: the lazy tail scans forward to the first `</script>`. */
  method ScanScript(page: string, i: nat) returns (r: Option<nat>)
    ensures r == MatchEnd(ScriptTag, page, i)
  {
    if !OccursAt(page, ScriptOpen, i) {
      return None;
    }
    var k := i + |ScriptOpen|;
    while !OccursAt(page, ScriptClose, k) && k < |page| && !IsLineTerminator(page[k])
      invariant i + |ScriptOpen| <= k <= |page|
      invariant CloseFrom(page, k) == CloseFrom(page, i + |ScriptOpen|)
      decreases |page| - k
    {
      k := k + 1;
    }
    r := if OccursAt(page, ScriptClose, k) then Some(k + |ScriptClose|) else None;
  }

  /** One attempt of `href="https:[^>][^"]*"` at index i: one character other than `>`, then up to the first `"`. */
  method ScanLink(page: string, i: nat) returns (r: Option<nat>)
    ensures r == MatchEnd(HttpsHref, page, i)
  {
    var h := i + |HrefPrefix|;
    if !(OccursAt(page, HrefPrefix, i) && h < |page| && page[h] != '>') {
      return None;
    }
    var q := h + 1;
    while q < |page| && page[q] != '"'
      invariant h + 1 <= q <= |page|
      invariant QuoteFrom(page, q) == QuoteFrom(page, h + 1)
      decreases |page| - q
    {
      q := q + 1;
    }
    r := if q < |page| then Some(q + 1) else None;
  }

  /** A scanner over the page for one match attempt, as the regex engine runs it. */
  method ScanMatch(pat: Pattern, page: string, i: nat) returns (r: Option<nat>)
    ensures r == MatchEnd(pat, page, i)
  {
    match pat
    case ScriptTag =>
      r := ScanScript(page, i);
    case HttpsHref =>
      r := ScanLink(page, i);
  }

  /** `Matcher.find()` from index p, trying each start index in turn. */
  method Find(pat: Pattern, page: string, p: nat) returns (r: Option<(nat, nat)>)
    ensures r == NextMatch(pat, page, p)
  {
    var i := p;
    while i < |page|
      invariant p <= i
      invariant NextMatch(pat, page, i) == NextMatch(pat, page, p)
      decreases |page| - i
    {
      var e := ScanMatch(pat, page, i);
      if e.Some? {
        return Some((i, e.value));
      }
      i := i + 1;
    }
    return None;
  }
}
