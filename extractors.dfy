/**
 * The two extractors of GoogleSearch: `javaScriptLibraries`, which collects
 * every script reference of a fetched page, and the text part of
 * `searchResults`, which collects the result links of the search page.
 * Both loop over `matcher.find()` and append to a list.
 */
module Extractors {
  import opened Wrappers
  import opened Text
  import opened Scanner

  /** The substrings of `page` that the spans cover, in order. */
  function Slices(page: string, sp: seq<(nat, nat)>): (r: seq<string>)
    requires forall idx :: 0 <= idx < |sp| ==> sp[idx].0 <= sp[idx].1 <= |page|
    ensures |r| == |sp|
    ensures forall idx :: 0 <= idx < |sp| ==> r[idx] == page[sp[idx].0..sp[idx].1]
  {
    if sp == [] then [] else [page[sp[0].0..sp[0].1]] + Slices(page, sp[1..])
  }

  lemma SlicesCons(page: string, s: (nat, nat), rest: seq<(nat, nat)>)
    requires s.0 <= s.1 <= |page|
    requires forall idx :: 0 <= idx < |rest| ==> rest[idx].0 <= rest[idx].1 <= |page|
    ensures Slices(page, [s] + rest) == [page[s.0..s.1]] + Slices(page, rest)
  {
    assert ([s] + rest)[1..] == rest;
  }

  /** One step of the `while (matcher.find())` loops, on the matched texts. */
  lemma MatchedTextsStep(pat: Pattern, page: string, pos: nat)
    ensures NextMatch(pat, page, pos).None? ==> Slices(page, Spans(pat, page, pos)) == []
    ensures NextMatch(pat, page, pos).Some? ==>
      var (i, e) := NextMatch(pat, page, pos).value;
      i <= e <= |page| &&
      Slices(page, Spans(pat, page, pos)) == [page[i..e]] + Slices(page, Spans(pat, page, e))
  {
    SpansStep(pat, page, pos);
    if NextMatch(pat, page, pos).Some? {
      var (i, e) := NextMatch(pat, page, pos).value;
      SlicesCons(page, (i, e), Spans(pat, page, e));
    }
  }

  // ---------------------------------------------------------------------------
  // Script references
  // ---------------------------------------------------------------------------

  /** What `javaScriptLibraries(page)` returns: each script match, verbatim, in page order. */
  function ScriptReferences(page: string): seq<string> {
    Slices(page, Spans(ScriptTag, page, 0))
  }

  /**
   * The shape of one script reference: it opens with `<script src`, closes
   * with `</script>`, lies on one line, and no `</script>` starts before
   * its final one.
   */
  predicate IsScriptReference(r: string) {
    && |ScriptOpen| + |ScriptClose| <= |r|
    && r[..|ScriptOpen|] == ScriptOpen
    && r[|r| - |ScriptClose|..] == ScriptClose
    && LineFree(r)
    && forall m :: 0 <= m < |r| - |ScriptClose| ==> !OccursAt(r, ScriptClose, m)
  }

  /** A script match lies on one line: its opening, middle and closing do. */
  lemma ScriptMatchLineFree(page: string, i: nat, e: nat)
    requires IsMatch(ScriptTag, page, i, e)
    ensures LineFree(page[i..e])
  {
    var r := page[i..e];
    var o, c := |ScriptOpen|, |ScriptClose|;
    var middle := page[i + o..e - c];
    assert LineFree(middle);
    forall m | 0 <= m < |r|
      ensures !IsLineTerminator(r[m])
    {
      if m < o {
        OccursAtChars(page, ScriptOpen, i);
        assert r[m] == ScriptOpen[m];
      } else if m < |r| - c {
        assert r[m] == middle[m - o];
      } else {
        OccursAtChars(page, ScriptClose, e - c);
        assert r[m] == ScriptClose[m - (|r| - c)];
      }
    }
  }

  /** No `</script>` starts inside a script match before its final one. */
  lemma ScriptMatchNoInnerClose(page: string, i: nat, e: nat)
    requires IsMatch(ScriptTag, page, i, e)
    ensures forall m :: 0 <= m < e - i - |ScriptClose| ==> !OccursAt(page[i..e], ScriptClose, m)
  {
    var r := page[i..e];
    var o, c := |ScriptOpen|, |ScriptClose|;
    forall m | 0 <= m < |r| - c
      ensures !OccursAt(r, ScriptClose, m)
    {
      if m < o {
        OccursAtChars(page, ScriptOpen, i);
        var j := if m == 0 then 1 else 0;
        assert r[m + j] == ScriptOpen[m + j];
        NotOccursAt(r, ScriptClose, m, j);
      } else {
        assert !OccursAt(page, ScriptClose, i + m);
        assert r[m..m + c] == page[i + m..i + m + c];
      }
    }
  }

  /** Every script match, cut out of the page, has the shape of a script reference. */
  lemma MatchIsScriptReference(page: string, i: nat, e: nat)
    requires IsMatch(ScriptTag, page, i, e)
    ensures IsScriptReference(page[i..e])
  {
    var r := page[i..e];
    assert r[..|ScriptOpen|] == page[i..i + |ScriptOpen|];
    assert r[|r| - |ScriptClose|..] == page[e - |ScriptClose|..e];
    ScriptMatchLineFree(page, i, e);
    ScriptMatchNoInnerClose(page, i, e);
  }

  /** Every reference `javaScriptLibraries` returns has the shape of a script reference. */
  lemma ScriptReferencesShape(page: string)
    ensures forall r :: r in ScriptReferences(page) ==> IsScriptReference(r)
  {
    var sp := Spans(ScriptTag, page, 0);
    forall r | r in ScriptReferences(page)
      ensures IsScriptReference(r)
    {
      var idx :| 0 <= idx < |sp| && r == ScriptReferences(page)[idx];
      MatchEndIsMatch(ScriptTag, page, sp[idx].0, sp[idx].1);
      MatchIsScriptReference(page, sp[idx].0, sp[idx].1);
    }
  }

  /**
   * The list holds one entry per match that repeated `find()` reports, in
   * page order and without overlap: entry k is the page text of match k.
   */
  lemma ScriptReferencesAreMatches(page: string)
    ensures |ScriptReferences(page)| == |Spans(ScriptTag, page, 0)|
    ensures forall k :: 0 <= k < |ScriptReferences(page)| ==>
      var (i, e) := Spans(ScriptTag, page, 0)[k];
      IsMatch(ScriptTag, page, i, e) && ScriptReferences(page)[k] == page[i..e]
    ensures forall a, b :: 0 <= a < b < |ScriptReferences(page)| ==>
      Spans(ScriptTag, page, 0)[a].1 <= Spans(ScriptTag, page, 0)[b].0
  {
    var sp := Spans(ScriptTag, page, 0);
    forall k | 0 <= k < |sp|
      ensures IsMatch(ScriptTag, page, sp[k].0, sp[k].1)
    {
      MatchEndIsMatch(ScriptTag, page, sp[k].0, sp[k].1);
    }
    forall a, b | 0 <= a < b < |sp|
      ensures sp[a].1 <= sp[b].0
    {
      SpansOrdered(ScriptTag, page, 0, a, b);
    }
  }

  /** A page yields no reference exactly when no script match occurs anywhere in it. */
  lemma ScriptReferencesEmpty(page: string)
    ensures ScriptReferences(page) == [] <==> forall i, e :: !IsMatch(ScriptTag, page, i, e)
  {
    var sp := Spans(ScriptTag, page, 0);
    if sp == [] {
      forall i: nat, e: nat
        ensures !IsMatch(ScriptTag, page, i, e)
      {
        MatchEndIsMatch(ScriptTag, page, i, e);
      }
    } else {
      MatchEndIsMatch(ScriptTag, page, sp[0].0, sp[0].1);
    }
  }

  /** `javaScriptLibraries`: loop over `matcher.find()`, appending each whole match. */
  method JavaScriptLibraries(page: string) returns (jsLibs: seq<string>)
    ensures jsLibs == ScriptReferences(page)
  {
    jsLibs := [];
    var pos := 0;
    while true
      invariant pos <= |page|
      invariant jsLibs + Slices(page, Spans(ScriptTag, page, pos)) == ScriptReferences(page)
      decreases |page| - pos
    {
      var m := Find(ScriptTag, page, pos);
      MatchedTextsStep(ScriptTag, page, pos);
      if m.None? {
        break;
      }
      var (i, e) := m.value;
      ghost var rest := Spans(ScriptTag, page, e);
      AppendAssoc(jsLibs, [page[i..e]], Slices(page, rest));
      jsLibs := jsLibs + [page[i..e]];
      pos := e;
    }
  }

  // ---------------------------------------------------------------------------
  // Result links
  // ---------------------------------------------------------------------------

  /** `link.replace("href=", "").replace(">", "")`. */
  function CleanLink(m: string): string {
    RemoveAll(RemoveAll(m, "href="), ">")
  }

  /** CleanLink applied to each match, in order. */
  function CleanAll(ms: seq<string>): (r: seq<string>)
    ensures |r| == |ms|
    ensures forall k :: 0 <= k < |ms| ==> r[k] == CleanLink(ms[k])
  {
    if ms == [] then [] else [CleanLink(ms[0])] + CleanAll(ms[1..])
  }

  /** What `searchResults` returns for the page text: one cleaned link per match, in order. */
  function ReferredLinks(page: string): seq<string> {
    CleanAll(Slices(page, Spans(HttpsHref, page, 0)))
  }

  /** The shape of a result link: `"https:`, at least one more character, a closing `"`, and no `>`. */
  predicate IsLink(l: string) {
    |l| >= |LinkHead| + 1 && l[..|LinkHead|] == LinkHead && l[|l| - 1] == '"' && '>' !in l
  }

  /** Literal start of every cleaned link. */
  const LinkHead: string := "\"https:"

  /** The `href=` pass removes the attribute name and leaves `"https:` and the closing `"` in place. */
  lemma HrefPass(m: string)
    requires |m| >= |HrefPrefix| + 2 && m[..|HrefPrefix|] == HrefPrefix && m[|m| - 1] == '"'
    ensures var v := RemoveAll(m[|HrefPrefix|..], "href=");
      RemoveAll(m, "href=") == LinkHead + v && v != [] && v[|v| - 1] == '"'
  {
    var u := m[|HrefPrefix|..];
    assert OccursAt(m, "href=", 0);
    assert m[5..] == LinkHead + u;
    forall k | 0 <= k < |LinkHead|
      ensures !OccursAt(LinkHead + u, "href=", k)
    {
      NotOccursAt(LinkHead + u, "href=", k, if k == 1 then 1 else 0);
    }
    RemoveAllKeepsPrefix(LinkHead, u, "href=");
    assert u[|u| - 1] == '"';
    RemoveAllKeepsLast(u, "href=");
  }

  /** The `>` pass leaves `"https:` and the closing `"` in place and removes every `>`. */
  lemma GreaterThanPass(v: string)
    requires v != [] && v[|v| - 1] == '"'
    ensures var x := RemoveAll(v, ">");
      RemoveAll(LinkHead + v, ">") == LinkHead + x && x != [] && x[|x| - 1] == '"' && '>' !in x
  {
    forall k | 0 <= k < |LinkHead|
      ensures !OccursAt(LinkHead + v, ">", k)
    {
      NotOccursAt(LinkHead + v, ">", k, 0);
    }
    RemoveAllKeepsPrefix(LinkHead, v, ">");
    RemoveAllKeepsLast(v, ">");
    RemoveCharCounts(v, '>');
  }

  /** Every link match, once cleaned, has the shape of a result link. */
  lemma MatchIsLink(page: string, i: nat, e: nat)
    requires IsMatch(HttpsHref, page, i, e)
    ensures IsLink(CleanLink(page[i..e]))
  {
    var m := page[i..e];
    assert m[..|HrefPrefix|] == page[i..i + |HrefPrefix|];
    HrefPass(m);
    var v := RemoveAll(m[|HrefPrefix|..], "href=");
    GreaterThanPass(v);
    var x := RemoveAll(v, ">");
    assert RemoveAll(m, "href=") == LinkHead + v;
    assert CleanLink(m) == RemoveAll(LinkHead + v, ">") == LinkHead + x;
    assert (LinkHead + x)[..|LinkHead|] == LinkHead;
  }

  /** Every link `searchResults` returns has the shape of a result link. */
  lemma ReferredLinksShape(page: string)
    ensures forall l :: l in ReferredLinks(page) ==> IsLink(l)
  {
    var sp := Spans(HttpsHref, page, 0);
    forall l | l in ReferredLinks(page)
      ensures IsLink(l)
    {
      var idx :| 0 <= idx < |sp| && l == ReferredLinks(page)[idx];
      MatchEndIsMatch(HttpsHref, page, sp[idx].0, sp[idx].1);
      MatchIsLink(page, sp[idx].0, sp[idx].1);
    }
  }

  /**
   * Exactly one link per match that repeated `find()` reports, in order of
   * occurrence, duplicates kept: link k is match k cleaned.
   */
  lemma ReferredLinksAreMatches(page: string)
    ensures |ReferredLinks(page)| == |Spans(HttpsHref, page, 0)|
    ensures forall k :: 0 <= k < |ReferredLinks(page)| ==>
      var (i, e) := Spans(HttpsHref, page, 0)[k];
      IsMatch(HttpsHref, page, i, e) && ReferredLinks(page)[k] == CleanLink(page[i..e])
  {
    var sp := Spans(HttpsHref, page, 0);
    forall k | 0 <= k < |sp|
      ensures IsMatch(HttpsHref, page, sp[k].0, sp[k].1)
    {
      MatchEndIsMatch(HttpsHref, page, sp[k].0, sp[k].1);
    }
  }

  /** `searchResults` after the stream has become text: loop over `matcher.find()`, appending each cleaned match. */
  method SearchResults(page: string) returns (referedLinks: seq<string>)
    ensures referedLinks == ReferredLinks(page)
  {
    referedLinks := [];
    var pos := 0;
    while true
      invariant pos <= |page|
      invariant referedLinks + CleanAll(Slices(page, Spans(HttpsHref, page, pos))) == ReferredLinks(page)
      decreases |page| - pos
    {
      var m := Find(HttpsHref, page, pos);
      MatchedTextsStep(HttpsHref, page, pos);
      if m.None? {
        break;
      }
      var (i, e) := m.value;
      ghost var rest := Spans(HttpsHref, page, e);
      assert CleanAll([page[i..e]] + Slices(page, rest)) == [CleanLink(page[i..e])] + CleanAll(Slices(page, rest));
      var link := page[i..e];
      link := RemoveAll(link, "href=");
      link := RemoveAll(link, ">");
      AppendAssoc(referedLinks, [link], CleanAll(Slices(page, rest)));
      referedLinks := referedLinks + [link];
      pos := e;
    }
  }
}
