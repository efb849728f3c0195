/** The item locator of `initializeNavigation` (content.js:10-71): the
    fallback chain of selectors and the post-processing applied to each
    selector's matches. These are the expression-style parts of the script;
    the loop that walks the chain is Navigation.WalkSelectors. */
module Locator {
  import opened Dom

  const CompactRenderer: string := "ytd-compact-video-renderer"
  const RichItemRenderer: string := "ytd-rich-item-renderer"
  const VideoRenderer: string := "ytd-video-renderer"

  /** The selectors, most specific first. */
  const Selectors: seq<string> := [
    CompactRenderer + ", " + RichItemRenderer + ", " + VideoRenderer,
    CompactRenderer,
    RichItemRenderer,
    VideoRenderer,
    "ytd-video-meta-block",
    "img[src*=\"ytimg.com\"]",
    "img[src*=\"ggpht.com\"]",
    "a[href*=\"/watch?v=\"]"
  ]

  /** How many parent levels an image climbs in search of a link. */
  const MaxClimb: nat := 5

  /** A selector whose matches are images, to be replaced by their
      clickable container: `selector.includes('img')`. */
  predicate IsImageSelector(selector: string)
  {
    Contains(selector, "img")
  }

  lemma {:induction false} NoLetterGNoImg(s: string)
    requires 'g' !in s
    ensures !Contains(s, "img")
    decreases |s|
  {
    if |s| >= 3 {
      assert s[2] in s;
      assert s[..3][2] == s[2];
    }
    if |s| > 0 {
      assert forall c :: c in s[1..] ==> c in s;
      NoLetterGNoImg(s[1..]);
    }
  }

  /** None of the selectors other than the two image ones holds the
      letter g. */
  lemma NoLetterGOutsideImageSelectors(k: nat)
    requires k < |Selectors| && k != 5 && k != 6
    ensures 'g' !in Selectors[k]
  {
    assert 'g' !in CompactRenderer && 'g' !in RichItemRenderer && 'g' !in VideoRenderer;
    if k == 0 {
      assert Selectors[0] == CompactRenderer + ", " + RichItemRenderer + ", " + VideoRenderer;
    }
  }

  /** Exactly the two `img[...]` selectors (indices 5 and 6) take the
      image-to-container path. */
  lemma ImageSelectorsAreFiveAndSix(k: nat)
    requires k < |Selectors|
    ensures IsImageSelector(Selectors[k]) <==> k == 5 || k == 6
  {
    var s := Selectors[k];
    if k == 5 || k == 6 {
      assert StartsWith(s, "img");
    } else {
      NoLetterGOutsideImageSelectors(k);
      NoLetterGNoImg(s);
    }
  }

  // ---------------------------------------------------------------------
  // Deduplication: arr.filter((el, index, arr) => arr.indexOf(el) === index)
  // ---------------------------------------------------------------------

  /** `Array.prototype.indexOf`: the first position of x, or -1. */
  function IndexOf(s: seq<Element>, x: Element): (r: int)
    ensures -1 <= r < |s|
  {
    if s == [] then -1
    else if s[0] == x then 0
    else
      var k := IndexOf(s[1..], x);
      if k < 0 then -1 else k + 1
  }

  /** `indexOf` gives -1 exactly for an absent element, and otherwise a
      position holding it with no earlier occurrence. */
  lemma {:induction false} IndexOfIsFirstPosition(s: seq<Element>, x: Element)
    ensures IndexOf(s, x) == -1 <==> x !in s
    ensures 0 <= IndexOf(s, x) ==> s[IndexOf(s, x)] == x && x !in s[..IndexOf(s, x)]
  {
    if s != [] && s[0] != x {
      IndexOfIsFirstPosition(s[1..], x);
      var k := IndexOf(s[1..], x);
      assert s == [s[0]] + s[1..];
      if k >= 0 {
        assert s[..k + 1] == [s[0]] + s[1..][..k];
      }
    }
  }

  /** The filter callback applied at positions i, i+1, ... of s. */
  function KeepFirstFrom(s: seq<Element>, i: nat): seq<Element>
    requires i <= |s|
    decreases |s| - i
  {
    if i == |s| then []
    else (if IndexOf(s, s[i]) == i then [s[i]] else []) + KeepFirstFrom(s, i + 1)
  }

  function Dedup(s: seq<Element>): seq<Element>
  {
    KeepFirstFrom(s, 0)
  }

  /** The elements of r appear in the order of their first occurrence in
      raw: each one's first occurrence comes before that of every element
      after it (which also rules out duplicates in r). */
  ghost predicate RankedBy(raw: seq<Element>, r: seq<Element>)
    decreases |r|
  {
    r == [] ||
    ((forall q :: 1 <= q < |r| ==> IndexOf(raw, r[0]) < IndexOf(raw, r[q])) && RankedBy(raw, r[1..]))
  }

  ghost predicate NoDuplicates(r: seq<Element>)
  {
    forall p, q :: 0 <= p < q < |r| ==> r[p] != r[q]
  }

  /** Filtering from position i keeps exactly the elements whose first
      occurrence is at position i or later. */
  lemma {:induction false} KeepFirstFromMembers(s: seq<Element>, i: nat)
    requires i <= |s|
    ensures forall x :: x in KeepFirstFrom(s, i) <==> x in s && IndexOf(s, x) >= i
    decreases |s| - i
  {
    if i < |s| {
      KeepFirstFromMembers(s, i + 1);
      var rest := KeepFirstFrom(s, i + 1);
      if IndexOf(s, s[i]) == i {
        assert KeepFirstFrom(s, i) == [s[i]] + rest;
      } else {
        assert KeepFirstFrom(s, i) == rest;
      }
      forall x | x in s && IndexOf(s, x) == i
        ensures x == s[i]
      {
        assert s[IndexOf(s, x)] == x by {
          IndexOfIsFirstPosition(s, x);
        }
      }
    }
  }

  /** Putting an element ranked before every element of a ranked list in
      front of it gives a ranked list. */
  lemma RankedCons(raw: seq<Element>, x: Element, rest: seq<Element>)
    requires RankedBy(raw, rest)
    requires forall q :: 0 <= q < |rest| ==> IndexOf(raw, x) < IndexOf(raw, rest[q])
    ensures RankedBy(raw, [x] + rest)
  {
    var r := [x] + rest;
    assert r[1..] == rest;
    forall q | 1 <= q < |r|
      ensures IndexOf(raw, r[0]) < IndexOf(raw, r[q])
    {
      assert r[q] == rest[q - 1];
    }
  }

  /** Every survivor of the filter from position i has its first
      occurrence at i or later. */
  lemma KeepFirstFromAfter(s: seq<Element>, i: nat)
    requires i <= |s|
    ensures forall q :: 0 <= q < |KeepFirstFrom(s, i)| ==> IndexOf(s, KeepFirstFrom(s, i)[q]) >= i
  {
    KeepFirstFromMembers(s, i);
    var r := KeepFirstFrom(s, i);
    forall q | 0 <= q < |r|
      ensures IndexOf(s, r[q]) >= i
    {
      assert r[q] in r;
    }
  }

  /** The step of the filter that keeps s[i] keeps the ranking. */
  lemma KeepFirstFromRankedStep(s: seq<Element>, i: nat)
    requires i < |s| && IndexOf(s, s[i]) == i
    requires RankedBy(s, KeepFirstFrom(s, i + 1))
    ensures RankedBy(s, KeepFirstFrom(s, i))
  {
    var rest := KeepFirstFrom(s, i + 1);
    KeepFirstFromAfter(s, i + 1);
    RankedCons(s, s[i], rest);
    assert KeepFirstFrom(s, i) == [s[i]] + rest;
  }

  /** Filtering from position i keeps the survivors in the order of their
      first occurrence. */
  lemma {:induction false} KeepFirstFromRanked(s: seq<Element>, i: nat)
    requires i <= |s|
    ensures RankedBy(s, KeepFirstFrom(s, i))
    decreases |s| - i
  {
    if i < |s| {
      KeepFirstFromRanked(s, i + 1);
      if IndexOf(s, s[i]) == i {
        KeepFirstFromRankedStep(s, i);
      } else {
        assert KeepFirstFrom(s, i) == KeepFirstFrom(s, i + 1);
      }
    }
  }

  /** A list ranked by first occurrence holds no element twice. */
  lemma {:induction false} RankedHasNoDuplicates(raw: seq<Element>, r: seq<Element>)
    requires RankedBy(raw, r)
    ensures NoDuplicates(r)
    decreases |r|
  {
    if r != [] {
      var tail := r[1..];
      RankedHasNoDuplicates(raw, tail);
      forall p, q | 0 <= p < q < |r|
        ensures r[p] != r[q]
      {
        if p > 0 {
          assert r[p] == tail[p - 1] && r[q] == tail[q - 1];
        }
      }
    }
  }

  /** The dedup filter keeps exactly the elements of its input, each once,
      in the order of their first occurrence. */
  lemma DedupKeepsFirstOccurrences(s: seq<Element>)
    ensures forall x :: x in Dedup(s) <==> x in s
    ensures RankedBy(s, Dedup(s))
    ensures NoDuplicates(Dedup(s))
  {
    KeepFirstFromMembers(s, 0);
    KeepFirstFromRanked(s, 0);
    forall x | x in s
      ensures IndexOf(s, x) >= 0
    {
      IndexOfIsFirstPosition(s, x);
    }
    RankedHasNoDuplicates(s, Dedup(s));
  }

  // ---------------------------------------------------------------------
  // Visibility: keep elements with a positive bounding box; a read that
  // raises drops that element only.
  // ---------------------------------------------------------------------

  predicate Visible(doc: Document, e: Element)
  {
    match doc.box(e)
    case Box(hasArea) => hasArea
    case ReadFails => false
  }

  function VisibleOnly(doc: Document, s: seq<Element>): seq<Element>
  {
    if s == [] then []
    else (if Visible(doc, s[0]) then [s[0]] else []) + VisibleOnly(doc, s[1..])
  }

  /** The visibility filter keeps exactly the visible elements. */
  lemma {:induction false} VisibleOnlyMembers(doc: Document, s: seq<Element>)
    ensures forall x :: x in VisibleOnly(doc, s) <==> x in s && Visible(doc, x)
  {
    if s != [] {
      VisibleOnlyMembers(doc, s[1..]);
      assert s == [s[0]] + s[1..];
    }
  }

  /** A list ordered by first occurrence in raw, as the dedup step hands
      it over, stays so ordered after the visibility filter. */
  lemma {:induction false} VisibleOnlyKeepsRank(doc: Document, s: seq<Element>, raw: seq<Element>)
    requires RankedBy(raw, s)
    ensures RankedBy(raw, VisibleOnly(doc, s))
  {
    if s != [] {
      var tail := s[1..];
      VisibleOnlyKeepsRank(doc, tail, raw);
      var rest := VisibleOnly(doc, tail);
      if Visible(doc, s[0]) {
        VisibleOnlyMembers(doc, tail);
        forall q | 0 <= q < |rest|
          ensures IndexOf(raw, s[0]) < IndexOf(raw, rest[q])
        {
          assert rest[q] in rest;
          var j :| 0 <= j < |tail| && tail[j] == rest[q];
          assert s[j + 1] == rest[q];
        }
        RankedCons(raw, s[0], rest);
        assert VisibleOnly(doc, s) == [s[0]] + rest;
      } else {
        assert VisibleOnly(doc, s) == rest;
      }
    }
  }

  // ---------------------------------------------------------------------
  // Image -> clickable container (content.js:38-48)
  // ---------------------------------------------------------------------

  /** `tagName === 'A' || getAttribute('href')`. */
  predicate LinkLike(doc: Document, e: Element)
  {
    doc.tagIsAnchor(e) || doc.hrefAttribute(e) != ""
  }

  /** The ancestor d levels above e, if the parent chain is that long. */
  function Ancestor(doc: Document, e: Element, d: nat): Option<Element>
    decreases d
  {
    if d == 0 then Some(e)
    else match doc.parent(e)
      case None => None
      case Some(p) => Ancestor(doc, p, d - 1)
  }

  predicate LinkAt(doc: Document, e: Element, d: nat)
  {
    Ancestor(doc, e, d).Some? && LinkLike(doc, Ancestor(doc, e, d).value)
  }

  /** The ancestor d levels up is link-like and is the nearest such one
      within n levels. */
  ghost predicate NearestLinkAt(doc: Document, e: Element, n: nat, d: nat)
  {
    1 <= d <= n && LinkAt(doc, e, d) && forall j :: 1 <= j < d ==> !LinkAt(doc, e, j)
  }

  /** No ancestor within n levels is link-like. */
  ghost predicate NoLinkWithin(doc: Document, e: Element, n: nat)
  {
    forall d :: 1 <= d <= n ==> !LinkAt(doc, e, d)
  }

  /** c is the container of image img: its nearest link-like ancestor at
      most MaxClimb levels up, or img itself when there is none. */
  ghost predicate IsContainerOf(doc: Document, img: Element, c: Element)
  {
    || (exists d :: NearestLinkAt(doc, img, MaxClimb, d) && Ancestor(doc, img, d) == Some(c))
    || (NoLinkWithin(doc, img, MaxClimb) && c == img)
  }

  /** The bounded climb: at most `steps` parents, stopping at the first
      link-like one or when the chain ends. */
  function ClimbToLink(doc: Document, node: Element, steps: nat): Option<Element>
    decreases steps
  {
    if steps == 0 then None
    else match doc.parent(node)
      case None => None
      case Some(p) => if LinkLike(doc, p) then Some(p) else ClimbToLink(doc, p, steps - 1)
  }

  /** Seen from a node, the chain above its parent p is shifted by one. */
  lemma AncestorShift(doc: Document, node: Element, p: Element)
    requires doc.parent(node) == Some(p)
    ensures forall d :: 1 <= d ==> Ancestor(doc, node, d) == Ancestor(doc, p, d - 1)
  {
  }

  /** A node without a parent has no ancestors. */
  lemma NoParentNoLink(doc: Document, node: Element, n: nat)
    requires doc.parent(node) == None
    ensures NoLinkWithin(doc, node, n)
  {
    forall d | 1 <= d <= n
      ensures !LinkAt(doc, node, d)
    {
      assert Ancestor(doc, node, d) == None;
    }
  }

  lemma {:induction false} ClimbFindsNearestLink(doc: Document, node: Element, n: nat)
    ensures ClimbToLink(doc, node, n).Some? ==>
      exists d :: NearestLinkAt(doc, node, n, d) && Ancestor(doc, node, d) == ClimbToLink(doc, node, n)
    ensures ClimbToLink(doc, node, n).None? ==> NoLinkWithin(doc, node, n)
    decreases n
  {
    if n > 0 {
      match doc.parent(node)
      case None =>
        NoParentNoLink(doc, node, n);
      case Some(p) =>
        AncestorShift(doc, node, p);
        if LinkLike(doc, p) {
          assert NearestLinkAt(doc, node, n, 1);
        } else {
          ClimbFindsNearestLink(doc, p, n - 1);
          assert !LinkAt(doc, node, 1);
          if ClimbToLink(doc, p, n - 1).Some? {
            var d: nat :| NearestLinkAt(doc, p, n - 1, d) && Ancestor(doc, p, d) == ClimbToLink(doc, p, n - 1);
            forall j | 1 <= j < d + 1
              ensures !LinkAt(doc, node, j)
            {
              if j > 1 {
                assert !LinkAt(doc, p, j - 1);
              }
            }
            assert NearestLinkAt(doc, node, n, d + 1);
          } else {
            forall d | 1 <= d <= n
              ensures !LinkAt(doc, node, d)
            {
              if d > 1 {
                assert !LinkAt(doc, p, d - 1);
              }
            }
          }
        }
    }
  }

  /** An image resolves to its nearest link-like ancestor at distance
      1..MaxClimb, or to itself when there is none within that bound
      (including when the parent chain ends early). */
  function ResolveContainer(doc: Document, img: Element): (c: Element)
    ensures IsContainerOf(doc, img, c)
  {
    ClimbFindsNearestLink(doc, img, MaxClimb);
    match ClimbToLink(doc, img, MaxClimb)
    case Some(p) => p
    case None => img
  }

  /** The `map` over the image matches: each image is replaced by its
      container, in place. */
  function ResolveAll(doc: Document, images: seq<Element>): (r: seq<Element>)
    ensures |r| == |images|
    ensures forall i :: 0 <= i < |images| ==> IsContainerOf(doc, images[i], r[i])
  {
    seq(|images|, i requires 0 <= i < |images| => ResolveContainer(doc, images[i]))
  }

  // ---------------------------------------------------------------------
  // One selector, and the fallback chain
  // ---------------------------------------------------------------------

  /** The matches of one selector, images replaced by their containers. */
  function Candidates(doc: Document, selector: string): seq<Element>
  {
    var elements := doc.query(selector);
    if IsImageSelector(selector) then ResolveAll(doc, elements) else elements
  }

  /** s holds exactly the visible elements of raw, each once, in the
      order of their first occurrence in raw. */
  ghost predicate CleanedFrom(doc: Document, raw: seq<Element>, s: seq<Element>)
  {
    && (forall x :: x in s <==> x in raw && Visible(doc, x))
    && RankedBy(raw, s)
    && NoDuplicates(s)
  }

  /** Dedup, then the visibility filter: a selector's result holds exactly
      its visible candidates, each once, in the order of first
      occurrence. */
  function PostProcess(doc: Document, selector: string): (r: seq<Element>)
    ensures CleanedFrom(doc, Candidates(doc, selector), r)
  {
    var raw := Candidates(doc, selector);
    DedupKeepsFirstOccurrences(raw);
    VisibleOnlyMembers(doc, Dedup(raw));
    VisibleOnlyKeepsRank(doc, Dedup(raw), raw);
    RankedHasNoDuplicates(raw, VisibleOnly(doc, Dedup(raw)));
    VisibleOnly(doc, Dedup(raw))
  }

  /** The post-processed result of every selector, in priority order:
      entry k holds the visible candidates of selector k, each once, in
      first-occurrence order. */
  function Results(doc: Document): (r: seq<seq<Element>>)
    ensures |r| == |Selectors|
    ensures forall k :: 0 <= k < |Selectors| ==> CleanedFrom(doc, Candidates(doc, Selectors[k]), r[k])
  {
    seq(|Selectors|, k requires 0 <= k < |Selectors| => PostProcess(doc, Selectors[k]))
  }

  /** The first non-empty entry of a priority-ordered list of results. */
  function FirstNonEmpty(results: seq<seq<Element>>): seq<Element>
  {
    if results == [] then []
    else if results[0] != [] then results[0]
    else FirstNonEmpty(results[1..])
  }

  lemma {:induction false} FirstNonEmptySpec(results: seq<seq<Element>>)
    ensures FirstNonEmpty(results) == [] <==> forall j :: 0 <= j < |results| ==> results[j] == []
    ensures FirstNonEmpty(results) != [] ==>
      exists i :: 0 <= i < |results| && FirstNonEmpty(results) == results[i]
        && forall j :: 0 <= j < i ==> results[j] == []
  {
    if results != [] && results[0] == [] {
      var tail := results[1..];
      FirstNonEmptySpec(tail);
      assert forall j :: 1 <= j < |results| ==> results[j] == tail[j - 1];
      if FirstNonEmpty(tail) != [] {
        var i :| 0 <= i < |tail| && FirstNonEmpty(tail) == tail[i]
          && forall j :: 0 <= j < i ==> tail[j] == [];
        assert FirstNonEmpty(results) == results[i + 1];
      }
    }
  }

  /** One discovery pass over the document. */
  function Locate(doc: Document): seq<Element>
  {
    FirstNonEmpty(Results(doc))
  }

  /** The result of a pass is the post-processed result of the first
      selector whose post-processed result is non-empty, every earlier
      selector having produced nothing; it is empty exactly when every
      selector produced nothing. Results are never merged. */
  lemma LocateIsFirstSuccess(doc: Document)
    ensures Locate(doc) == [] <==> forall k :: 0 <= k < |Selectors| ==> PostProcess(doc, Selectors[k]) == []
    ensures Locate(doc) != [] ==>
      exists k :: 0 <= k < |Selectors| && Locate(doc) == PostProcess(doc, Selectors[k])
        && forall j :: 0 <= j < k ==> PostProcess(doc, Selectors[j]) == []
  {
    var results := Results(doc);
    FirstNonEmptySpec(results);
    forall k | 0 <= k < |Selectors|
      ensures results[k] == PostProcess(doc, Selectors[k])
    {
    }
  }

  /** Every located item is visible and none occurs twice. */
  lemma LocateYieldsDistinctVisibleItems(doc: Document)
    ensures NoDuplicates(Locate(doc))
    ensures forall x :: x in Locate(doc) ==> Visible(doc, x)
  {
    LocateIsFirstSuccess(doc);
    if Locate(doc) != [] {
      var k :| 0 <= k < |Selectors| && Locate(doc) == PostProcess(doc, Selectors[k]);
      assert CleanedFrom(doc, Candidates(doc, Selectors[k]), Locate(doc));
    }
  }
}
