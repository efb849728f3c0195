/** The host page as the content script sees it. Everything here is read
    only: element handles, the selector engine, the parent chain, attribute
    reads and the bounding-box read are oracles supplied by the page. The
    style store that the script writes to lives in module Presenter. */
module Dom {

  datatype Option<+T> = None | Some(value: T)

  /** An element handle. Two handles denote the same element exactly when
      they are equal (DOM identity). */
  type Element = nat

  /** What `getBoundingClientRect()` gave: whether both width and height are
      strictly positive, or the read raised an exception. */
  datatype BoxRead = Box(hasArea: bool) | ReadFails

  /** One snapshot of the page.
      - query: `document.querySelectorAll(selector)`, in document order;
      - parent: `parentElement` (None for the root or a detached node);
      - tagIsAnchor: `tagName === 'A'`;
      - hrefAttribute: `getAttribute('href')`, with "" standing for both
        null and the empty string (both are falsy);
      - hrefProperty: the `href` property, "" when undefined;
      - box: the bounding-box read;
      - lookup: the k-th sub-element lookup that Enter performs on the
        selected item (see Activation.ClickTargets), None for null;
      - hasClickMethod: `typeof el.click === 'function'`;
      - activationFails: acting on the element raises an exception. */
  datatype Document = Document(
    query: string -> seq<Element>,
    parent: Element -> Option<Element>,
    tagIsAnchor: Element -> bool,
    hrefAttribute: Element -> string,
    hrefProperty: Element -> string,
    box: Element -> BoxRead,
    lookup: (Element, nat) -> Option<Element>,
    hasClickMethod: Element -> bool,
    activationFails: Element -> bool)

  /** The URL fragment that identifies a video page. */
  const WatchMarker: string := "/watch?v="

  predicate StartsWith(s: string, prefix: string)
  {
    |prefix| <= |s| && s[..|prefix|] == prefix
  }

  /** JavaScript's `s.includes(part)`. */
  predicate Contains(s: string, part: string)
    decreases |s|
  {
    StartsWith(s, part) || (|s| > 0 && Contains(s[1..], part))
  }

  /** `part` occurs in s at position i. */
  predicate OccursAt(s: string, part: string, i: int)
  {
    0 <= i <= |s| - |part| && s[i..i + |part|] == part
  }

  /** `Contains` holds exactly when `part` occurs at some position of s. */
  lemma {:induction false} ContainsIffOccurs(s: string, part: string)
    ensures Contains(s, part) <==> exists i :: OccursAt(s, part, i)
    decreases |s|
  {
    if StartsWith(s, part) {
      assert OccursAt(s, part, 0);
    } else if |s| > 0 {
      ContainsIffOccurs(s[1..], part);
      if exists i :: OccursAt(s, part, i) {
        var i :| OccursAt(s, part, i);
        assert i > 0;
        assert s[1..][i - 1..i - 1 + |part|] == s[i..i + |part|];
        assert OccursAt(s[1..], part, i - 1);
      }
      if Contains(s[1..], part) {
        var i :| OccursAt(s[1..], part, i);
        assert s[i + 1..i + 1 + |part|] == s[1..][i..i + |part|];
        assert OccursAt(s, part, i + 1);
      }
    }
  }
}
