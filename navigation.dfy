/** The navigation state machine of content.js: the three module globals
    `currentIndex`, `thumbnails` and `isInitialized` (content.js:5-7), the
    discovery pass `initializeNavigation`, `highlightThumbnail`, the keydown
    handler and the bodies of the URL-change and timer callbacks. The page
    a callback sees is passed in as a Document; the style store it writes
    to is the Presentation object `pres`. */
module Navigation {
  import opened Dom
  import opened Locator
  import opened Presenter
  import opened Activation

  const HomeUrl: string := "https://www.youtube.com"

  /** Forward moves re-run discovery when the cursor ends up this close to
      the end of the list. */
  const NearEnd: int := 3

  /** The stride of the `s` and `w` keys. */
  const Stride: int := 5

  /** The list size below which the 3 s and 5 s start-up timers re-run
      discovery. */
  const FewItems: int := 10

  function Min(a: int, b: int): int { if a <= b then a else b }
  function Max(a: int, b: int): int { if a >= b then a else b }

  /** `String.prototype.toLowerCase` on ASCII letters. */
  function LowerChar(c: char): char
  {
    if 'A' <= c <= 'Z' then (c as int + ('a' as int - 'A' as int)) as char else c
  }

  function Lower(s: string): (r: string)
    ensures |r| == |s|
  {
    seq(|s|, i requires 0 <= i < |s| => LowerChar(s[i]))
  }

  /** The upper-case form of a lower-case ASCII letter. */
  function UpperChar(c: char): char
    requires 'a' <= c <= 'z'
  {
    (c as int - ('a' as int - 'A' as int)) as char
  }

  /** A key lower-cases to a word of lower-case letters exactly when it
      spells that word with each letter in either case. */
  lemma LowerMatchesAnyCase(k: string, word: string)
    requires forall i :: 0 <= i < |word| ==> 'a' <= word[i] <= 'z'
    ensures Lower(k) == word <==>
      |k| == |word| && forall i :: 0 <= i < |k| ==> k[i] == word[i] || k[i] == UpperChar(word[i])
  {
    if |k| == |word| {
      if forall i :: 0 <= i < |k| ==> k[i] == word[i] || k[i] == UpperChar(word[i]) {
        assert Lower(k) == word by {
          forall i | 0 <= i < |k|
            ensures Lower(k)[i] == word[i]
          {
          }
        }
      }
      if Lower(k) == word {
        forall i | 0 <= i < |k|
          ensures k[i] == word[i] || k[i] == UpperChar(word[i])
        {
          assert LowerChar(k[i]) == word[i];
        }
      }
    }
  }

  /** A one-letter key lower-cases to letter t exactly when it is t in
      either case. */
  lemma LowerMatchesLetter(k: string, t: char)
    requires 'a' <= t <= 'z'
    ensures Lower(k) == [t] <==> k == [t] || k == [UpperChar(t)]
  {
    LowerMatchesAnyCase(k, [t]);
    if |k| == 1 {
      assert k == [k[0]];
    }
  }

  /** `e.key.toLowerCase()` makes the dispatch ignore case: each letter
      key is reached from both cases, and "enter" from any mix of cases,
      including the browser's own "Enter". */
  lemma KeyDispatchIgnoresCase(k: string)
    ensures Lower(k) == "d" <==> k == "d" || k == "D"
    ensures Lower(k) == "a" <==> k == "a" || k == "A"
    ensures Lower(k) == "s" <==> k == "s" || k == "S"
    ensures Lower(k) == "w" <==> k == "w" || k == "W"
    ensures Lower(k) == "r" <==> k == "r" || k == "R"
    ensures Lower(k) == "enter" <==>
      |k| == 5 && forall i :: 0 <= i < 5 ==> k[i] == "enter"[i] || k[i] == "ENTER"[i]
    ensures Lower("Enter") == "enter"
  {
    LowerMatchesLetter(k, 'd');
    LowerMatchesLetter(k, 'a');
    LowerMatchesLetter(k, 's');
    LowerMatchesLetter(k, 'w');
    LowerMatchesLetter(k, 'r');
    LowerMatchesAnyCase(k, "enter");
    LowerMatchesAnyCase("Enter", "enter");
  }

  /** The keys that move the cursor. */
  const MovingKeys: set<string> := {"d", "a", "s", "w"}

  /** What a keydown event did outside the script's own state: whether it
      called `preventDefault()` and what it asked the browser to do. */
  datatype Outcome = Outcome(defaultPrevented: bool, action: Option<Action>)

  const Ignored: Outcome := Outcome(false, None)

  /** The `for (const selector of selectors)` loop of a discovery pass:
      each selector's matches are mapped (images to their containers),
      deduplicated and filtered for visibility; the first non-empty result
      ends the walk. */
  method WalkSelectors(doc: Document) returns (found: seq<Element>)
    ensures found == Locate(doc)
  {
    found := [];
    ghost var results := Results(doc);
    var k := 0;
    while k < |Selectors|
      invariant 0 <= k <= |Selectors|
      invariant found == []
      invariant FirstNonEmpty(results[k..]) == Locate(doc)
    {
      assert results[k..][1..] == results[k + 1..];
      var selector := Selectors[k];
      var elements := doc.query(selector);
      if |elements| > 0 {
        if IsImageSelector(selector) {
          found := ResolveAll(doc, elements);
        } else {
          found := elements;
        }
        found := Dedup(found);
        found := VisibleOnly(doc, found);
        assert found == results[k];
        if |found| > 0 {
          break;
        }
      } else {
        assert results[k] == [] by {
          assert Candidates(doc, selector) == [];
          assert Dedup([]) == [];
        }
      }
      k := k + 1;
    }
    if |found| > 0 {
      assert k < |Selectors| && found == results[k];
      assert results[k..][0] == results[k];
    } else {
      assert results[k..] == [];
    }
  }

  class Navigator {
    var currentIndex: int
    var thumbnails: seq<Element>
    var isInitialized: bool
    /** The URL the mutation observer last saw. */
    var lastUrl: string
    /** The page's inline styles and highlight attributes. */
    const pres: Presentation

    /** The cursor never drops below -1, a ready state always has a
        non-empty list with the cursor below its end, and the style store
        holds at most one mark. */
    ghost predicate Valid()
      reads this, pres
    {
      && pres.Valid()
      && -1 <= currentIndex
      && (isInitialized ==> 0 < |thumbnails| && currentIndex < |thumbnails|)
    }

    /** What a discovery pass on doc did to the state: the list is the
        pass result; a non-empty result makes the script ready, clamps
        the cursor to min(previous index, length - 1) and highlights it;
        an empty one clears the ready flag and leaves the cursor and the
        marks alone. */
    twostate predicate Rediscovered(doc: Document)
      reads this, pres
    {
      && thumbnails == Locate(doc)
      && (thumbnails != [] ==>
            && isInitialized
            && currentIndex == Min(old(currentIndex), |thumbnails| - 1)
            && pres.Value() == Highlighted(old(pres.Value()), thumbnails, currentIndex))
      && (thumbnails == [] ==>
            !isInitialized && currentIndex == old(currentIndex) && pres.Value() == old(pres.Value()))
    }

    /** Script load: the globals' initial values; `lastUrl` is the URL at
        load time. */
    constructor (url: string, styles: map<Element, string>)
      ensures Valid()
      ensures currentIndex == 0 && thumbnails == [] && !isInitialized && lastUrl == url
      ensures fresh(pres) && pres.marked == {}
    {
      currentIndex := 0;
      thumbnails := [];
      isInitialized := false;
      lastUrl := url;
      pres := new Presentation(styles);
    }

    /** `highlightThumbnail(index)`. */
    method Highlight(index: int)
      requires Valid()
      modifies pres
      ensures Valid()
      ensures pres.Value() == Highlighted(old(pres.Value()), thumbnails, index)
    {
      if index < 0 || index >= |thumbnails| {
        return;
      }
      HighlightedWellFormed(pres.Value(), thumbnails, index);
      pres.ClearMarks();
      pres.Mark(thumbnails[index]);
    }

    /** `initializeNavigation()`: walk the selectors in order, keep the
        first non-empty post-processed result, then reconcile the cursor.
        Both reconcile branches give min(previous index, length - 1), since
        the cursor still holds the previous index at that point. An empty
        pass leaves the cursor and the marks alone and clears the ready
        flag. */
    method Discover(doc: Document)
      requires Valid()
      modifies this, pres
      ensures Valid() && lastUrl == old(lastUrl)
      ensures Rediscovered(doc)
    {
      var previousLength := |thumbnails|;
      var previousIndex := currentIndex;
      thumbnails := WalkSelectors(doc);
      if |thumbnails| > 0 {
        if |thumbnails| > previousLength && previousIndex >= 0 {
          currentIndex := Min(previousIndex, |thumbnails| - 1);
        } else {
          currentIndex := Min(currentIndex, |thumbnails| - 1);
        }
        Highlight(currentIndex);
        isInitialized := true;
      } else {
        isInitialized := false;
      }
    }

    /** What key `d` did to a ready state. Away from the end the cursor
        moves forward by one. Within NearEnd of the end the list is the
        pass result: the cursor moves forward by one if the list grew and
        is clamped otherwise, so it stalls when the length is unchanged.
        An empty list leaves the cursor at -1, the script not ready and
        the marks alone; otherwise the new cursor is highlighted. */
    twostate predicate Advanced(doc: Document)
      reads this, pres
    {
      && (old(currentIndex) < old(|thumbnails|) - NearEnd ==>
            && thumbnails == old(thumbnails) && isInitialized
            && currentIndex == old(currentIndex) + 1)
      && (old(currentIndex) >= old(|thumbnails|) - NearEnd ==>
            && thumbnails == Locate(doc)
            && currentIndex == if |thumbnails| > old(|thumbnails|) then old(currentIndex) + 1
                               else Min(old(currentIndex), |thumbnails| - 1))
      && (old(currentIndex) >= old(|thumbnails|) - NearEnd && |thumbnails| == old(|thumbnails|) ==>
            currentIndex == old(currentIndex))
      && (thumbnails == [] ==>
            currentIndex == -1 && !isInitialized && pres.Value() == old(pres.Value()))
      && (thumbnails != [] ==>
            isInitialized && pres.Value() == Highlighted(old(pres.Value()), thumbnails, currentIndex))
    }

    /** Key `d`. Away from the end the cursor moves forward by one. Within
        NearEnd of the end, discovery runs again: if the list grew the
        cursor moves forward by one, otherwise it is clamped to the new
        list and so does not advance; if the new list is empty the cursor
        becomes -1 and the old mark stays on the page. */
    method Advance(doc: Document)
      requires Valid() && isInitialized
      modifies this, pres
      ensures Valid() && lastUrl == old(lastUrl)
      ensures Advanced(doc)
    {
      ghost var m0 := pres.Value();
      if currentIndex >= |thumbnails| - NearEnd {
        var oldLength := |thumbnails|;
        Discover(doc);
        ghost var m1 := pres.Value();
        ghost var i1 := currentIndex;
        if |thumbnails| <= oldLength {
          currentIndex := Min(currentIndex, |thumbnails| - 1);
        } else {
          currentIndex := Min(currentIndex + 1, |thumbnails| - 1);
        }
        Highlight(currentIndex);
        assert thumbnails != [] ==> pres.Value() == Highlighted(m0, thumbnails, currentIndex) by {
          if thumbnails != [] {
            assert m1 == Highlighted(m0, thumbnails, i1);
            if 0 <= currentIndex {
              HighlightOverrides(m0, thumbnails, i1, currentIndex);
            }
          }
        }
      } else {
        currentIndex := Min(currentIndex + 1, |thumbnails| - 1);
        Highlight(currentIndex);
      }
    }

    /** What key `s` did to a ready state: the list is the pass result
        when the jump lands within NearEnd of the end and is kept
        otherwise; the cursor is min(old + Stride, L - 1) for the final
        length L; an empty list leaves the cursor at -1, the script not
        ready and the marks alone; otherwise the new cursor is
        highlighted. */
    twostate predicate JumpedForward(doc: Document)
      reads this, pres
    {
      && thumbnails == (if old(currentIndex) + Stride >= old(|thumbnails|) - NearEnd
                        then Locate(doc) else old(thumbnails))
      && currentIndex == Min(old(currentIndex) + Stride, |thumbnails| - 1)
      && (thumbnails == [] ==>
            currentIndex == -1 && !isInitialized && pres.Value() == old(pres.Value()))
      && (thumbnails != [] ==>
            isInitialized && pres.Value() == Highlighted(old(pres.Value()), thumbnails, currentIndex))
    }

    /** Key `s`. The cursor becomes min(old + Stride, L - 1), where L is
        the list length after discovery, which runs again when the jump
        lands within NearEnd of the end; an empty re-discovery leaves the
        cursor at -1 and the old mark on the page. */
    method JumpForward(doc: Document)
      requires Valid() && isInitialized
      modifies this, pres
      ensures Valid() && lastUrl == old(lastUrl)
      ensures JumpedForward(doc)
    {
      ghost var m0 := pres.Value();
      var oldIndex := currentIndex;
      currentIndex := Min(currentIndex + Stride, |thumbnails| - 1);
      if currentIndex >= |thumbnails| - NearEnd {
        Discover(doc);
        ghost var m1 := pres.Value();
        ghost var i1 := currentIndex;
        currentIndex := Min(oldIndex + Stride, |thumbnails| - 1);
        Highlight(currentIndex);
        assert thumbnails != [] ==> pres.Value() == Highlighted(m0, thumbnails, currentIndex) by {
          if thumbnails != [] {
            assert m1 == Highlighted(m0, thumbnails, i1);
            HighlightOverrides(m0, thumbnails, i1, currentIndex);
          }
        }
      } else {
        Highlight(currentIndex);
      }
    }

    /** What key `a` did to a ready state: the list and the ready flag
        are kept and the cursor never increases from a non-negative
        index; at 0 on a video page the marks are cleared and the cursor
        stays at 0; otherwise the cursor is max(old - 1, 0) (so -1 goes
        to 0) and highlighted. */
    twostate predicate Retreated(url: string)
      reads this, pres
    {
      && isInitialized && thumbnails == old(thumbnails)
      && 0 <= currentIndex && (old(currentIndex) >= 0 ==> currentIndex <= old(currentIndex))
      && (old(currentIndex) == 0 && Contains(url, WatchMarker) ==>
            currentIndex == 0 && pres.Value() == Unwound(old(pres.Value())))
      && (!(old(currentIndex) == 0 && Contains(url, WatchMarker)) ==>
            && currentIndex == Max(old(currentIndex) - 1, 0)
            && pres.Value() == Highlighted(old(pres.Value()), thumbnails, currentIndex))
    }

    /** Key `a`. The cursor moves back by one, stopping at 0. At index 0 on
        a video page (URL containing the watch marker) the marks are
        cleared instead and nothing is re-marked. */
    method Retreat(url: string)
      requires Valid() && isInitialized
      modifies this, pres
      ensures Valid() && lastUrl == old(lastUrl)
      ensures Retreated(url)
    {
      if currentIndex == 0 && Contains(url, WatchMarker) {
        HighlightedWellFormed(pres.Value(), thumbnails, 0);
        pres.ClearMarks();
        currentIndex := 0;
      } else {
        currentIndex := Max(currentIndex - 1, 0);
        Highlight(currentIndex);
      }
    }

    /** What key `w` did to a ready state: the list and the ready flag
        are kept and the cursor is max(old - Stride, 0); when that is 0 on
        a video page the marks are cleared, otherwise the cursor is
        highlighted. */
    twostate predicate JumpedBack(url: string)
      reads this, pres
    {
      && isInitialized && thumbnails == old(thumbnails)
      && currentIndex == Max(old(currentIndex) - Stride, 0)
      && 0 <= currentIndex && (old(currentIndex) >= 0 ==> currentIndex <= old(currentIndex))
      && (currentIndex == 0 && Contains(url, WatchMarker) ==>
            pres.Value() == Unwound(old(pres.Value())))
      && (!(currentIndex == 0 && Contains(url, WatchMarker)) ==>
            pres.Value() == Highlighted(old(pres.Value()), thumbnails, currentIndex))
    }

    /** Key `w`. The cursor moves back by Stride, stopping at 0. When the
        target is 0 on a video page the marks are cleared instead and
        nothing is re-marked. */
    method JumpBack(url: string)
      requires Valid() && isInitialized
      modifies this, pres
      ensures Valid() && lastUrl == old(lastUrl)
      ensures JumpedBack(url)
    {
      var newIndex := Max(currentIndex - Stride, 0);
      if newIndex == 0 && Contains(url, WatchMarker) {
        HighlightedWellFormed(pres.Value(), thumbnails, 0);
        pres.ClearMarks();
        currentIndex := 0;
      } else {
        currentIndex := newIndex;
        Highlight(currentIndex);
      }
    }

    /** The keydown listener. An event that finds the script not ready
        runs discovery first and is dropped if that finds nothing. Enter
        acts on the selected item only when the cursor points into the
        list; `r` navigates home; other keys are ignored. On a ready
        state, `d`, `a`, `s` and `w` make exactly the transitions of
        Advance, Retreat, JumpForward and JumpBack. Enter, `r` and
        ignored keys never move the cursor, change the list or touch the
        marks once the script is ready. */
    method HandleKey(key: string, url: string, doc: Document) returns (out: Outcome)
      requires Valid()
      modifies this, pres
      ensures Valid() && lastUrl == old(lastUrl)
      ensures !old(isInitialized) ==> thumbnails == Locate(doc)
      ensures !old(isInitialized) && Locate(doc) != [] ==> isInitialized
      ensures !old(isInitialized) && Lower(key) !in MovingKeys ==> Rediscovered(doc)
      ensures !old(isInitialized) && Locate(doc) == [] ==>
        && out == Ignored && thumbnails == [] && !isInitialized
        && currentIndex == old(currentIndex) && pres.Value() == old(pres.Value())
      ensures old(isInitialized) && Lower(key) == "d" ==> Advanced(doc)
      ensures old(isInitialized) && Lower(key) == "a" ==> Retreated(url)
      ensures old(isInitialized) && Lower(key) == "s" ==> JumpedForward(doc)
      ensures old(isInitialized) && Lower(key) == "w" ==> JumpedBack(url)
      ensures old(isInitialized) && Lower(key) !in MovingKeys ==>
        && thumbnails == old(thumbnails) && currentIndex == old(currentIndex)
        && isInitialized && pres.Value() == old(pres.Value())
      ensures old(isInitialized) || Locate(doc) != [] ==>
        && (Lower(key) in MovingKeys ==> out == Outcome(true, None))
        && (Lower(key) == "r" ==> out == Outcome(true, Some(Navigate(HomeUrl))))
        && (Lower(key) == "enter" ==>
              out == if 0 <= currentIndex < |thumbnails|
                     then Outcome(true, FirstAction(doc, ClickTargets(doc, thumbnails[currentIndex])))
                     else Ignored)
        && (Lower(key) !in MovingKeys + {"r", "enter"} ==> out == Ignored)
    {
      out := Ignored;
      if !isInitialized {
        Discover(doc);
        if !isInitialized {
          return;
        }
      }
      if |thumbnails| == 0 {
        return;
      }
      var k := Lower(key);
      if k == "d" {
        Advance(doc);
        out := Outcome(true, None);
      } else if k == "a" {
        Retreat(url);
        out := Outcome(true, None);
      } else if k == "s" {
        JumpForward(doc);
        out := Outcome(true, None);
      } else if k == "w" {
        JumpBack(url);
        out := Outcome(true, None);
      } else if k == "enter" {
        if 0 <= currentIndex < |thumbnails| {
          var act := Activate(doc, ClickTargets(doc, thumbnails[currentIndex]));
          out := Outcome(true, act);
        }
      } else if k == "r" {
        out := Outcome(true, Some(Navigate(HomeUrl)));
      }
    }

    /** The mutation observer's callback: a changed URL is remembered and
        marks the state as not ready; the list, the cursor and the marks
        are kept until the delayed discovery runs. */
    method UrlObserved(url: string)
      requires Valid()
      modifies this
      ensures Valid()
      ensures thumbnails == old(thumbnails) && currentIndex == old(currentIndex)
      ensures url != old(lastUrl) ==> lastUrl == url && !isInitialized
      ensures url == old(lastUrl) ==> lastUrl == old(lastUrl) && isInitialized == old(isInitialized)
    {
      if url != lastUrl {
        lastUrl := url;
        isInitialized := false;
      }
    }

    /** The periodic fallback: discovery runs again only when the script
        is not ready or has no items. */
    method PeriodicCheck(doc: Document)
      requires Valid()
      modifies this, pres
      ensures Valid() && lastUrl == old(lastUrl)
      ensures !old(isInitialized) || old(thumbnails) == [] ==> Rediscovered(doc)
      ensures old(isInitialized) && old(thumbnails) != [] ==>
        && thumbnails == old(thumbnails) && currentIndex == old(currentIndex)
        && isInitialized && pres.Value() == old(pres.Value())
    {
      if !isInitialized || |thumbnails| == 0 {
        Discover(doc);
      }
    }

    /** The 3 s and 5 s start-up retries: discovery runs again only while
        fewer than FewItems items are known. */
    method RetryIfFew(doc: Document)
      requires Valid()
      modifies this, pres
      ensures Valid() && lastUrl == old(lastUrl)
      ensures old(|thumbnails|) < FewItems ==> Rediscovered(doc)
      ensures old(|thumbnails|) >= FewItems ==>
        && thumbnails == old(thumbnails) && currentIndex == old(currentIndex)
        && isInitialized == old(isInitialized) && pres.Value() == old(pres.Value())
    {
      if |thumbnails| < FewItems {
        Discover(doc);
      }
    }
  }

  /** The stranded cursor. `d` near the end re-runs discovery; when that
      finds nothing the cursor becomes -1. A later pass that finds items
      makes the script ready again but keeps the cursor at -1, so nothing
      is marked, the old highlight stays, and Enter does nothing. */
  method StrandedCursor(nav: Navigator, empty: Document, later: Document, url: string)
    returns (out: Outcome)
    requires nav.Valid() && nav.isInitialized
    requires nav.currentIndex >= |nav.thumbnails| - NearEnd
    requires Locate(empty) == [] && Locate(later) != []
    modifies nav, nav.pres
    ensures nav.isInitialized && nav.thumbnails == Locate(later) && nav.currentIndex == -1
    ensures nav.pres.Value() == old(nav.pres.Value())
    ensures out == Ignored
  {
    nav.Advance(empty);
    nav.PeriodicCheck(later);
    KeyDispatchIgnoresCase("Enter");
    out := nav.HandleKey("Enter", url, later);
  }
}
