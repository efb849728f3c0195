/** The highlight mark of `highlightThumbnail` (content.js:89-126): a
    reversible mark kept in each element's inline style and two attributes,
    `data-youtube-nav-highlight` (the mark) and `data-original-style` (the
    inline style saved when the mark was applied). */
module Presenter {
  import opened Dom

  /** The highlight declarations appended to the inline style; only the
      fact that it is one fixed, non-empty string matters to the model. */
  const HighlightCss: string :=
    "border: 8px solid #00FF00 !important; box-shadow: 0 0 30px #00FF00 !important; "
    + "outline: 4px solid #00FF00 !important; outline-offset: 4px !important; "
    + "transform: scale(1.05) !important; z-index: 9999 !important; "
    + "position: relative !important; background-color: rgba(0, 255, 0, 0.1) !important;"

  /** The per-element presentation state the script reads and writes.
      - style: the inline style text (`style.cssText`); an element with
        an empty inline style has no entry;
      - marked: the elements carrying the mark attribute;
      - saved: the value of each element's saved-style attribute. */
  datatype Marks = Marks(style: map<Element, string>, marked: set<Element>, saved: map<Element, string>)

  function StyleOf(m: Marks, e: Element): string
  {
    if e in m.style then m.style[e] else ""
  }

  /** `el.getAttribute('data-original-style') || ''`. */
  function SavedOr(m: Marks, e: Element): string
  {
    if e in m.saved then m.saved[e] else ""
  }

  /** Assigning `cssText`, keeping the "no entry for empty" convention. */
  function SetStyle(style: map<Element, string>, e: Element, css: string): map<Element, string>
  {
    if css == "" then style - {e} else style[e := css]
  }

  /** No element has an entry holding the empty style. */
  ghost predicate CanonicalStyle(style: map<Element, string>)
  {
    forall e :: e in style ==> style[e] != ""
  }

  /** The states the script can produce: no empty style entries, a saved
      style exactly on the marked elements, and at most one mark. */
  ghost predicate WellFormed(m: Marks)
  {
    && CanonicalStyle(m.style)
    && m.saved.Keys == m.marked
    && forall a, b :: a in m.marked && b in m.marked ==> a == b
  }

  /** Restore the elements of D: each gets its saved style back (or the
      empty style), loses the mark and loses the saved style. */
  function Restore(m: Marks, D: set<Element>): Marks
  {
    Marks(
      map e | e in m.style.Keys + D && (e in D ==> SavedOr(m, e) != "")
        :: if e in D then SavedOr(m, e) else m.style[e],
      m.marked - D,
      m.saved - D)
  }

  /** One iteration of the clearing loop, on element e. */
  function RestoreOne(m: Marks, e: Element): Marks
  {
    Marks(SetStyle(m.style, e, SavedOr(m, e)), m.marked - {e}, m.saved - {e})
  }

  /** Restoring one more element extends a partial restore. */
  lemma RestoreStep(m: Marks, done: set<Element>, e: Element)
    requires e !in done
    ensures Restore(m, done + {e}) == RestoreOne(Restore(m, done), e)
  {
    var a := Restore(m, done + {e});
    var b := RestoreOne(Restore(m, done), e);
    assert SavedOr(Restore(m, done), e) == SavedOr(m, e);
    assert a.style == b.style by {
      forall x ensures x in a.style <==> x in b.style {
      }
      forall x | x in a.style ensures a.style[x] == b.style[x] {
      }
    }
    assert a.marked == b.marked;
    assert a.saved == b.saved;
  }

  /** The clearing loop: every element carrying the mark is restored. */
  function Unwound(m: Marks): Marks
  {
    Restore(m, m.marked)
  }

  /** Marking one element: save its current inline style, set the mark,
      append the highlight declarations. */
  function WithMark(m: Marks, e: Element): Marks
  {
    Marks(m.style[e := StyleOf(m, e) + HighlightCss], m.marked + {e}, m.saved[e := StyleOf(m, e)])
  }

  /** `highlightThumbnail(index)` over items `items`: an index outside the
      list changes nothing; otherwise unwind every mark, then mark the
      item at that index. */
  function Highlighted(m: Marks, items: seq<Element>, index: int): Marks
  {
    if 0 <= index < |items| then WithMark(Unwound(m), items[index]) else m
  }

  /** What the clearing loop leaves: no element is marked, every element
      that was marked shows its saved style (or the empty style) and has
      no saved style left, and every other element is untouched. */
  lemma UnwoundRestoresMarked(m: Marks)
    ensures Unwound(m).marked == {}
    ensures forall e :: e in m.marked ==> StyleOf(Unwound(m), e) == SavedOr(m, e) && e !in Unwound(m).saved
    ensures forall e :: e !in m.marked ==> StyleOf(Unwound(m), e) == StyleOf(m, e) && SavedOr(Unwound(m), e) == SavedOr(m, e)
  {
  }

  /** Unwinding a state whose saved styles sit only on marked elements
      leaves no mark and no saved style, and keeps the style map free of
      empty entries. */
  lemma UnwoundIsClean(m: Marks)
    requires m.saved.Keys <= m.marked
    ensures Unwound(m).saved == map[] && Unwound(m).marked == {}
    ensures CanonicalStyle(m.style) ==> CanonicalStyle(Unwound(m).style)
  {
    assert Unwound(m).saved.Keys == {};
  }

  /** Marking one element of a clean state and unwinding again gives the
      clean state back. */
  lemma UnwindAfterMark(u: Marks, t: Element)
    requires u.saved == map[] && u.marked == {} && CanonicalStyle(u.style)
    ensures Unwound(WithMark(u, t)) == u
  {
    var back := Unwound(WithMark(u, t));
    assert back.saved == map[] by {
      assert back.saved.Keys == {};
    }
    assert back.style == u.style by {
      forall e ensures e in back.style <==> e in u.style {
      }
      forall e | e in back.style ensures back.style[e] == u.style[e] {
      }
    }
  }

  /** A highlight with an index outside the list leaves every mark where
      it was; one with a valid index leaves exactly one element marked,
      the item at that index, with its pre-call style (after unwinding)
      saved and the highlight appended, and every previously marked
      element restored. */
  lemma HighlightedMarksExactlyTarget(m: Marks, items: seq<Element>, index: int)
    requires WellFormed(m)
    ensures !(0 <= index < |items|) ==> Highlighted(m, items, index) == m
    ensures 0 <= index < |items| ==>
      var r := Highlighted(m, items, index);
      var t := items[index];
      && r.marked == {t}
      && r.saved == map[t := StyleOf(Unwound(m), t)]
      && StyleOf(r, t) == StyleOf(Unwound(m), t) + HighlightCss
      && (forall e :: e in m.marked && e != t ==> StyleOf(r, e) == SavedOr(m, e))
      && (forall e :: e !in m.marked && e != t ==> StyleOf(r, e) == StyleOf(m, e))
  {
    if 0 <= index < |items| {
      UnwoundIsClean(m);
      UnwoundRestoresMarked(m);
    }
  }

  /** On a state with no marks, marking t, unwinding and marking t again
      gives the state the first marking gave. */
  lemma RemarkAfterUnwind(u: Marks, t: Element)
    requires u.marked == {}
    ensures WithMark(Unwound(WithMark(u, t)), t) == WithMark(u, t)
  {
    var once := WithMark(u, t);
    var back := Unwound(once);
    assert StyleOf(back, t) == StyleOf(u, t);
    var twice := WithMark(back, t);
    assert twice.saved == once.saved;
    assert twice.style == once.style by {
      forall e ensures e in twice.style <==> e in once.style {
      }
      forall e | e in twice.style ensures twice.style[e] == once.style[e] {
      }
    }
  }

  /** Highlighting twice with the same arguments gives the same state as
      highlighting once: the unwinding step fully undoes the first mark. */
  lemma HighlightIdempotent(m: Marks, items: seq<Element>, index: int)
    ensures Highlighted(Highlighted(m, items, index), items, index) == Highlighted(m, items, index)
  {
    if 0 <= index < |items| {
      UnwoundRestoresMarked(m);
      RemarkAfterUnwind(Unwound(m), items[index]);
    }
  }

  /** The mark is reversible: from a well-formed state, unwinding after a
      highlight gives exactly the state unwinding alone gives. */
  lemma UnwindUndoesHighlight(m: Marks, items: seq<Element>, index: int)
    requires WellFormed(m)
    ensures Unwound(Highlighted(m, items, index)) == Unwound(m)
  {
    if 0 <= index < |items| {
      UnwoundIsClean(m);
      UnwindAfterMark(Unwound(m), items[index]);
    }
  }

  /** A later highlight with a valid index erases every trace of an
      earlier one. */
  lemma HighlightOverrides(m: Marks, items: seq<Element>, i: int, j: int)
    requires WellFormed(m)
    requires 0 <= j < |items|
    ensures Highlighted(Highlighted(m, items, i), items, j) == Highlighted(m, items, j)
  {
    UnwindUndoesHighlight(m, items, i);
  }

  /** Both steps keep a state well formed; in particular at most one
      element is ever marked. */
  lemma HighlightedWellFormed(m: Marks, items: seq<Element>, index: int)
    requires WellFormed(m)
    ensures WellFormed(Unwound(m)) && Unwound(m).marked == {}
    ensures WellFormed(Highlighted(m, items, index))
  {
    UnwoundIsClean(m);
    if 0 <= index < |items| {
      var r := Highlighted(m, items, index);
      assert r.marked == {items[index]};
      assert r.saved.Keys == {items[index]};
    }
  }

  /** The page's style store, updated in place. */
  class Presentation {
    var style: map<Element, string>
    var marked: set<Element>
    var saved: map<Element, string>

    function Value(): Marks
      reads this
    {
      Marks(style, marked, saved)
    }

    ghost predicate Valid()
      reads this
    {
      WellFormed(Value())
    }

    /** The page as loaded: the given inline styles, no marks. */
    constructor (initial: map<Element, string>)
      ensures Valid() && marked == {} && saved == map[]
      ensures forall e :: StyleOf(Value(), e) == if e in initial then initial[e] else ""
    {
      style := map e | e in initial && initial[e] != "" :: initial[e];
      marked := {};
      saved := map[];
    }

    /** `document.querySelectorAll('[data-youtube-nav-highlight]').forEach(...)`:
        restore every marked element, one at a time. */
    method ClearMarks()
      modifies this
      ensures Value() == Unwound(old(Value()))
    {
      ghost var m0 := Value();
      assert Restore(m0, {}) == m0 by {
        assert Restore(m0, {}).style == m0.style;
      }
      while marked != {}
        invariant marked <= m0.marked
        invariant Value() == Restore(m0, m0.marked - marked)
        decreases marked
      {
        var e :| e in marked;
        ghost var done := m0.marked - marked;
        RestoreStep(m0, done, e);
        marked := marked - {e};
        style := SetStyle(style, e, if e in saved then saved[e] else "");
        saved := saved - {e};
        assert m0.marked - marked == done + {e};
      }
    }

    /** Save the element's inline style, set the mark, append the
        highlight declarations. */
    method Mark(e: Element)
      modifies this
      ensures Value() == WithMark(old(Value()), e)
    {
      var current := if e in style then style[e] else "";
      saved := saved[e := current];
      marked := marked + {e};
      style := style[e := current + HighlightCss];
    }
  }
}
