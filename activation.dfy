/** Activating the selected item on Enter (content.js:297-353): a
    prioritised list of click targets, tried in order, each attempt's
    exception absorbed, at most one action taken. Navigation and event
    dispatch are recorded as an Action rather than performed. */
module Activation {
  import opened Dom

  /** What the script asks the browser to do. */
  datatype Action =
    | Navigate(url: string)          // window.location.href = url
    | Click(target: Element)         // target.click()
    | DispatchClick(target: Element) // target.dispatchEvent(new MouseEvent('click', ...))

  /** Number of sub-element lookups before the item itself: four
      `querySelector` link patterns, two `closest` ancestors, five
      `querySelector` generic containers. */
  const LookupCount: nat := 11

  /** The candidate targets for item `thumb`, in priority order; the item
      itself comes last, so the list always ends with a real element. */
  function ClickTargets(doc: Document, thumb: Element): seq<Option<Element>>
  {
    seq(LookupCount, k requires 0 <= k < LookupCount => doc.lookup(thumb, k)) + [Some(thumb)]
  }

  /** The action an attempt on `t` takes when it does not raise:
      navigate if its href contains the watch marker, else call click()
      if it has one, else dispatch a click event. */
  function ActionFor(doc: Document, t: Element): Action
  {
    if Contains(doc.hrefProperty(t), WatchMarker) then Navigate(doc.hrefProperty(t))
    else if doc.hasClickMethod(t) then Click(t)
    else DispatchClick(t)
  }

  /** A target that is non-null and whose attempt does not raise. */
  predicate Usable(doc: Document, target: Option<Element>)
  {
    target.Some? && !doc.activationFails(target.value)
  }

  /** The action of the first usable target, if any. */
  function FirstAction(doc: Document, targets: seq<Option<Element>>): Option<Action>
  {
    if targets == [] then None
    else if Usable(doc, targets[0]) then Some(ActionFor(doc, targets[0].value))
    else FirstAction(doc, targets[1..])
  }

  /** No action is taken exactly when no target is usable; otherwise the
      action is the one of the first usable target, and every earlier
      target was null or raised. */
  lemma {:induction false} FirstActionIsFirstUsable(doc: Document, targets: seq<Option<Element>>)
    ensures FirstAction(doc, targets).None? <==> forall k :: 0 <= k < |targets| ==> !Usable(doc, targets[k])
    ensures FirstAction(doc, targets).Some? ==>
      exists k :: 0 <= k < |targets| && Usable(doc, targets[k])
        && FirstAction(doc, targets) == Some(ActionFor(doc, targets[k].value))
        && forall j :: 0 <= j < k ==> !Usable(doc, targets[j])
  {
    if targets != [] && !Usable(doc, targets[0]) {
      var tail := targets[1..];
      FirstActionIsFirstUsable(doc, tail);
      assert forall j :: 1 <= j < |targets| ==> targets[j] == tail[j - 1];
      if FirstAction(doc, tail).Some? {
        var k :| 0 <= k < |tail| && Usable(doc, tail[k])
          && FirstAction(doc, tail) == Some(ActionFor(doc, tail[k].value))
          && forall j :: 0 <= j < k ==> !Usable(doc, tail[j]);
        assert targets[k + 1] == tail[k];
      }
    }
  }

  /** Enter does nothing at all exactly when the attempt on the item
      itself raises and every lookup before it is null or raises; when
      every lookup is null, Enter acts on the item itself unless that
      raises. */
  lemma EnterFailsOnlyIfItemFails(doc: Document, thumb: Element)
    ensures FirstAction(doc, ClickTargets(doc, thumb)).None? <==>
      doc.activationFails(thumb) && forall k :: 0 <= k < LookupCount ==> !Usable(doc, doc.lookup(thumb, k))
    ensures (forall k :: 0 <= k < LookupCount ==> doc.lookup(thumb, k) == None) ==>
      FirstAction(doc, ClickTargets(doc, thumb)) ==
        if doc.activationFails(thumb) then None else Some(ActionFor(doc, thumb))
  {
    var targets := ClickTargets(doc, thumb);
    assert |targets| == LookupCount + 1 && targets[LookupCount] == Some(thumb);
    assert forall k :: 0 <= k < LookupCount ==> targets[k] == doc.lookup(thumb, k);
    FirstActionIsFirstUsable(doc, targets);
    if forall k :: 0 <= k < LookupCount ==> doc.lookup(thumb, k) == None {
      if FirstAction(doc, targets).Some? {
        var k :| 0 <= k < |targets| && Usable(doc, targets[k])
          && FirstAction(doc, targets) == Some(ActionFor(doc, targets[k].value))
          && forall j :: 0 <= j < k ==> !Usable(doc, targets[j]);
        assert k == LookupCount;
      }
    }
  }

  /** The loop over the click targets with its `clicked` flag. */
  method Activate(doc: Document, targets: seq<Option<Element>>) returns (act: Option<Action>)
    ensures act == FirstAction(doc, targets)
  {
    act := None;
    var clicked := false;
    var k := 0;
    while k < |targets|
      invariant 0 <= k <= |targets|
      invariant !clicked && act == None
      invariant FirstAction(doc, targets) == FirstAction(doc, targets[k..])
    {
      assert targets[k..][1..] == targets[k + 1..];
      var target := targets[k];
      if target.Some? && !clicked {
        var t := target.value;
        if !doc.activationFails(t) {
          act := Some(ActionFor(doc, t));
          clicked := true;
          break;
        }
      }
      k := k + 1;
    }
  }
}
