/** `SubtitleSelect`: the subtitle button, its popover of tracks, and which
    item of the popover is marked active.

    The popover is rendered inside the selector button, so a click on one of
    its items reaches the button's own handler unless the item stops it: the
    track items stop it, the "None" item does not. */
module SubtitleSelect {
  import opened Js
  import opened Subtrack

  datatype Selector = Selector(popoverVisible: bool, controller: Controller)

  /** Where a document click landed: on an HTML element inside the selector
      button, on one outside it, or on something that is not an HTML element. */
  datatype ClickTarget = InsideButton | OutsideButton | NotHtml

  /** `handlePress`: the button toggles the popover. */
  function Press(s: Selector): (r: Selector)
    ensures r.popoverVisible == !s.popoverVisible && r.controller == s.controller
  {
    s.(popoverVisible := !s.popoverVisible)
  }

  /** `onDocumentClick`: an open popover closes on a click on an HTML element
      outside the button; any other click changes nothing. */
  function DocumentClick(s: Selector, target: ClickTarget): (r: Selector)
    ensures !s.popoverVisible ==> r == s
    ensures r.controller == s.controller
    ensures r.popoverVisible <==> s.popoverVisible && target != OutsideButton
  {
    if !s.popoverVisible then s
    else if target == OutsideButton then s.(popoverVisible := false)
    else s
  }

  /** A track item's click: the track is selected and the popover closes. */
  function Choose(s: Selector, id: string): (r: Selector)
    ensures !r.popoverVisible
    ensures r.controller == Select(s.controller, id)
  {
    Selector(false, Select(s.controller, id))
  }

  /** The "None" item's click: subtitles are disabled, then the click reaches
      the button, which toggles the popover (closing it, as it is open while
      the item can be clicked). */
  function ChooseNone(s: Selector): (r: Selector)
    ensures r.controller == Disable(s.controller)
    ensures s.popoverVisible ==> !r.popoverVisible
  {
    Press(s.(controller := Disable(s.controller)))
  }

  /** A track item is marked active when it is the selected track. */
  predicate ItemActive(s: Selector, id: string) {
    s.controller.activeTrack == Some(id)
  }

  /** The "None" item is marked active when no track is selected. */
  predicate NoneActive(s: Selector) {
    s.controller.activeTrack.None?
  }

  /** The selector button is rendered only for a non-empty subtitle list. */
  predicate ButtonShown<T>(subtitles: Option<seq<T>>) {
    |subtitles.GetOr([])| > 0
  }

  // ---------------------------------------------------------------------------
  // Properties

  /** Pressing twice restores the popover. */
  lemma PressTwice(s: Selector)
    ensures Press(Press(s)) == s
  {
  }

  /** The positions of the track items, rendered in order with the ids
      `ids`, that are marked active. */
  function ActiveItems(s: Selector, ids: seq<string>): set<nat> {
    set k: nat | k < |ids| && ItemActive(s, ids[k])
  }

  /** Every marked item carries the selected id; with distinct ids at most
      one item is marked, and none while "None" is. */
  lemma ActiveExclusive(s: Selector, ids: seq<string>)
    ensures forall k :: k in ActiveItems(s, ids) ==> k < |ids| && s.controller.activeTrack == Some(ids[k])
    ensures (forall i, j :: 0 <= i < j < |ids| ==> ids[i] != ids[j]) ==> |ActiveItems(s, ids)| <= 1
    ensures NoneActive(s) ==> ActiveItems(s, ids) == {}
  {
    var a := ActiveItems(s, ids);
    if forall i, j :: 0 <= i < j < |ids| ==> ids[i] != ids[j] {
      forall i, j | i in a && j in a
        ensures i == j
      {
        SameIdSamePlace(ids, i, j);
      }
      AtMostOne(a);
    }
  }

  lemma SameIdSamePlace(ids: seq<string>, i: nat, j: nat)
    requires forall i, j :: 0 <= i < j < |ids| ==> ids[i] != ids[j]
    requires i < |ids| && j < |ids| && ids[i] == ids[j]
    ensures i == j
  {
  }

  lemma AtMostOne(a: set<nat>)
    requires forall i, j :: i in a && j in a ==> i == j
    ensures |a| <= 1
  {
    if a != {} {
      var i :| i in a;
      assert a == {i};
    }
  }

  /** The items are marked by id alone: two items with the selected id are
      both marked. */
  lemma DuplicateIdsBothActive(s: Selector, ids: seq<string>, i: nat, j: nat)
    requires i < j < |ids| && ids[i] == ids[j] && ItemActive(s, ids[i])
    ensures {i, j} <= ActiveItems(s, ids) && |ActiveItems(s, ids)| >= 2
  {
    assert |{i, j}| == 2;
    SubsetSize({i, j}, ActiveItems(s, ids));
  }

  lemma SubsetSize(a: set<nat>, b: set<nat>)
    requires a <= b
    ensures |a| <= |b|
  {
    assert b == a + (b - a);
  }

  /** Choosing a track the video has marks exactly that item active and
      closes the popover. */
  lemma ChooseMarksItem(s: Selector, k: nat, other: string)
    requires k < |s.controller.tracks|
    ensures var r := Choose(s, s.controller.tracks[k].id);
      ItemActive(r, s.controller.tracks[k].id) && !NoneActive(r) && !r.popoverVisible
      && (other != s.controller.tracks[k].id ==> !ItemActive(r, other))
  {
  }

  /** Choosing "None" while a track shows marks "None" active and no track
      item. */
  lemma ChooseNoneMarksNone(s: Selector, k: nat, id: string)
    requires k < |s.controller.tracks| && s.controller.tracks[k].mode == Showing
    ensures NoneActive(ChooseNone(s)) && !ItemActive(ChooseNone(s), id)
  {
  }

  /** A document click never opens the popover and never touches the tracks. */
  lemma ClickNeverOpens(s: Selector, target: ClickTarget)
    ensures DocumentClick(s, target).popoverVisible ==> s.popoverVisible
    ensures DocumentClick(s, target).controller == s.controller
  {
  }

  /** The button shows exactly when there is at least one subtitle track. */
  lemma ButtonShownIff<T>(subtitles: Option<seq<T>>)
    ensures ButtonShown(subtitles) <==> subtitles.Some? && subtitles.value != []
  {
  }
}
