/** The PDF editor page: a list of pages, one selected by id, and edit
    handlers that change one field of the selected page (rotation in
    quarter turns, zoom clamped to 50..200 percent, a CSS filter,
    brightness and contrast). */
module PdfEditor {
  import opened Common
  import opened Batch

  datatype Page = Page(
    id: int,
    image: string,
    rotation: int,
    zoom: int,
    filter: string,
    brightness: int,
    contrast: int)

  datatype State = State(pages: seq<Page>, selected: Option<int>)

  /** No pages, nothing selected. */
  const Initial := State([], None)

  const MinZoom := 50
  const MaxZoom := 200

  /** The choices of the filter menu. */
  const Filters: set<string> := {"none", "grayscale", "sepia", "blur(2px)", "invert(1)"}

  /** The brightness and contrast sliders run from 0 to 200. */
  predicate SliderValue(v: int) { 0 <= v <= 200 }

  /** Page `k` of the list has id `k`, so selecting by id and showing by
      index refer to the same page. */
  predicate IdsMatchIndex(pages: seq<Page>)
  {
    forall k :: 0 <= k < |pages| ==> pages[k].id == k
  }

  /** What every page of the editor keeps true. */
  predicate PageValid(p: Page)
  {
    && p.rotation % 90 == 0
    && MinZoom <= p.zoom <= MaxZoom
    && p.filter in Filters
    && SliderValue(p.brightness) && SliderValue(p.contrast)
  }

  predicate Valid(s: State)
  {
    IdsMatchIndex(s.pages) && forall k :: 0 <= k < |s.pages| ==> PageValid(s.pages[k])
  }

  /** The page a dropped file starts as. */
  predicate FreshPage(p: Page)
  {
    p.rotation == 0 && p.zoom == 100 && p.filter == "none" && p.brightness == 100 && p.contrast == 100
  }

  /** `onDrop`: the dropped files replace the page list, page `k` (with id
      `k`) showing the `k`th file; the selection is left as it was. */
  function OnDrop(s: State, images: seq<string>): (r: State)
    ensures |r.pages| == |images| && IdsMatchIndex(r.pages)
    ensures forall k :: 0 <= k < |images| ==> r.pages[k].image == images[k] && FreshPage(r.pages[k])
    ensures r.selected == s.selected
    ensures Valid(r)
  {
    State(seq(|images|, k requires 0 <= k < |images| => Page(k, images[k], 0, 100, "none", 100, 100)), s.selected)
  }

  /** Clicking a page thumbnail selects that page's id. */
  function SelectPage(s: State, id: int): (r: State)
    ensures r.pages == s.pages && r.selected == Some(id)
  {
    s.(selected := Some(id))
  }

  /** `pages.map(page => page.id === selected ? edit(page) : page)`, or no
      change at all with nothing selected. */
  function EditSelected(s: State, edit: Page -> Page): (r: State)
    ensures |r.pages| == |s.pages| && r.selected == s.selected
    ensures s.selected.None? ==> r == s
    ensures forall k :: 0 <= k < |s.pages| && (s.selected.None? || s.pages[k].id != s.selected.value) ==>
      r.pages[k] == s.pages[k]
    ensures s.selected.Some? ==> forall k :: 0 <= k < |s.pages| && s.pages[k].id == s.selected.value ==>
      r.pages[k] == edit(s.pages[k])
  {
    if s.selected.None? then s
    else State(MapAll(s.pages, (p: Page) => if p.id == s.selected.value then edit(p) else p), s.selected)
  }

  /** `r` differs from `s` at most in the pages whose id is selected, and in
      those only as `changed` allows; ids, order and length stay. */
  ghost predicate OnlySelectedChanged(s: State, r: State, changed: (Page, Page) -> bool)
  {
    && |r.pages| == |s.pages| && r.selected == s.selected
    && (forall k :: 0 <= k < |s.pages| ==> r.pages[k].id == s.pages[k].id)
    && (forall k :: 0 <= k < |s.pages| ==>
          if s.selected.Some? && s.pages[k].id == s.selected.value
          then changed(s.pages[k], r.pages[k])
          else r.pages[k] == s.pages[k])
  }

  /** The rotate buttons: left subtracts a quarter turn, right adds one. */
  function Rotate(s: State, left: bool): (r: State)
    ensures s.selected.None? ==> r == s
    ensures OnlySelectedChanged(s, r,
      (p: Page, q: Page) => q == p.(rotation := p.rotation + (if left then -90 else 90)))
  {
    EditSelected(s, (p: Page) => p.(rotation := p.rotation + (if left then -90 else 90)))
  }

  /** `Math.max(50, Math.min(200, zoom))` */
  function ClampZoom(zoom: int): (z: int)
    ensures MinZoom <= z <= MaxZoom
    ensures MinZoom <= zoom <= MaxZoom ==> z == zoom
    ensures zoom > MaxZoom ==> z == MaxZoom
    ensures zoom < MinZoom ==> z == MinZoom
  {
    if zoom > MaxZoom then MaxZoom else if zoom < MinZoom then MinZoom else zoom
  }

  /** The zoom buttons (steps of +10 and -10): the new zoom is the old one
      plus the step, kept within 50..200. */
  function Zoom(s: State, delta: int): (r: State)
    ensures s.selected.None? ==> r == s
    ensures OnlySelectedChanged(s, r,
      (p: Page, q: Page) => q == p.(zoom := q.zoom) && MinZoom <= q.zoom <= MaxZoom
        && (MinZoom <= p.zoom + delta <= MaxZoom ==> q.zoom == p.zoom + delta)
        && (p.zoom + delta > MaxZoom ==> q.zoom == MaxZoom)
        && (p.zoom + delta < MinZoom ==> q.zoom == MinZoom))
  {
    EditSelected(s, (p: Page) => p.(zoom := ClampZoom(p.zoom + delta)))
  }

  /** The filter menu: the chosen filter is stored as given. */
  function SetFilter(s: State, filter: string): (r: State)
    ensures s.selected.None? ==> r == s
    ensures OnlySelectedChanged(s, r, (p: Page, q: Page) => q == p.(filter := filter))
  {
    EditSelected(s, (p: Page) => p.(filter := filter))
  }

  /** The brightness slider: its value is stored as given. */
  function SetBrightness(s: State, value: int): (r: State)
    ensures s.selected.None? ==> r == s
    ensures OnlySelectedChanged(s, r, (p: Page, q: Page) => q == p.(brightness := value))
  {
    EditSelected(s, (p: Page) => p.(brightness := value))
  }

  /** The contrast slider: its value is stored as given. */
  function SetContrast(s: State, value: int): (r: State)
    ensures s.selected.None? ==> r == s
    ensures OnlySelectedChanged(s, r, (p: Page, q: Page) => q == p.(contrast := value))
  {
    EditSelected(s, (p: Page) => p.(contrast := value))
  }

  /** Rotating left and then right gives back the state rotated from. */
  lemma RotateLeftThenRight(s: State)
    ensures Rotate(Rotate(s, true), false) == s
  {
    if s.selected.Some? {
      var r := Rotate(Rotate(s, true), false);
      assert forall k :: 0 <= k < |s.pages| ==> r.pages[k] == s.pages[k];
      assert r.pages == s.pages;
    }
  }

  /** Rotation keeps the page list valid: a quarter turn added to or taken
      from a multiple of 90 is still one. */
  lemma RotateKeepsValid(s: State, left: bool)
    requires Valid(s)
    ensures Valid(Rotate(s, left))
  {
    var r := Rotate(s, left);
    forall k | 0 <= k < |r.pages|
      ensures PageValid(r.pages[k]) && r.pages[k].id == k
    {
      if s.selected.Some? && s.pages[k].id == s.selected.value {
        assert r.pages[k] == s.pages[k].(rotation := s.pages[k].rotation + (if left then -90 else 90));
        QuarterTurn(s.pages[k].rotation, left);
      } else {
        assert r.pages[k] == s.pages[k];
      }
    }
  }

  lemma QuarterTurn(rotation: int, left: bool)
    requires rotation % 90 == 0
    ensures (rotation + (if left then -90 else 90)) % 90 == 0
  {
  }

  /** Zooming by any step keeps the page list valid. */
  lemma ZoomKeepsValid(s: State, delta: int)
    requires Valid(s)
    ensures Valid(Zoom(s, delta))
  {
    var r := Zoom(s, delta);
    forall k | 0 <= k < |r.pages|
      ensures PageValid(r.pages[k]) && r.pages[k].id == k
    {
      if s.selected.Some? && s.pages[k].id == s.selected.value {
        assert r.pages[k] == s.pages[k].(zoom := ClampZoom(s.pages[k].zoom + delta));
      } else {
        assert r.pages[k] == s.pages[k];
      }
    }
  }

  /** A filter from the menu keeps the page list valid. */
  lemma SetFilterKeepsValid(s: State, filter: string)
    requires Valid(s) && filter in Filters
    ensures Valid(SetFilter(s, filter))
  {
    var r := SetFilter(s, filter);
    forall k | 0 <= k < |r.pages|
      ensures PageValid(r.pages[k]) && r.pages[k].id == k
    {
      if s.selected.Some? && s.pages[k].id == s.selected.value {
        assert r.pages[k] == s.pages[k].(filter := filter);
      } else {
        assert r.pages[k] == s.pages[k];
      }
    }
  }

  /** A brightness from the slider's range keeps the page list valid. */
  lemma SetBrightnessKeepsValid(s: State, value: int)
    requires Valid(s) && SliderValue(value)
    ensures Valid(SetBrightness(s, value))
  {
    var r := SetBrightness(s, value);
    forall k | 0 <= k < |r.pages|
      ensures PageValid(r.pages[k]) && r.pages[k].id == k
    {
      if s.selected.Some? && s.pages[k].id == s.selected.value {
        assert r.pages[k] == s.pages[k].(brightness := value);
      } else {
        assert r.pages[k] == s.pages[k];
      }
    }
  }

  /** A contrast from the slider's range keeps the page list valid. */
  lemma SetContrastKeepsValid(s: State, value: int)
    requires Valid(s) && SliderValue(value)
    ensures Valid(SetContrast(s, value))
  {
    var r := SetContrast(s, value);
    forall k | 0 <= k < |r.pages|
      ensures PageValid(r.pages[k]) && r.pages[k].id == k
    {
      if s.selected.Some? && s.pages[k].id == s.selected.value {
        assert r.pages[k] == s.pages[k].(contrast := value);
      } else {
        assert r.pages[k] == s.pages[k];
      }
    }
  }

  /** With ids equal to positions, the page the editor displays for a
      selection (`pages[selected]`) is the only page the edit handlers
      change. */
  lemma SelectedIdIsIndex(s: State, k: nat)
    requires IdsMatchIndex(s.pages) && s.selected.Some?
    requires k < |s.pages|
    ensures s.pages[k].id == s.selected.value <==> k == s.selected.value
  {
  }

  // ----- a stale selection after a new drop ----------------------------

  /** What the filter panel, once opened with the filter button, reads for
      the selection. The editor's whole grid, the panel included, is shown
      only while there are pages, so with none nothing is read; otherwise
      the panel reads the defaults with no selection, the selected page's
      values, or fails when the selected index names no page
      (`pages[selected].filter` on `undefined` throws while rendering). */
  datatype PanelRead = Hidden | Defaults | Values(filter: string, brightness: int, contrast: int) | Crash

  function FilterPanel(s: State): (r: PanelRead)
    ensures r.Hidden? <==> |s.pages| == 0
    ensures r.Defaults? <==> |s.pages| > 0 && s.selected.None?
    ensures r.Crash? <==> |s.pages| > 0 && s.selected.Some? && !(0 <= s.selected.value < |s.pages|)
    ensures r.Values? ==> s.selected.Some? && 0 <= s.selected.value < |s.pages|
    ensures r.Values? ==>
      r == Values(s.pages[s.selected.value].filter, s.pages[s.selected.value].brightness,
                  s.pages[s.selected.value].contrast)
  {
    if |s.pages| == 0 then Hidden
    else match s.selected
      case None => Defaults
      case Some(i) =>
        if 0 <= i < |s.pages| then Values(s.pages[i].filter, s.pages[i].brightness, s.pages[i].contrast)
        else Crash
  }

  /** A drop of files the picker refuses (none accepted) empties the list,
      which hides the panel instead of making it fail. */
  lemma EmptyDropHidesPanel(s: State)
    ensures FilterPanel(OnDrop(s, [])) == Hidden
  {
  }

  /** Dropping five files, selecting the last page and then dropping two
      files leaves the selection at index 4 of a two-page list, so the
      filter panel's read fails. */
  lemma StaleSelectionCrashesPanel()
    ensures var s := OnDrop(SelectPage(OnDrop(Initial, ["a", "b", "c", "d", "e"]), 4), ["f", "g"]);
      FilterPanel(s) == Crash
  {
  }

  /** The selection names a page of the list, or nothing. */
  predicate SelectionInRange(s: State)
  {
    s.selected.None? || 0 <= s.selected.value < |s.pages|
  }

  /** `onDrop` that drops a selection the new list has no page for; pages
      are built exactly as by `OnDrop`. */
  function OnDropKeepingSelectionValid(s: State, images: seq<string>): (r: State)
    ensures r.pages == OnDrop(s, images).pages
    ensures SelectionInRange(r)
    ensures s.selected.Some? && 0 <= s.selected.value < |images| ==> r.selected == s.selected
  {
    var dropped := OnDrop(s, images);
    if SelectionInRange(dropped) then dropped else dropped.(selected := None)
  }

  /** With the corrected drop, a selection in range stays in range under
      every handler (a thumbnail click selects the id of a listed page), so
      the filter panel never fails. */
  lemma CorrectedDropNeverCrashesPanel(s: State, images: seq<string>, k: nat)
    requires SelectionInRange(s) && IdsMatchIndex(s.pages) && k < |s.pages|
    ensures FilterPanel(OnDropKeepingSelectionValid(s, images)) != Crash
    ensures FilterPanel(SelectPage(s, s.pages[k].id)) != Crash
  {
  }

  /** The edit handlers keep the list's length and the selection, so they
      never move a selection out of range. */
  lemma EditsKeepSelectionInRange(s: State, left: bool, delta: int, filter: string, value: int)
    requires SelectionInRange(s)
    ensures SelectionInRange(Rotate(s, left)) && SelectionInRange(Zoom(s, delta))
    ensures SelectionInRange(SetFilter(s, filter))
    ensures SelectionInRange(SetBrightness(s, value)) && SelectionInRange(SetContrast(s, value))
  {
  }
}
