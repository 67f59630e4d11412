/** Offset arithmetic of a paragraph tile's layer: the caret limit, pointer presses and
    drags, caret visibility and the selection sub-range. */
module TileOffsets {
  import opened EditorTypes
  import opened ViewModel

  /** A layer's caret limit: its end, one past it for the document's last paragraph
      (which has no trailing line feed, so the caret needs an extra slot). */
  function ParagraphLimit(end: int, paragraph: Paragraph, lastParagraph: Option<Paragraph>): (limit: int)
    ensures limit == end || limit == end + 1
    ensures limit == end + 1 <==> lastParagraph == Some(paragraph)
  {
    if lastParagraph == Some(paragraph) then end + 1 else end
  }

  /** The global offset a press at a (non-negative) hit-test insertion index maps to,
      never past the line feed at the end of the layer. */
  function GlobalInsertionIndex(start: int, insertionIndex: int, limit: int): (g: int)
    ensures g < limit
    ensures g == start + insertionIndex || g == limit - 1
    ensures g <= start + insertionIndex
    ensures 0 <= insertionIndex && start < limit ==> start <= g
  {
    Min(start + insertionIndex, limit - 1)
  }

  /** The pointer event fields the layer reads. */
  datatype MouseEvent = MouseEvent(
    primaryButton: bool,
    middleButtonDown: bool,
    secondaryButtonDown: bool,
    clickCount: int,
    controlDown: bool,
    altDown: bool,
    shiftDown: bool,
    metaDown: bool,
    shortcutDown: bool)
  {
    predicate IsPrimaryPress() { primaryButton && !(middleButtonDown || secondaryButtonDown) }
    predicate NoModifier() { !(controlDown || altDown || shiftDown || metaDown || shortcutDown) }
    predicate IsShiftClick() {
      shiftDown && clickCount == 1 && !(controlDown || altDown || metaDown || shortcutDown)
    }
  }

  /** What a press or drag can change: the view-model's selection, caret and calls,
      and the skin's recorded drag start. */
  datatype PointerState = PointerState(
    selection: Selection,
    caretPosition: int,
    mouseDragStart: int,
    calls: seq<Call>)

  /** The fixed end of a shift-click selection. */
  function ShiftClickAnchor(prevSelection: Selection, prevCaretPosition: int, g: int): (a: int)
    ensures prevSelection.Range? && g < prevSelection.start ==> a == prevSelection.end
    ensures prevSelection.Range? && g >= prevSelection.start ==> a == prevSelection.start
    ensures !prevSelection.Range? ==> a == prevCaretPosition
  {
    if prevSelection.IsDefined() then
      if g < prevSelection.start then prevSelection.end else prevSelection.start
    else prevCaretPosition
  }

  /** Layer.mousePressedListener on values; `insertionIndex` is the hit-test result. */
  function Press(s: PointerState, e: MouseEvent, insertionIndex: int, start: int, limit: int): (r: PointerState)
    // not a plain primary press, or a miss: nothing changes
    ensures !e.IsPrimaryPress() || insertionIndex < 0 ==> r == s
    // a press without modifiers puts the caret at the clamped global index
    ensures e.IsPrimaryPress() && insertionIndex >= 0 && e.NoModifier() ==>
      r.caretPosition == GlobalInsertionIndex(start, insertionIndex, limit)
    // double click: select the word; triple click: select the paragraph
    ensures e.IsPrimaryPress() && insertionIndex >= 0 && e.NoModifier() && e.clickCount == 2 ==>
      r == s.(caretPosition := r.caretPosition, calls := s.calls + [SelectCurrentWord])
    ensures e.IsPrimaryPress() && insertionIndex >= 0 && e.NoModifier() && e.clickCount == 3 ==>
      r == s.(caretPosition := r.caretPosition, calls := s.calls + [SelectCurrentParagraph])
    // any other click count: drag starts here and the selection is cleared
    ensures e.IsPrimaryPress() && insertionIndex >= 0 && e.NoModifier() && e.clickCount != 2 && e.clickCount != 3 ==>
      r == s.(caretPosition := r.caretPosition, mouseDragStart := r.caretPosition, selection := Undefined)
    // shift-click selects from the anchor to the click point, where the caret goes
    ensures e.IsPrimaryPress() && insertionIndex >= 0 && !e.NoModifier() && e.IsShiftClick() ==>
      var g := GlobalInsertionIndex(start, insertionIndex, limit);
      r == s.(selection := NewSelection(ShiftClickAnchor(s.selection, s.caretPosition, g), g), caretPosition := g)
    // any other modifier combination changes nothing
    ensures e.IsPrimaryPress() && !e.NoModifier() && !e.IsShiftClick() ==> r == s
  {
    if !e.IsPrimaryPress() || insertionIndex < 0 then s
    else
      var g := GlobalInsertionIndex(start, insertionIndex, limit);
      if e.NoModifier() then
        if e.clickCount == 2 then s.(caretPosition := g, calls := s.calls + [SelectCurrentWord])
        else if e.clickCount == 3 then s.(caretPosition := g, calls := s.calls + [SelectCurrentParagraph])
        else s.(caretPosition := g, mouseDragStart := g, selection := Undefined)
      else if e.IsShiftClick() then
        s.(selection := NewSelection(ShiftClickAnchor(s.selection, s.caretPosition, g), g), caretPosition := g)
      else s
  }

  /** Layer.mouseDraggedListener on values: select from the recorded drag start to the
      (unclamped) hit offset, and move the caret there. */
  function Drag(s: PointerState, insertionIndex: int, start: int): (r: PointerState)
    ensures insertionIndex < 0 ==> r == s
    ensures insertionIndex >= 0 ==>
      r.selection == NewSelection(s.mouseDragStart, r.caretPosition) &&
      r.caretPosition - start == insertionIndex &&
      r.mouseDragStart == s.mouseDragStart && r.calls == s.calls
  {
    if insertionIndex >= 0 then
      s.(selection := NewSelection(s.mouseDragStart, start + insertionIndex), caretPosition := start + insertionIndex)
    else s
  }

  /** A press moves the caret only inside the layer's caret range [start, limit). */
  lemma PressKeepsCaretInLayer(s: PointerState, e: MouseEvent, insertionIndex: int, start: int, limit: int)
    requires start < limit
    ensures var r := Press(s, e, insertionIndex, start, limit);
      r.caretPosition == s.caretPosition || start <= r.caretPosition < limit
  {
  }

  /** In an empty layer that is not the document's last paragraph (start == limit), a
      plain click puts the caret one before the layer, at start - 1. */
  lemma PlainClickInEmptyLayerLandsBeforeIt(s: PointerState, e: MouseEvent, insertionIndex: int, start: int)
    requires e.IsPrimaryPress() && e.NoModifier() && insertionIndex >= 0
    ensures Press(s, e, insertionIndex, start, start).caretPosition == start - 1
  {
  }

  /** A shift-click before a selection keeps its end and extends it back to the click; a
      shift-click at or after its start keeps the start and moves the other end there. A
      click that maps to a negative offset leaves no selection. */
  lemma ShiftClickExtendsSelection(s: PointerState, e: MouseEvent, insertionIndex: int, start: int, limit: int)
    requires e.IsPrimaryPress() && e.IsShiftClick() && insertionIndex >= 0
    requires s.selection.Range? && WellFormed(s.selection)
    ensures var g := GlobalInsertionIndex(start, insertionIndex, limit);
      var r := Press(s, e, insertionIndex, start, limit);
      r.caretPosition == g &&
      (g < 0 ==> r.selection == Undefined) &&
      (0 <= g < s.selection.start ==> r.selection == Range(g, s.selection.end)) &&
      (g >= s.selection.start ==> r.selection == Range(s.selection.start, g))
  {
  }

  /** A press never leaves a selection outside the document or with its ends reversed. */
  lemma PressKeepsSelectionWellFormed(s: PointerState, e: MouseEvent, insertionIndex: int, start: int, limit: int)
    requires WellFormed(s.selection)
    ensures WellFormed(Press(s, e, insertionIndex, start, limit).selection)
  {
  }

  /** Nor does a drag. */
  lemma DragKeepsSelectionWellFormed(s: PointerState, insertionIndex: int, start: int)
    requires WellFormed(s.selection)
    ensures WellFormed(Drag(s, insertionIndex, start).selection)
  {
  }

  /** A single plain click followed by a drag selects from the clicked offset to the
      dragged-to offset, whatever was selected before. */
  lemma ClickThenDragSelectsFromClick(s: PointerState, e: MouseEvent, pressIndex: int, dragIndex: int, start: int, limit: int)
    requires e.IsPrimaryPress() && e.NoModifier() && e.clickCount == 1
    requires pressIndex >= 0 && dragIndex >= 0
    ensures var r := Drag(Press(s, e, pressIndex, start, limit), dragIndex, start);
      r.selection == NewSelection(GlobalInsertionIndex(start, pressIndex, limit), start + dragIndex) &&
      r.caretPosition == start + dragIndex && r.calls == s.calls
  {
  }

  /** A layer whose bounds contain a pointer event: its start and caret limit, and the
      insertion index its text flow hit-tests the event to. */
  datatype LayerTarget = LayerTarget(start: int, limit: int, insertionIndex: int)

  /** ParagraphTile.mousePressedListener on values: the press is handed to each layer
      containing the point, in layer order. */
  function PressEach(s: PointerState, e: MouseEvent, ts: seq<LayerTarget>): (r: PointerState)
    ensures ts == [] ==> r == s
    // a press that is not a plain primary press changes nothing, however many layers get it
    ensures !e.IsPrimaryPress() ==> r == s
    decreases |ts|
  {
    if ts == [] then s
    else
      var t := ts[|ts| - 1];
      Press(PressEach(s, e, ts[..|ts| - 1]), e, t.insertionIndex, t.start, t.limit)
  }

  /** One more layer reached by a press: the fold takes one more step. */
  lemma PressEachSnoc(s: PointerState, e: MouseEvent, ts: seq<LayerTarget>, t: LayerTarget)
    ensures PressEach(s, e, ts + [t]) == Press(PressEach(s, e, ts), e, t.insertionIndex, t.start, t.limit)
  {
    assert (ts + [t])[..|ts|] == ts;
  }

  /** ParagraphTile.mouseDraggedListener on values: the drag is handed to each layer
      containing the point, in layer order. */
  function DragEach(s: PointerState, ts: seq<LayerTarget>): (r: PointerState)
    ensures (forall t :: t in ts ==> t.insertionIndex < 0) ==> r == s
    ensures r.mouseDragStart == s.mouseDragStart && r.calls == s.calls
    decreases |ts|
  {
    if ts == [] then s
    else
      var t := ts[|ts| - 1];
      Drag(DragEach(s, ts[..|ts| - 1]), t.insertionIndex, t.start)
  }

  /** However many layers a press reaches, the caret stays where it was or lands inside
      the caret range [start, limit) of one of them. */
  lemma {:induction false} PressEachKeepsCaretInLayers(s: PointerState, e: MouseEvent, ts: seq<LayerTarget>)
    requires forall t :: t in ts ==> t.start < t.limit
    ensures var r := PressEach(s, e, ts);
      r.caretPosition == s.caretPosition || exists t :: t in ts && t.start <= r.caretPosition < t.limit
    decreases |ts|
  {
    if ts != [] {
      var prefix := ts[..|ts| - 1];
      var t := ts[|ts| - 1];
      assert forall u :: u in prefix ==> u in ts;
      PressEachKeepsCaretInLayers(s, e, prefix);
      PressKeepsCaretInLayer(PressEach(s, e, prefix), e, t.insertionIndex, t.start, t.limit);
    }
  }

  /** When several layers get a drag, the last one that hit-tests it decides: the
      result is that layer's drag alone, and the layers after it change nothing. */
  lemma {:induction false} DragEachIsLastDrag(s: PointerState, ts: seq<LayerTarget>, k: int)
    requires 0 <= k < |ts| && ts[k].insertionIndex >= 0
    requires forall j :: k < j < |ts| ==> ts[j].insertionIndex < 0
    ensures DragEach(s, ts) == Drag(s, ts[k].insertionIndex, ts[k].start)
    decreases |ts|
  {
    var prefix := ts[..|ts| - 1];
    if k == |ts| - 1 {
      var p := DragEach(s, prefix);
      assert p.mouseDragStart == s.mouseDragStart && p.calls == s.calls;
    } else {
      DragEachIsLastDrag(s, prefix, k);
    }
  }

  /** Whether a layer [start, end) draws a caret at global offset cp (given that the
      text layout returns a shape for it). */
  predicate CaretShown(focused: bool, editable: bool, paragraph: Option<Paragraph>,
                       lastParagraph: Option<Paragraph>, start: int, end: int, cp: int): (shown: bool)
    // only a focused, editable control with a paragraph shows a caret, and only in the layer
    ensures shown ==> focused && editable && paragraph.Some? && 0 <= cp && start <= cp <= end
    // the slot at the layer's end is used only in the document's last paragraph
    ensures shown && cp == end ==> lastParagraph == paragraph
  {
    focused && paragraph.Some? &&
    start <= cp < ParagraphLimit(end, paragraph.value, lastParagraph) &&
    cp >= 0 && editable
  }

  /** The caret slot at a layer's end exists only in the document's last paragraph. */
  lemma CaretAtEndOnlyInLastParagraph(focused: bool, editable: bool, paragraph: Paragraph,
                                      lastParagraph: Option<Paragraph>, start: int, end: int)
    requires focused && editable && 0 <= start <= end
    ensures CaretShown(focused, editable, Some(paragraph), lastParagraph, start, end, end)
            <==> lastParagraph == Some(paragraph)
  {
  }

  /** In a table that is the last paragraph every cell gets the extra slot, so a caret at
      the boundary between two adjacent cells is shown in both of them. */
  lemma CaretShownInBothCellsAtBoundaryOfLastTable(paragraph: Paragraph, a: int, b: int, c: int)
    requires 0 <= a <= b <= c
    ensures CaretShown(true, true, Some(paragraph), Some(paragraph), a, b, b)
    ensures CaretShown(true, true, Some(paragraph), Some(paragraph), b, c, b)
  {
  }

  /** Outside the document's last paragraph, adjacent cells never both show a caret. */
  lemma CaretInAtMostOneCellOutsideLastParagraph(focused: bool, editable: bool, paragraph: Paragraph,
                                                 lastParagraph: Option<Paragraph>, a: int, b: int, c: int, cp: int)
    requires lastParagraph != Some(paragraph) && a <= b <= c
    ensures !(CaretShown(focused, editable, Some(paragraph), lastParagraph, a, b, cp) &&
              CaretShown(focused, editable, Some(paragraph), lastParagraph, b, c, cp))
  {
  }

  /** The path of a range, as the set of layer-relative offsets it covers. */
  function RangeShape(lo: int, hi: int): (shape: set<int>)
    ensures forall i :: i in shape <==> lo <= i < hi
    decreases hi - lo
  {
    if lo >= hi then {} else {lo} + RangeShape(lo + 1, hi)
  }

  /** Layer.updateSelection on values: the selection path for the part of the selection
      inside the layer, in layer-relative offsets. */
  function SelectionShape(start: int, end: int, selection: Selection): (shape: set<int>)
    // exactly the layer's characters that the selection covers
    ensures forall i :: i in shape <==>
      selection.Range? && start <= start + i < end && selection.start <= start + i < selection.end
  {
    if selection.IsDefined() && !(start > selection.end || end <= selection.start) then
      RangeShape(Max(start, selection.start) - start, Min(end, selection.end) - start)
    else {}
  }

  /** A selection that does not overlap the layer leaves its selection path empty. */
  lemma DisjointSelectionHasNoShape(start: int, end: int, selection: Selection)
    requires selection.Range? && (selection.end <= start || end <= selection.start)
    ensures SelectionShape(start, end, selection) == {}
  {
    if i :| i in SelectionShape(start, end, selection) {
      assert false;
    }
  }
}
