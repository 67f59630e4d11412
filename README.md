# Paragraph tiles and edit commands of a rich-text area, in Dafny

This project models three parts of a JavaFX rich-text editing widget:

- **The paragraph tile.** A `ParagraphTile` draws one paragraph of the document. It
  holds one `Layer` for a plain paragraph, or one layer per cell for a table paragraph.
  Each layer covers a half-open range `[start, end)` of global document offsets. It
  turns pointer presses and drags into caret, selection and drag-start updates. It also
  draws the caret, the selection and background highlights, and evicts cached fonts
  and images its text does not use. Beside the text, a graphic box holds the list
  bullet or number. A numbered label's `#` is replaced by the paragraph's ordinal at
  its indentation level.
- **`DecorateCmd`.** This reversible command either decorates the document, or stages
  a decoration at the caret and remembers the one it replaced so that undo can
  restore it.
- **`ActionCmdCut`.** The cut action, with its enablement predicate.

The state the source changes in place is kept in classes:

- the view-model: selection, caret, decoration at caret, the editable flag and the
  paragraph list;
- the skin: drag start, last valid caret position, the font and image caches and the
  context-menu flag;
- the command with its `prevDecoration`;
- the layer with its fragments, paths, caret blink timer and preferred width;
- the tile with its layers, grid cells and graphic box.

Each method is proved against a pure function or predicate on values, and the
properties are proved about those functions as lemmas. The modules are:

- `EditorTypes`: the shared values.
- `ViewModel`: the view-model class, plus a log of the calls it receives.
- `DecorateCommand` and `CutCommand`: the two commands.
- `TileOffsets`: the paragraph limit, presses and drags, caret visibility and the
  selection sub-range.
- `TileTable`: the table cell partition.
- `TileMarkers`: list ordinals and graphic box widths.
- `TileResources`: cache eviction and background paths grouped by colour.
- `Tile`: the `Layer` and `ParagraphTile` classes.

The text layout engine becomes plain inputs:

- Hit-testing becomes the insertion index passed to a layer's press or drag. At the
  tile, it is one optional index per layer. The index is present when that layer's
  layout bounds contain the point.
- `TextFlow.caretShape` and the next-row hit test become the functions of a
  `TextLayout` value, which the tile's layout engine (`textLayout`) gives for a
  layer's fragments.
- `TextFlow.rangeShape` becomes the set of layer-relative offsets `[lo, hi)`.
- `Shape.union` becomes set union.
- Font measurement becomes the tile's `stringWidth` function.

The view-model operations whose code is not part of this model are `decorate`,
`undoDecoration`, `clipboardCopy`, `selectCurrentWord` and `selectCurrentParagraph`.
Each call to one of them is appended to the view-model's `calls` log and has no other
effect.

Behaviours of the code that the model keeps, and that the lemmas make visible:

- **Shift-click anchor.** The anchor is the selection's `end` when the click lands
  before its `start`, and otherwise its `start`. A click inside the selection keeps
  `start` as the anchor.
- **Undo.** `doUndo` calls `undoDecoration` every time, whether or not a text
  decoration was staged.
- **Eviction sweep.** Eviction runs layer by layer, so a sweep over a tile keeps only
  the cached values that every layer of the tile uses.
- **Drag offsets.** A drag's offset is `start + index`, unclamped.
- **Timer.** A valid caret sets the blink timer running with `play()`, which leaves a
  running timer in its current phase.
- **Last-paragraph table.** When a table is the document's last paragraph, every cell
  gets the extra caret slot after its end. So a caret on the boundary between two
  cells is shown in both of them (`CaretShownInBothCellsAtBoundaryOfLastTable`).
- **Several layers under the pointer.** The tile hands a press or a drag to every
  layer whose layout bounds contain the point, in layer order. For a drag, the last
  of them decides (`DragEachIsLastDrag`).
- **Empty layer.** A plain click in an empty layer that is not the document's last
  paragraph puts the caret at `start - 1` (`PlainClickInEmptyLayerLandsBeforeIt`).

## Model

| member | source | states |
|---|---|---|
| DecorateCommand.Redo | src/main/java/com/gluonhq/richtext/viewmodel/DecorateCmd.java:20-27 | a defined selection, an image or a paragraph decoration decorates the document once and leaves the remembered and the caret decoration alone; otherwise the caret decoration is remembered and the new one is staged, with no document call |
| DecorateCommand.Undo | src/main/java/com/gluonhq/richtext/viewmodel/DecorateCmd.java:30-35 | the caret decoration is restored only from a remembered text decoration, and undoDecoration is called exactly once on either path |
| DecorateCommand.StagedRoundTripRestoresTextDecoration | src/main/java/com/gluonhq/richtext/viewmodel/DecorateCmd.java:23-34 | staging over a text decoration and then undoing gives back the original state, except for the one undoDecoration call |
| DecorateCommand.StagedRoundTripKeepsNewDecoration | src/main/java/com/gluonhq/richtext/viewmodel/DecorateCmd.java:31-33 | staging over a non-text or absent decoration and then undoing leaves the new decoration staged |
| DecorateCommand.DocumentRoundTrip | src/main/java/com/gluonhq/richtext/viewmodel/DecorateCmd.java:20-35 | on the document path, redo then undo issues decorate and then undoDecoration, and changes nothing else |
| DecorateCommand.DecorateCmd.constructor | src/main/java/com/gluonhq/richtext/viewmodel/DecorateCmd.java:12-17 | the decoration is fixed at construction, and nothing is remembered yet |
| DecorateCommand.DecorateCmd.DoRedo | src/main/java/com/gluonhq/richtext/viewmodel/DecorateCmd.java:20-27 | the remembered decoration and the new view-model state are those of Redo; a non-null view-model is required |
| DecorateCommand.DecorateCmd.DoUndo | src/main/java/com/gluonhq/richtext/viewmodel/DecorateCmd.java:30-35 | the new view-model state is that of Undo; a non-null view-model is required |
| CutCommand.Cut | src/main/java/com/gluonhq/richtext/viewmodel/ActionCmdCut.java:8-12 | a non-editable view-model is left unchanged; an editable one gets exactly one clipboardCopy(true) and nothing else changes |
| CutCommand.EnabledCutCuts | src/main/java/com/gluonhq/richtext/viewmodel/ActionCmdCut.java:8-17 | whenever the command is enabled, applying it performs the cut |
| CutCommand.CutIgnoresSelection | src/main/java/com/gluonhq/richtext/viewmodel/ActionCmdCut.java:8-17 | apply does not look at the selection: on an editable view-model with no selection the command is disabled, yet apply still cuts |
| CutCommand.ActionCmdCut.Apply | src/main/java/com/gluonhq/richtext/viewmodel/ActionCmdCut.java:8-12 | the new view-model state is that of Cut |
| CutCommand.ActionCmdCut.GetDisabledBinding | src/main/java/com/gluonhq/richtext/viewmodel/ActionCmdCut.java:15-17 | disabled exactly when there is no selection or the view-model is not editable |
| TileOffsets.ParagraphLimit | src/main/java/com/gluonhq/richtextarea/ParagraphTile.java:486-494 | the limit is end or end + 1, and it is end + 1 exactly when the paragraph is the document's last |
| TileOffsets.GlobalInsertionIndex | src/main/java/com/gluonhq/richtextarea/ParagraphTile.java:357-359 | the clamped press offset is below the limit and never past start + index; it is at least start when the index is non-negative and the layer has a slot |
| TileOffsets.ShiftClickAnchor | src/main/java/com/gluonhq/richtextarea/ParagraphTile.java:370-373 | the anchor is the selection's end for a click before its start, its start otherwise, and the previous caret without a selection |
| TileOffsets.Press | src/main/java/com/gluonhq/richtextarea/ParagraphTile.java:351-377 | not a plain primary press, or a negative index, changes nothing; otherwise, by click count and modifier keys: the caret, word or paragraph selection, drag start and cleared selection, or the shift-click selection between the anchor and the click (ends in order), and any other modifier changes nothing |
| TileOffsets.Drag | src/main/java/com/gluonhq/richtextarea/ParagraphTile.java:386-394 | a negative index changes nothing; otherwise the selection runs between the recorded drag start and start + index (ends in order), where the caret goes |
| TileOffsets.PressKeepsCaretInLayer | src/main/java/com/gluonhq/richtextarea/ParagraphTile.java:356-376 | a press leaves the caret where it was or moves it into [start, limit) |
| TileOffsets.PlainClickInEmptyLayerLandsBeforeIt | src/main/java/com/gluonhq/richtextarea/ParagraphTile.java:357-361 | in an empty layer that is not the last paragraph (start == limit), a plain click puts the caret at start - 1 |
| TileOffsets.ShiftClickExtendsSelection | src/main/java/com/gluonhq/richtextarea/ParagraphTile.java:370-375 | a shift-click before the selection extends it back to the click and keeps its end; one at or after its start keeps the start and moves the other end to the click; a click at a negative offset leaves no selection |
| TileOffsets.PressKeepsSelectionWellFormed | src/main/java/com/gluonhq/richtextarea/ParagraphTile.java:351-384 | a press keeps every defined selection inside the document with its ends in order (0 <= start <= end) |
| TileOffsets.DragKeepsSelectionWellFormed | src/main/java/com/gluonhq/richtextarea/ParagraphTile.java:386-394 | so does a drag |
| TileOffsets.PressEach | src/main/java/com/gluonhq/richtextarea/ParagraphTile.java:226-235 | a tile press handed to no layer, or one that is not a plain primary press, changes nothing |
| TileOffsets.DragEach | src/main/java/com/gluonhq/richtextarea/ParagraphTile.java:237-243 | a tile drag keeps the drag start and the calls, and changes nothing when no layer hit-tests it |
| TileOffsets.PressEachKeepsCaretInLayers | src/main/java/com/gluonhq/richtextarea/ParagraphTile.java:226-235 | however many layers get a press, the caret stays or lands inside one of their caret ranges |
| TileOffsets.DragEachIsLastDrag | src/main/java/com/gluonhq/richtextarea/ParagraphTile.java:237-243 | when several layers get a drag, the last layer that hit-tests it decides alone; the layers after it change nothing (with DragEach: no hit at all changes nothing) |
| TileOffsets.ClickThenDragSelectsFromClick | src/main/java/com/gluonhq/richtextarea/ParagraphTile.java:360-392 | a single plain click and then a drag select between the clicked offset and the dragged-to offset, whatever the earlier selection |
| TileOffsets.CaretAtEndOnlyInLastParagraph | src/main/java/com/gluonhq/richtextarea/ParagraphTile.java:486-494 | a caret at a layer's end is shown exactly when the paragraph is the document's last |
| TileOffsets.CaretShownInBothCellsAtBoundaryOfLastTable | src/main/java/com/gluonhq/richtextarea/ParagraphTile.java:456-494 | in a last-paragraph table, a caret on the boundary of two adjacent cells is shown in both |
| TileOffsets.CaretInAtMostOneCellOutsideLastParagraph | src/main/java/com/gluonhq/richtextarea/ParagraphTile.java:456-461 | outside the last paragraph, two adjacent cells never both show the caret |
| TileOffsets.CaretShown | src/main/java/com/gluonhq/richtextarea/ParagraphTile.java:456-494 | a caret is shown only on a focused, editable control with a paragraph, at an offset 0 <= cp within [start, end], and at end only in the last paragraph |
| TileOffsets.SelectionShape | src/main/java/com/gluonhq/richtextarea/ParagraphTile.java:504-516 | the selection path covers exactly the layer's characters that the selection covers, as layer-relative offsets |
| TileOffsets.DisjointSelectionHasNoShape | src/main/java/com/gluonhq/richtextarea/ParagraphTile.java:506 | a selection that does not overlap the layer leaves its path empty |
| TileTable.CellFragments | src/main/java/com/gluonhq/richtextarea/ParagraphTile.java:143-148 | a fragment is in cell [lo, hi) exactly when its table marker (-1 when missing) lies in [lo, hi) |
| TileTable.CellFragmentsAppend | src/main/java/com/gluonhq/richtextarea/ParagraphTile.java:143-148 | a cell keeps its fragments in document order: filtering a concatenation is the concatenation of the filtered parts |
| TileTable.CellFragmentsSingle | src/main/java/com/gluonhq/richtextarea/ParagraphTile.java:144-146 | one fragment is kept exactly when its marker lies in the cell's range |
| TileTable.CellCount | src/main/java/com/gluonhq/richtextarea/ParagraphTile.java:134-139 | the grid has min(rows * columns, positions - 1) cells, and none when rows or columns are not positive |
| TileTable.AtMostOneCell | src/main/java/com/gluonhq/richtextarea/ParagraphTile.java:143-148 | with non-decreasing positions, a fragment belongs to at most one cell |
| TileTable.SomeCell | src/main/java/com/gluonhq/richtextarea/ParagraphTile.java:143-148 | with non-decreasing positions, a fragment whose marker lies between the first and last position belongs to some cell |
| TileTable.MalformedMarkerInNoCell | src/main/java/com/gluonhq/richtextarea/ParagraphTile.java:145-146 | a fragment whose marker lies outside the position list, or that has none, belongs to no cell |
| TileMarkers.Counter | src/main/java/com/gluonhq/richtextarea/ParagraphTile.java:192-201 | the running ordinal never exceeds the number of paragraphs scanned |
| TileMarkers.CounterWithoutBullets | src/main/java/com/gluonhq/richtextarea/ParagraphTile.java:192-201 | without a bulleted paragraph at the level, the ordinal counts every paragraph at that level |
| TileMarkers.CounterRestartsAfterBullet | src/main/java/com/gluonhq/richtextarea/ParagraphTile.java:195-197 | a bulleted paragraph at the level restarts the numbering, whatever came before it |
| TileMarkers.CounterSkipsOtherLevels | src/main/java/com/gluonhq/richtextarea/ParagraphTile.java:193 | paragraphs at other levels do not move the ordinal |
| TileMarkers.NumberingExample | src/main/java/com/gluonhq/richtextarea/ParagraphTile.java:190-205 | three numbered items are numbered 1, 2, 3, and a bullet between the first two makes the second 1 again |
| TileMarkers.FirstIndex | src/main/java/com/gluonhq/richtextarea/ParagraphTile.java:202-203 | the scan stops at the first paragraph equal to the target |
| TileMarkers.ListOrdinal | src/main/java/com/gluonhq/richtextarea/ParagraphTile.java:190-205 | there is an ordinal exactly when the target is in the list, and it is at most the target's position plus one |
| TileMarkers.ComputeOrdinal | src/main/java/com/gluonhq/richtextarea/ParagraphTile.java:190-205 | the counting scan returns ListOrdinal: the counter after the target's first occurrence, or none when the target is absent |
| TileMarkers.DecimalString | src/main/java/com/gluonhq/richtextarea/ParagraphTile.java:205 | the ordinal's text is a non-empty string of decimal digits with no leading zero (only 0 starts with '0') |
| TileMarkers.DecimalRoundTrip | src/main/java/com/gluonhq/richtextarea/ParagraphTile.java:205 | reading the ordinal's text back gives the ordinal |
| TileMarkers.ReplaceAll | src/main/java/com/gluonhq/richtextarea/ParagraphTile.java:205 | the text is unchanged without the pattern; otherwise no occurrence is left (when the replacement lacks it), and every character comes from the text or the replacement |
| TileMarkers.ReplaceAllChar | src/main/java/com/gluonhq/richtextarea/ParagraphTile.java:205 | one character: the pattern becomes the replacement, any other character stays |
| TileMarkers.ReplaceAllAppend | src/main/java/com/gluonhq/richtextarea/ParagraphTile.java:205 | replacement works piece by piece and keeps the text in order |
| TileMarkers.SingleOccurrenceReplaced | src/main/java/com/gluonhq/richtextarea/ParagraphTile.java:205 | with one occurrence at k, the result is the text before k, the replacement, then the text after k |
| TileMarkers.ResolvedLabelText | src/main/java/com/gluonhq/richtextarea/ParagraphTile.java:190-206 | with an ordinal, every '#' becomes its decimal digits (String.replace); without an ordinal or a '#', the text is unchanged |
| TileMarkers.PlaceholderShowsOrdinal | src/main/java/com/gluonhq/richtextarea/ParagraphTile.java:190-206 | a label with one '#' at k shows the text before k, the ordinal's digits, then the rest; those digits read back as the ordinal |
| TileMarkers.ResolvedNode | src/main/java/com/gluonhq/richtextarea/ParagraphTile.java:186-217 | a label with text shows its resolved text (no '#' left once an ordinal is found); a label without text and any other node are shown as the factory made them |
| TileMarkers.SpanPrefWidth | src/main/java/com/gluonhq/richtextarea/ParagraphTile.java:175 | the span is the larger of 0 and 20 per level, one level fewer when there is a graphic |
| TileMarkers.NodePrefWidth | src/main/java/com/gluonhq/richtextarea/ParagraphTile.java:185-217 | a label without text takes no width; a label with text takes the larger of its measured width plus 1 and 20; any other node the larger of its preferred width and 20 |
| TileMarkers.GraphicBoxWidth | src/main/java/com/gluonhq/richtextarea/ParagraphTile.java:175-220 | the box is the indentation span alone without a graphic, and the shorter span plus the node's width with one |
| TileMarkers.GraphicBoxCoversIndentation | src/main/java/com/gluonhq/richtextarea/ParagraphTile.java:175-222 | the graphic box is never narrower than 20 per level, and a box with a graphic is at least 20 wide, except for a label without text |
| TileResources.Evict | src/main/java/com/gluonhq/richtextarea/ParagraphTile.java:396-416 | after a layer's eviction, an entry remains exactly when the layer uses its value, and it remains unchanged |
| TileResources.SweepAllSnoc | src/main/java/com/gluonhq/richtextarea/ParagraphTile.java:245-247 | sweeping one more layer is one more eviction on the result so far |
| TileResources.SweepKeepsValuesUsedByEveryLayer | src/main/java/com/gluonhq/richtextarea/ParagraphTile.java:245-247 | a sweep over layers keeps exactly the entries whose value every swept layer uses, unchanged |
| TileResources.SweepEvictsValueMissingFromOneLayer | src/main/java/com/gluonhq/richtextarea/ParagraphTile.java:245-247 | a value that one swept layer does not use is evicted |
| TileResources.GroupByColor | src/main/java/com/gluonhq/richtextarea/ParagraphTile.java:333-346 | the fill-to-path map has exactly one key per colour requested |
| TileResources.GroupedRegionIsUnion | src/main/java/com/gluonhq/richtextarea/ParagraphTile.java:333-346 | the path of a colour covers exactly the union of the ranges with that colour |
| TileResources.BackgroundPaths | src/main/java/com/gluonhq/richtextarea/ParagraphTile.java:333-348 | one background path per colour, with the grouped region |
| TileResources.SameColourRangesMerge | src/main/java/com/gluonhq/richtextarea/ParagraphTile.java:342-346 | two ranges of one colour give a single path covering both |
| Tile.FirstFontSize | src/main/java/com/gluonhq/richtextarea/ParagraphTile.java:427-434 | the label font's size is that of the first text node's font (12 when it has none), and 12 when there is no text node |
| Tile.Layer.constructor | src/main/java/com/gluonhq/richtextarea/ParagraphTile.java:294-310 | a new layer covers [start, end), with no content, no paths and a stopped timer |
| Tile.Layer.Limit | src/main/java/com/gluonhq/richtextarea/ParagraphTile.java:486-494 | the layer's limit is ParagraphLimit for the tile's paragraph and the skin's last paragraph |
| Tile.Layer.SetContent | src/main/java/com/gluonhq/richtextarea/ParagraphTile.java:317-326 | the text flow holds the fragments, and the background paths are those of the ranges |
| Tile.Layer.Reset | src/main/java/com/gluonhq/richtextarea/ParagraphTile.java:328-330 | the caret timer is stopped |
| Tile.Layer.AddBackgroundPathsToLayers | src/main/java/com/gluonhq/richtextarea/ParagraphTile.java:332-349 | after the removeIf/addAll, the layer's paths are exactly one per colour requested |
| Tile.Layer.MousePressedListener | src/main/java/com/gluonhq/richtextarea/ParagraphTile.java:351-384 | the view-model's selection, caret and calls and the drag start change as Press says for the layer's start and limit; the context menu is hidden |
| Tile.Layer.MouseDraggedListener | src/main/java/com/gluonhq/richtextarea/ParagraphTile.java:386-394 | the selection and caret change as Drag says |
| Tile.Layer.EvictUnusedObjects | src/main/java/com/gluonhq/richtextarea/ParagraphTile.java:396-416 | each cache becomes Evict of itself by the values the layer's fragments use |
| Tile.Layer.GetNextRowPosition | src/main/java/com/gluonhq/richtextarea/ParagraphTile.java:436-446 | the answer is the layer's start plus the index the layout hits from the current caret path |
| Tile.Layer.UpdatePrefWidth | src/main/java/com/gluonhq/richtextarea/ParagraphTile.java:448-450 | the text flow's preferred width is set |
| Tile.Layer.UpdateCaretPosition | src/main/java/com/gluonhq/richtextarea/ParagraphTile.java:456-494 | the caret path is the layout's exactly when the layer shows the caret (focused, a paragraph, start <= cp < limit, cp >= 0, editable), and is empty otherwise; the timer is stopped when the caret is not shown and runs once one is drawn; the last valid caret position is updated only when a path is drawn |
| Tile.Layer.SetCaretVisibility | src/main/java/com/gluonhq/richtextarea/ParagraphTile.java:496-502 | only a drawn caret changes opacity, to 1 or 0 |
| Tile.Layer.UpdateSelection | src/main/java/com/gluonhq/richtextarea/ParagraphTile.java:504-516 | the selection path is SelectionShape: exactly the selected characters of the layer |
| Tile.ParagraphTile.constructor | src/main/java/com/gluonhq/richtextarea/ParagraphTile.java:75-91 | a new tile has no paragraph, no layers and an empty graphic box, and registers no listeners |
| Tile.ParagraphTile.ResolvedGraphic | src/main/java/com/gluonhq/richtextarea/ParagraphTile.java:168-206 | without a factory there is no graphic; otherwise it is the factory's node with the label resolved |
| Tile.ParagraphTile.LabelTextWidth | src/main/java/com/gluonhq/richtextarea/ParagraphTile.java:208-210 | a label's text is measured in the font of the layer's first text node; other nodes are not measured |
| Tile.ParagraphTile.SetParagraph | src/main/java/com/gluonhq/richtextarea/ParagraphTile.java:93-121 | the old layers' timers are stopped; no paragraph gives an empty tile and no listeners; a table gives one fresh cell layer per position pair, row-major (none without fragments); any other paragraph gives one fresh layer with all fragments, no caret or selection and a stopped timer, beside the resolved graphic box; the grid is empty and the box width unchanged where they are not built |
| Tile.ParagraphTile.ResetLayers | src/main/java/com/gluonhq/richtextarea/ParagraphTile.java:94 | only the layers' timers change, and every one of them is stopped |
| Tile.ParagraphTile.CreateGridBox | src/main/java/com/gluonhq/richtextarea/ParagraphTile.java:123-166 | CellCount layers are appended; cell k spans [positions[k], positions[k+1]), holds exactly the fragments marked in that range, is 100 wide and sits at row k / columns, column k mod columns |
| Tile.ParagraphTile.AddCell | src/main/java/com/gluonhq/richtextarea/ParagraphTile.java:140-157 | one fresh cell layer for the given positions is appended and placed |
| Tile.ParagraphTile.UpdateGraphicBox | src/main/java/com/gluonhq/richtextarea/ParagraphTile.java:168-224 | the resolved graphic (if any) is added to the box; the box is GraphicBoxWidth wide and the layer's text gets the rest of the skin's width |
| Tile.ParagraphTile.MousePressedListener | src/main/java/com/gluonhq/richtextarea/ParagraphTile.java:226-235 | a disabled control changes nothing; otherwise each layer whose bounds contain the point handles the press in layer order (PressEach), and any such layer hides the context menu |
| Tile.ParagraphTile.MouseDraggedListener | src/main/java/com/gluonhq/richtextarea/ParagraphTile.java:237-243 | each layer whose bounds contain the point handles the drag in layer order (DragEach), even on a disabled control |
| Tile.ParagraphTile.EvictUnusedObjects | src/main/java/com/gluonhq/richtextarea/ParagraphTile.java:245-247 | each cache becomes the sweep (SweepAll) of itself over the layers' used values, in layer order |
| Tile.ParagraphTile.UpdateLayout | src/main/java/com/gluonhq/richtextarea/ParagraphTile.java:249-257 | only the layers' selection and caret paths, their timers and the last valid caret position change; every layer redraws its selection and its caret for the view-model's current state; the skin records the caret position exactly when some layer draws it |
| Tile.ParagraphTile.UpdateLayer | src/main/java/com/gluonhq/richtextarea/ParagraphTile.java:253-256 | one layer redraws its selection and then its caret, and the skin records the position when the caret is drawn |
| Tile.ParagraphTile.GetNextRowPosition | src/main/java/com/gluonhq/richtextarea/ParagraphTile.java:263-268 | 0 without layers, otherwise the first layer's answer |
| Tile.ParagraphTile.UpdateCaretPosition | src/main/java/com/gluonhq/richtextarea/ParagraphTile.java:259-272 | every layer redraws its caret; the tile has a caret (hasCaret) only if some layer shows the position, and then the skin records it as the last valid one |
| Tile.ParagraphTile.UpdateSelection | src/main/java/com/gluonhq/richtextarea/ParagraphTile.java:274-276 | only the layers' selection paths change, each to SelectionShape of the new selection |

## Left out

- JavaFX geometry is not modelled. This covers hit-testing, layout bounds, path
  coordinates, `translateY` centring, the caret's y position, insets, text alignment,
  line spacing, column and row constraints, the grid box's alignment and preferred
  sizes, and `contentPane.setPrefWidth(0)` for an empty tile. These become inputs or
  uninterpreted functions (see above), or are dropped.
- Tile.Layer.UpdateCaretPosition: does not model the extension of a caret shorter
  than 5 pixels down to y = 16. The drawn path is the layout's path as given.
- The caret blink `Timeline` is a running flag. `SetCaretVisibility` is the effect of
  one of its key frames; the schedule itself is not modelled.
- Listener registration is a `listening` flag. Re-entrant change notifications are
  not modelled, and neither are `requestFocus`, event consumption or the layer's
  child-ordering listener (`updateLayer`).
- `Paint` is an ARGB value and a font is a family and size. Font measurement is the
  tile's `stringWidth`. A text node without a font is measured as size 12. In JavaFX
  a text node always has a font.
- The graphic factory returns either a label (with optional text) or another node,
  given by its preferred width.
- `DecorateCmd`'s selection is set by its constructor here. In the source it is a
  field of `AbstractEditCmd`, which is not part of this model.
- `decorate`, `undoDecoration`, `clipboardCopy`, `selectCurrentWord` and
  `selectCurrentParagraph` are recorded calls with no other effect. Their code is not
  part of this model.
- The `Selection` class is not part of this model. `new Selection(a, b)` is modelled
  by `EditorTypes.NewSelection`. It gives UNDEFINED when either offset is negative,
  and otherwise puts the smaller end first, so every defined selection has
  0 <= start <= end. Under that reading, a backward shift-click or drag still draws
  its selection. A selection is never null, so the `selection != null` test in
  `updateSelection` always holds.
- The control and the view-model are non-null references, so the
  `control == null || viewModel == null` guard in `updateLayout` is dropped.
- Integers are unbounded. Java's 32-bit overflow of `start + insertionIndex`,
  `index + 1` and `rows * columns` is not modelled.
- Java object identity is not modelled: background paths and graphic nodes are
  values. In particular, `removeIf` on the old paths is modelled as keeping only
  paths equal to a new one.
- `Tile.ParagraphTile.HasCaret` and `Tile.Layer.HasCaret` carry no contract of their
  own. What they mean after a caret move is stated by
  `Tile.ParagraphTile.UpdateCaretPosition` and `Tile.ParagraphTile.UpdateLayout`.
- `Tile.ParagraphTile.Targets` (the layers containing a pointer event) is a helper
  with no contract. Which layers contain the point is an input, one optional
  insertion index per layer.
