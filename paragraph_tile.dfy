/** ParagraphTile: the view of one paragraph, made of one layer (or one layer per table
    cell) that draws the paragraph's text, its background highlights, the selection and
    the caret, plus a graphic box for list bullets and numbers. */
module Tile {
  import opened EditorTypes
  import opened ViewModel
  import opened TileOffsets
  import opened TileTable
  import opened TileMarkers
  import opened TileResources

  /** What the text layout engine answers for a laid-out list of fragments: the caret
      path at a layer-relative offset, and the insertion index hit one row above or below
      the given caret path (or at column x). */
  datatype TextLayout = TextLayout(
    caretShape: int -> seq<PathElement>,
    nextRowHit: (seq<PathElement>, real, bool) -> int)

  /** The part of the RichTextArea control a tile reads. */
  class RichTextArea {
    var focused: bool
    var editable: bool
    var disabled: bool
    var paragraphGraphicFactory: Option<(int, GraphicType) -> Option<GraphicNode>>
  }

  /** The part of RichTextAreaSkin a tile reads and writes. */
  class RichTextAreaSkin {
    var mouseDragStart: int
    var lastValidCaretPosition: int
    var lastParagraph: Option<Paragraph>
    var fontCache: map<string, Font>
    var imageCache: map<string, Image>
    var textFlowPrefWidth: real
    var contextMenuShowing: bool
  }

  /** The size of a text node's font, 12 when it has none. */
  function FontSize(n: Node): int
    requires n.TextNode?
  {
    if n.font.Some? then n.font.value.size else 12
  }

  /** fragments[k] is the first text node of the fragments. */
  predicate FirstTextNodeAt(fragments: seq<Node>, k: int) {
    0 <= k < |fragments| && fragments[k].TextNode? && forall j :: 0 <= j < k ==> !fragments[j].TextNode?
  }

  /** The size of the font a layer measures its list label with: that of its first text
      node, 12 when there is none. */
  function FirstFontSize(fragments: seq<Node>): (size: int)
    ensures (forall n :: n in fragments ==> !n.TextNode?) ==> size == 12
    // given the first text node, the size of its font
    ensures forall k :: FirstTextNodeAt(fragments, k) ==> size == FontSize(fragments[k])
  {
    if fragments == [] then 12
    else if fragments[0].TextNode? then FontSize(fragments[0])
    else FirstFontSize(fragments[1..])
  }

  /** The fonts each layer uses, in layer order. */
  function FontUses(ls: seq<Layer>): (r: seq<set<Font>>)
    reads set l | l in ls
    ensures |r| == |ls|
    ensures forall i :: 0 <= i < |ls| ==> r[i] == UsedFonts(ls[i].fragments)
  {
    if ls == [] then [] else [UsedFonts(ls[0].fragments)] + FontUses(ls[1..])
  }

  /** The images each layer uses, in layer order. */
  function ImageUses(ls: seq<Layer>): (r: seq<set<Image>>)
    reads set l | l in ls
    ensures |r| == |ls|
    ensures forall i :: 0 <= i < |ls| ==> r[i] == UsedImages(ls[i].fragments)
  {
    if ls == [] then [] else [UsedImages(ls[0].fragments)] + ImageUses(ls[1..])
  }

  /** Layer l has redrawn its caret for global offset cp: the layout's caret path when
      the layer shows the caret, none (and the blink timer stopped) otherwise. */
  ghost predicate CaretRedrawn(l: Layer, cp: int)
    reads l`caretShape, l`caretTimelineRunning, l`fragments
    reads l.owner`paragraph, l.owner.control`focused, l.owner.control`editable, l.owner.skin`lastParagraph
  {
    l.caretShape == (if l.Shown(cp) then l.Layout().caretShape(cp - l.start) else []) &&
    (!l.Shown(cp) ==> !l.caretTimelineRunning)
  }

  /** Layer l has redrawn its selection path for the given selection. */
  ghost predicate SelectionRedrawn(l: Layer, selection: Selection)
    reads l`selectionShape
  {
    l.selectionShape == SelectionShape(l.start, l.end, selection)
  }

  /** Layer l has redrawn both its selection and its caret. */
  ghost predicate LayerRedrawn(l: Layer, selection: Selection, cp: int)
    reads l`selectionShape, l`caretShape, l`caretTimelineRunning, l`fragments
    reads l.owner`paragraph, l.owner.control`focused, l.owner.control`editable, l.owner.skin`lastParagraph
  {
    SelectionRedrawn(l, selection) && CaretRedrawn(l, cp)
  }

  /** Layer l is the freshly built cell k of a table grid. */
  ghost predicate IsCell(l: Layer, k: int, fragments: seq<Node>, positions: seq<int>, background: seq<IndexRangeColor>)
    reads l
  {
    0 <= k && k + 1 < |positions| &&
    l.start == positions[k] && l.end == positions[k + 1] &&
    l.fragments == CellFragments(fragments, positions[k], positions[k + 1]) &&
    l.backgroundPaths == BackgroundPaths(background) &&
    l.prefWidth == 100.0 &&
    l.caretShape == [] && l.selectionShape == {} && !l.caretTimelineRunning
  }

  /** Grid cell (row, column) is the k-th cell in row-major order. */
  predicate IsPlacement(cell: (int, int), k: int, rows: int, columns: int) {
    0 <= cell.0 < rows && 0 <= cell.1 < columns && cell.0 * columns + cell.1 == k
  }

  class Layer {
    const owner: ParagraphTile
    const start: int
    const end: int
    /** The text flow's children. */
    var fragments: seq<Node>
    var backgroundPaths: set<BackgroundPath>
    var caretShape: seq<PathElement>
    /** The selection path, as the layer-relative offsets it covers. */
    var selectionShape: set<int>
    var caretTimelineRunning: bool
    var caretOpacity: real
    /** The text flow's preferred width. */
    var prefWidth: real

    constructor (owner: ParagraphTile, start: int, end: int)
      ensures this.owner == owner && this.start == start && this.end == end
      ensures fragments == [] && backgroundPaths == {}
      ensures caretShape == [] && selectionShape == {} && !caretTimelineRunning
    {
      this.owner := owner;
      this.start := start;
      this.end := end;
      fragments := [];
      backgroundPaths := {};
      caretShape := [];
      selectionShape := {};
      caretTimelineRunning := false;
      caretOpacity := 1.0;
      prefWidth := 0.0;
    }

    /** The layout of the current fragments. */
    function Layout(): TextLayout
      reads this`fragments
    {
      owner.textLayout(fragments)
    }

    /** getParagraphLimit: one past the last caret slot of the layer. */
    function Limit(): (limit: int)
      requires owner.paragraph.Some?
      reads owner`paragraph, owner.skin`lastParagraph
      ensures limit == ParagraphLimit(end, owner.paragraph.value, owner.skin.lastParagraph)
    {
      var limit := end;
      if owner.paragraph == owner.skin.lastParagraph then limit + 1 else limit
    }

    /** Whether the layer shows a caret at cp (when the layout gives it a shape). */
    predicate Shown(cp: int)
      reads owner`paragraph, owner.control`focused, owner.control`editable, owner.skin`lastParagraph
    {
      CaretShown(owner.control.focused, owner.control.editable, owner.paragraph,
                 owner.skin.lastParagraph, start, end, cp)
    }

    method SetContent(fragments: seq<Node>, background: seq<IndexRangeColor>)
      modifies this`fragments, this`backgroundPaths
      ensures this.fragments == fragments
      ensures backgroundPaths == BackgroundPaths(background)
    {
      this.fragments := fragments;
      AddBackgroundPathsToLayers(background);
    }

    method Reset()
      modifies this`caretTimelineRunning
      ensures !caretTimelineRunning
    {
      caretTimelineRunning := false;
    }

    /** Paths no longer in the new fill-to-path map are removed, the new ones added. */
    method AddBackgroundPathsToLayers(ranges: seq<IndexRangeColor>)
      modifies this`backgroundPaths
      ensures backgroundPaths == BackgroundPaths(ranges)
    {
      var fillPaths := BackgroundPaths(ranges);
      backgroundPaths := (set p | p in backgroundPaths && p in fillPaths) + fillPaths;
    }

    method MousePressedListener(e: MouseEvent, insertionIndex: int)
      requires owner.paragraph.Some?
      modifies owner.viewModel`selection, owner.viewModel`caretPosition, owner.viewModel`calls
      modifies owner.skin`mouseDragStart, owner.skin`contextMenuShowing
      ensures owner.Pointer() == Press(old(owner.Pointer()), e, insertionIndex, start, Limit())
      ensures !owner.skin.contextMenuShowing
    {
      var viewModel := owner.viewModel;
      var skin := owner.skin;
      if e.IsPrimaryPress() {
        var prevSelection := viewModel.selection;
        var prevCaretPosition := viewModel.caretPosition;
        if insertionIndex >= 0 {
          var globalInsertionIndex := Min(start + insertionIndex, Limit() - 1);
          if e.NoModifier() {
            viewModel.SetCaretPosition(globalInsertionIndex);
            if e.clickCount == 2 {
              viewModel.Record(SelectCurrentWord);
            } else if e.clickCount == 3 {
              viewModel.Record(SelectCurrentParagraph);
            } else {
              skin.mouseDragStart := globalInsertionIndex;
              viewModel.ClearSelection();
            }
          } else if e.IsShiftClick() {
            var pos := if prevSelection.IsDefined() then
                         (if globalInsertionIndex < prevSelection.start then prevSelection.end else prevSelection.start)
                       else prevCaretPosition;
            viewModel.SetSelection(NewSelection(pos, globalInsertionIndex));
            viewModel.SetCaretPosition(globalInsertionIndex);
          }
        }
      }
      if skin.contextMenuShowing {
        skin.contextMenuShowing := false;
      }
    }

    method MouseDraggedListener(insertionIndex: int)
      modifies owner.viewModel`selection, owner.viewModel`caretPosition
      ensures owner.Pointer() == Drag(old(owner.Pointer()), insertionIndex, start)
    {
      if insertionIndex >= 0 {
        var dragEnd := start + insertionIndex;
        owner.viewModel.SetSelection(NewSelection(owner.skin.mouseDragStart, dragEnd));
        owner.viewModel.SetCaretPosition(dragEnd);
      }
    }

    method EvictUnusedObjects()
      modifies owner.skin`fontCache, owner.skin`imageCache
      ensures owner.skin.fontCache == Evict(old(owner.skin.fontCache), UsedFonts(fragments))
      ensures owner.skin.imageCache == Evict(old(owner.skin.imageCache), UsedImages(fragments))
    {
      owner.skin.fontCache := Evict(owner.skin.fontCache, UsedFonts(fragments));
      owner.skin.imageCache := Evict(owner.skin.imageCache, UsedImages(fragments));
    }

    function GetNextRowPosition(x: real, down: bool): (pos: int)
      reads this`fragments, this`caretShape
      // a global offset: the layer's start plus the index the layout hits from the caret
      ensures pos - start == Layout().nextRowHit(caretShape, x, down)
    {
      start + Layout().nextRowHit(caretShape, x, down)
    }

    method UpdatePrefWidth(prefWidth: real)
      modifies this`prefWidth
      ensures this.prefWidth == prefWidth
    {
      this.prefWidth := prefWidth;
    }

    predicate HasCaret()
      reads this`caretShape
    {
      caretShape != []
    }

    method UpdateCaretPosition(caretPosition: int)
      modifies this`caretShape, this`caretTimelineRunning, owner.skin`lastValidCaretPosition
      // the caret path is the layout's, exactly when the layer shows the caret
      ensures caretShape == if Shown(caretPosition) then Layout().caretShape(caretPosition - start) else []
      // the blink timer is stopped when the caret is not shown here, started when it is drawn
      ensures !Shown(caretPosition) ==> !caretTimelineRunning
      ensures Shown(caretPosition) ==> caretTimelineRunning == (caretShape != [] || old(caretTimelineRunning))
      // the skin remembers the last position a caret was drawn at
      ensures owner.skin.lastValidCaretPosition ==
              if caretShape != [] then caretPosition else old(owner.skin.lastValidCaretPosition)
    {
      caretShape := [];
      if !owner.control.focused || owner.paragraph.None? || caretPosition < start || Limit() <= caretPosition {
        caretTimelineRunning := false;
        return;
      }
      if caretPosition < 0 || !owner.control.editable {
        caretTimelineRunning := false;
      } else {
        var pathElements := Layout().caretShape(caretPosition - start);
        if |pathElements| > 0 {
          caretShape := pathElements;
          owner.skin.lastValidCaretPosition := caretPosition;
          caretTimelineRunning := true;
        }
      }
    }

    /** A blink of the timer: only a drawn caret changes its opacity. */
    method SetCaretVisibility(on: bool)
      modifies this`caretOpacity
      ensures caretShape != [] ==> caretOpacity == if on then 1.0 else 0.0
      ensures caretShape == [] ==> caretOpacity == old(caretOpacity)
    {
      if |caretShape| > 0 {
        caretOpacity := if on then 1.0 else 0.0;
      }
    }

    method UpdateSelection(selection: Selection)
      modifies this`selectionShape
      ensures selectionShape == SelectionShape(start, end, selection)
      // so the path covers exactly the selected characters of this layer
      ensures forall i :: i in selectionShape <==>
        selection.Range? && start <= start + i < end && selection.start <= start + i < selection.end
    {
      selectionShape := {};
      if selection.IsDefined() && !(start > selection.end || end <= selection.start) {
        var covered := RangeShape(Max(start, selection.start) - start, Min(end, selection.end) - start);
        if |covered| > 0 {
          selectionShape := covered;
        }
      }
    }
  }

  class ParagraphTile {
    const control: RichTextArea
    const skin: RichTextAreaSkin
    const viewModel: RichTextAreaViewModel
    /** The text layout engine. */
    const textLayout: seq<Node> -> TextLayout
    /** Text measurement: the width of a string in a font of the given size. */
    const stringWidth: (int, string) -> real
    var paragraph: Option<Paragraph>
    var layers: seq<Layer>
    /** The (row, column) of each layer in the table grid. */
    var gridCells: seq<(int, int)>
    var graphicBoxChildren: seq<GraphicNode>
    var graphicBoxWidth: real
    /** Whether the caret and selection listeners are registered on the view-model. */
    var listening: bool

    ghost predicate Valid()
      reads this`layers, this`paragraph
    {
      (forall i, j :: 0 <= i < j < |layers| ==> layers[i] != layers[j]) &&
      (forall l :: l in layers ==> l.owner == this) &&
      (layers != [] ==> paragraph.Some?)
    }

    constructor (skin: RichTextAreaSkin, control: RichTextArea, viewModel: RichTextAreaViewModel,
                 textLayout: seq<Node> -> TextLayout, stringWidth: (int, string) -> real)
      ensures Valid()
      ensures this.skin == skin && this.control == control && this.viewModel == viewModel
      ensures paragraph == None && layers == [] && gridCells == [] && graphicBoxChildren == []
      ensures !listening
    {
      this.skin := skin;
      this.control := control;
      this.viewModel := viewModel;
      this.textLayout := textLayout;
      this.stringWidth := stringWidth;
      paragraph := None;
      layers := [];
      gridCells := [];
      graphicBoxChildren := [];
      graphicBoxWidth := 0.0;
      listening := false;
    }

    /** What a press or a drag can change. */
    function Pointer(): PointerState
      reads viewModel, skin
    {
      PointerState(viewModel.selection, viewModel.caretPosition, skin.mouseDragStart, viewModel.calls)
    }

    /** The graphic node the factory gives for the paragraph, with its label resolved. */
    function ResolvedGraphic(factory: Option<(int, GraphicType) -> Option<GraphicNode>>): (node: Option<GraphicNode>)
      requires paragraph.Some?
      reads this`paragraph, viewModel`paragraphList
      ensures factory.None? ==> node.None?
    {
      var d := paragraph.value.decoration;
      var made := if factory.Some? then factory.value(d.indentationLevel, d.graphicType) else None;
      if made.Some? then
        Some(ResolvedNode(made.value, ListOrdinal(viewModel.paragraphList, d.indentationLevel, paragraph.value)))
      else None
    }

    /** The measured width of a label's text; other nodes are not measured. */
    function LabelTextWidth(node: Option<GraphicNode>, fragments: seq<Node>): (w: real)
      // a label's text is measured in the font of the layer's first text node
      ensures node.Some? && node.value.Label? && node.value.text.Some? ==>
        w == stringWidth(FirstFontSize(fragments), node.value.text.value)
      ensures !(node.Some? && node.value.Label? && node.value.text.Some?) ==> w == 0.0
    {
      match node
      case Some(Label(Some(text))) => stringWidth(FirstFontSize(fragments), text)
      case _ => 0.0
    }

    /** A table paragraph's tile: no graphic, and one cell layer per consecutive pair of
        positions (none without fragments), placed row-major. */
    ghost predicate TableLaidOut(fragments: seq<Node>, positions: seq<int>, background: seq<IndexRangeColor>, t: TableDecoration)
      reads this`layers, this`gridCells, this`graphicBoxChildren, set l | l in layers
    {
      graphicBoxChildren == [] &&
      |layers| == (if fragments == [] then 0 else CellCount(t.rows, t.columns, |positions|)) &&
      |gridCells| == |layers| &&
      forall k :: 0 <= k < |layers| ==>
        IsCell(layers[k], k, fragments, positions, background) && IsPlacement(gridCells[k], k, t.rows, t.columns)
    }

    /** Any other paragraph's tile: a single layer with all the fragments, beside the
        graphic box that holds the resolved list graphic. */
    ghost predicate SingleLayerLaidOut(fragments: seq<Node>, background: seq<IndexRangeColor>)
      requires paragraph.Some?
      reads this`paragraph, this`layers, this`graphicBoxChildren, this`graphicBoxWidth, set l | l in layers
      reads control`paragraphGraphicFactory, viewModel`paragraphList, skin`textFlowPrefWidth
    {
      var d := paragraph.value.decoration;
      var node := ResolvedGraphic(control.paragraphGraphicFactory);
      |layers| == 1 && layers[0].start == paragraph.value.start && layers[0].end == paragraph.value.end &&
      layers[0].fragments == fragments && layers[0].backgroundPaths == BackgroundPaths(background) &&
      layers[0].caretShape == [] && layers[0].selectionShape == {} && !layers[0].caretTimelineRunning &&
      graphicBoxChildren == (if node.Some? then [node.value] else []) &&
      graphicBoxWidth == GraphicBoxWidth(d.indentationLevel, node, LabelTextWidth(node, fragments)) &&
      layers[0].prefWidth == skin.textFlowPrefWidth - graphicBoxWidth
    }

    method SetParagraph(p: Option<Paragraph>, fragments: seq<Node>, positions: seq<int>, background: seq<IndexRangeColor>)
      requires Valid()
      modifies this, set l | l in layers
      ensures Valid()
      // the old layers' caret timers are stopped
      ensures forall l :: l in old(layers) ==> !l.caretTimelineRunning
      ensures listening == p.Some?
      // no paragraph: an empty tile, the previous paragraph still remembered
      ensures p.None? ==> layers == [] && graphicBoxChildren == [] && paragraph == old(paragraph)
      ensures p.Some? ==> paragraph == p
      // a grid is built only for a table; the box width changes only beside a single layer
      ensures !(p.Some? && p.value.decoration.HasTableDecoration()) ==> gridCells == []
      ensures !(p.Some? && !p.value.decoration.HasTableDecoration()) ==> graphicBoxWidth == old(graphicBoxWidth)
      ensures forall l :: l in layers ==> fresh(l)
      // a table: one cell layer per consecutive pair of positions, placed row-major
      ensures p.Some? && p.value.decoration.HasTableDecoration() ==>
        TableLaidOut(fragments, positions, background, p.value.decoration.table.value)
      // otherwise a single layer with all fragments, beside the graphic box
      ensures p.Some? && !p.value.decoration.HasTableDecoration() ==>
        SingleLayerLaidOut(fragments, background)
    {
      ResetLayers();
      layers := [];
      gridCells := [];
      graphicBoxChildren := [];
      listening := false;
      if p.None? {
        return;
      }
      paragraph := p;
      var decoration := p.value.decoration;
      listening := true;
      if decoration.HasTableDecoration() {
        if fragments != [] {
          CreateGridBox(fragments, positions, background, decoration.table.value);
        }
      } else {
        var layer := new Layer(this, p.value.start, p.value.end);
        layer.SetContent(fragments, background);
        layers := [layer];
        UpdateGraphicBox(layer, control.paragraphGraphicFactory);
      }
    }

    /** Stops the caret timer of every layer. */
    method ResetLayers()
      modifies (set l | l in layers)`caretTimelineRunning
      ensures forall l :: l in layers ==> !l.caretTimelineRunning
    {
      var i := 0;
      while i < |layers|
        invariant 0 <= i <= |layers|
        invariant forall k :: 0 <= k < i ==> !layers[k].caretTimelineRunning
      {
        layers[i].Reset();
        i := i + 1;
      }
    }

    /** Lays out the cells of a table paragraph: row by row, one layer per consecutive
        pair of positions, stopping when the positions run out. */
    method CreateGridBox(fragments: seq<Node>, positions: seq<int>, background: seq<IndexRangeColor>, table: TableDecoration)
      requires Valid() && paragraph.Some?
      modifies this`layers, this`gridCells
      ensures Valid()
      ensures |layers| == |old(layers)| + CellCount(table.rows, table.columns, |positions|)
      ensures layers[..|old(layers)|] == old(layers)
      ensures |gridCells| == |layers| - |old(layers)|
      ensures forall k :: |old(layers)| <= k < |layers| ==>
        fresh(layers[k]) && IsCell(layers[k], k - |old(layers)|, fragments, positions, background)
      ensures forall k :: 0 <= k < |gridCells| ==> IsPlacement(gridCells[k], k, table.rows, table.columns)
    {
      var r := table.rows;
      var c := table.columns;
      ghost var base := |layers|;
      ghost var last := Max(|positions| - 1, 0);
      gridCells := [];
      var index := 0;
      var i := 0;
      while i < r
        invariant 0 <= i <= Max(r, 0)
        invariant 0 <= index <= last
        invariant index == if c <= 0 then 0 else Min(i * c, last)
        invariant |layers| == base + index && |gridCells| == index
        invariant layers[..base] == old(layers)
        invariant Valid()
        invariant forall k :: base <= k < |layers| ==>
          fresh(layers[k]) && IsCell(layers[k], k - base, fragments, positions, background)
        invariant forall k :: 0 <= k < index ==> IsPlacement(gridCells[k], k, r, c)
      {
        var j := 0;
        while j < c
          invariant 0 <= j <= Max(c, 0)
          invariant 0 <= index <= last
          invariant index == if c <= 0 then 0 else Min(i * c + j, last)
          invariant |layers| == base + index && |gridCells| == index
          invariant layers[..base] == old(layers)
          invariant Valid()
          invariant forall k :: base <= k < |layers| ==>
            fresh(layers[k]) && IsCell(layers[k], k - base, fragments, positions, background)
          invariant forall k :: 0 <= k < index ==> IsPlacement(gridCells[k], k, r, c)
        {
          if index + 1 >= |positions| {
            break;
          }
          AddCell(fragments, positions, background, index, (i, j));
          index := index + 1;
          j := j + 1;
        }
        assert (i + 1) * c == i * c + c;
        i := i + 1;
      }
    }

    /** One step of the grid build: the layer of cell `index`, placed at `cell`. */
    method AddCell(fragments: seq<Node>, positions: seq<int>, background: seq<IndexRangeColor>, index: int, cell: (int, int))
      requires Valid() && paragraph.Some?
      requires 0 <= index && index + 1 < |positions|
      modifies this`layers, this`gridCells
      ensures Valid()
      ensures |layers| == |old(layers)| + 1 && layers[..|old(layers)|] == old(layers)
      ensures fresh(layers[|old(layers)|]) && IsCell(layers[|old(layers)|], index, fragments, positions, background)
      ensures gridCells == old(gridCells) + [cell]
    {
      var layer := new Layer(this, positions[index], positions[index + 1]);
      layer.SetContent(CellFragments(fragments, positions[index], positions[index + 1]), background);
      layer.UpdatePrefWidth(100.0);
      layers := layers + [layer];
      gridCells := gridCells + [cell];
    }

    method UpdateGraphicBox(layer: Layer, graphicFactory: Option<(int, GraphicType) -> Option<GraphicNode>>)
      requires paragraph.Some?
      modifies this`graphicBoxChildren, this`graphicBoxWidth, layer`prefWidth
      // the resolved node (if any) is added to the box
      ensures var node := ResolvedGraphic(graphicFactory);
        graphicBoxChildren == old(graphicBoxChildren) + (if node.Some? then [node.value] else [])
      // the box is as wide as the indentation plus the node; the text gets the rest
      ensures var node := ResolvedGraphic(graphicFactory);
        graphicBoxWidth ==
          GraphicBoxWidth(paragraph.value.decoration.indentationLevel, node, LabelTextWidth(node, layer.fragments))
      ensures layer.prefWidth == skin.textFlowPrefWidth - graphicBoxWidth
    {
      var decoration := paragraph.value.decoration;
      var indentationLevel := decoration.indentationLevel;
      var graphicNode: Option<GraphicNode> := None;
      if graphicFactory.Some? {
        graphicNode := graphicFactory.value(indentationLevel, decoration.graphicType);
      }
      var spanPrefWidth := RMax(((indentationLevel - if graphicNode.None? then 0 else 1) as real) * INDENT_PADDING, 0.0);
      if graphicNode.None? {
        graphicBoxWidth := spanPrefWidth;
        layer.UpdatePrefWidth(skin.textFlowPrefWidth - spanPrefWidth);
        return;
      }
      var node := graphicNode.value;
      var nodePrefWidth := 0.0;
      match node {
        case Label(text) =>
          if text.Some? {
            var t := text.value;
            ghost var listOrdinal := ListOrdinal(viewModel.paragraphList, indentationLevel, paragraph.value);
            if '#' in t {
              var ordinal := ComputeOrdinal(viewModel.paragraphList, indentationLevel, paragraph.value);
              if ordinal.Some? {
                t := ReplaceAll(t, '#', DecimalString(ordinal.value));
              }
            }
            assert t == ResolvedLabelText(text.value, listOrdinal);
            node := Label(Some(t));
            var w := stringWidth(FirstFontSize(layer.fragments), t);
            nodePrefWidth := RMax(w + 1.0, INDENT_PADDING);
          }
        case Graphic(prefWidth) =>
          nodePrefWidth := RMax(prefWidth, INDENT_PADDING);
      }
      assert node == ResolvedNode(graphicNode.value,
        ListOrdinal(viewModel.paragraphList, indentationLevel, paragraph.value));
      graphicBoxChildren := graphicBoxChildren + [node];
      var boxPrefWidth := spanPrefWidth + nodePrefWidth;
      graphicBoxWidth := boxPrefWidth;
      layer.UpdatePrefWidth(skin.textFlowPrefWidth - boxPrefWidth);
    }

    /** The layers whose bounds contain a pointer event, in layer order: hits[k] is the
        insertion index layer k hit-tests the event to, None when its bounds do not
        contain the point. Only the first n layers are looked at. */
    function Targets(hits: seq<Option<int>>, n: nat): seq<LayerTarget>
      requires Valid() && |hits| == |layers| && n <= |layers|
      reads this`layers, this`paragraph, skin`lastParagraph
    {
      if n == 0 then []
      else
        var rest := Targets(hits, n - 1);
        var l := layers[n - 1];
        if hits[n - 1].Some? then rest + [LayerTarget(l.start, l.Limit(), hits[n - 1].value)] else rest
    }

    /** Hands a press to every layer containing the point, unless the control is disabled. */
    method MousePressedListener(e: MouseEvent, hits: seq<Option<int>>)
      requires Valid() && |hits| == |layers|
      modifies viewModel`selection, viewModel`caretPosition, viewModel`calls
      modifies skin`mouseDragStart, skin`contextMenuShowing
      ensures control.disabled ==>
        Pointer() == old(Pointer()) && skin.contextMenuShowing == old(skin.contextMenuShowing)
      ensures !control.disabled ==> Pointer() == PressEach(old(Pointer()), e, Targets(hits, |layers|))
      // any layer that gets the press hides the context menu
      ensures !control.disabled ==>
        skin.contextMenuShowing == (old(skin.contextMenuShowing) && Targets(hits, |layers|) == [])
    {
      if control.disabled {
        return;
      }
      var i := 0;
      while i < |layers|
        invariant 0 <= i <= |layers|
        invariant Pointer() == PressEach(old(Pointer()), e, Targets(hits, i))
        invariant skin.contextMenuShowing == (old(skin.contextMenuShowing) && Targets(hits, i) == [])
      {
        var l := layers[i];
        if hits[i].Some? {
          PressEachSnoc(old(Pointer()), e, Targets(hits, i), LayerTarget(l.start, l.Limit(), hits[i].value));
          l.MousePressedListener(e, hits[i].value);
        }
        i := i + 1;
      }
    }

    /** Hands a drag to every layer containing the point (a disabled control included). */
    method MouseDraggedListener(hits: seq<Option<int>>)
      requires Valid() && |hits| == |layers|
      modifies viewModel`selection, viewModel`caretPosition
      ensures Pointer() == DragEach(old(Pointer()), Targets(hits, |layers|))
    {
      var i := 0;
      while i < |layers|
        invariant 0 <= i <= |layers|
        invariant Pointer() == DragEach(old(Pointer()), Targets(hits, i))
      {
        if hits[i].Some? {
          layers[i].MouseDraggedListener(hits[i].value);
        }
        i := i + 1;
      }
    }

    method EvictUnusedObjects()
      requires Valid()
      modifies skin`fontCache, skin`imageCache
      ensures skin.fontCache == SweepAll(old(skin.fontCache), FontUses(layers))
      ensures skin.imageCache == SweepAll(old(skin.imageCache), ImageUses(layers))
      // a cached font survives exactly when every layer of the tile uses it
    {
      ghost var fonts := FontUses(layers);
      ghost var images := ImageUses(layers);
      var ls := layers;
      var i := 0;
      while i < |ls|
        invariant 0 <= i <= |ls|
        invariant skin.fontCache == SweepAll(old(skin.fontCache), fonts[..i])
        invariant skin.imageCache == SweepAll(old(skin.imageCache), images[..i])
        modifies skin`fontCache, skin`imageCache
      {
        SweepPrefixStep(old(skin.fontCache), fonts, i);
        SweepPrefixStep(old(skin.imageCache), images, i);
        assert ls[i] in layers;
        ls[i].EvictUnusedObjects();
        i := i + 1;
      }
      assert fonts[..i] == fonts && images[..i] == images;
    }

    predicate HasCaret()
      reads this, set l | l in layers
    {
      exists l :: l in layers && l.HasCaret()
    }

    function GetNextRowPosition(x: real, down: bool): (pos: int)
      reads this, set l | l in layers
      ensures layers == [] ==> pos == 0
      ensures layers != [] ==> pos == layers[0].GetNextRowPosition(x, down)
    {
      if layers == [] then 0 else layers[0].GetNextRowPosition(x, down)
    }

    /** Redraws every layer's selection and caret from the view-model's current state. */
    method UpdateLayout()
      requires Valid()
      modifies (set l | l in layers)`selectionShape, (set l | l in layers)`caretShape
      modifies (set l | l in layers)`caretTimelineRunning, skin`lastValidCaretPosition
      ensures forall l :: l in layers ==> LayerRedrawn(l, viewModel.selection, viewModel.caretPosition)
      // the tile has a caret only where a layer shows one, and then the skin records it
      ensures HasCaret() ==> (exists l :: l in layers && l.Shown(viewModel.caretPosition)) &&
                             skin.lastValidCaretPosition == viewModel.caretPosition
      ensures !HasCaret() ==> skin.lastValidCaretPosition == old(skin.lastValidCaretPosition)
    {
      var selection := viewModel.selection;
      var caretPosition := viewModel.caretPosition;
      var ls := layers;
      ghost var found := false;
      var i := 0;
      while i < |ls|
        invariant 0 <= i <= |ls|
        invariant forall k :: 0 <= k < i ==> LayerRedrawn(ls[k], selection, caretPosition)
        invariant found <==> exists k :: 0 <= k < i && ls[k].HasCaret()
        invariant skin.lastValidCaretPosition == if found then caretPosition else old(skin.lastValidCaretPosition)
      {
        assert forall k :: 0 <= k < i ==> ls[k] != ls[i];
        UpdateLayer(ls[i], selection, caretPosition);
        found := found || ls[i].HasCaret();
        i := i + 1;
      }
    }

    /** One step of updateLayout: a layer redraws its selection, then its caret. */
    method UpdateLayer(l: Layer, selection: Selection, caretPosition: int)
      requires l.owner == this
      modifies l`selectionShape, l`caretShape, l`caretTimelineRunning, skin`lastValidCaretPosition
      ensures LayerRedrawn(l, selection, caretPosition)
      ensures skin.lastValidCaretPosition == if l.HasCaret() then caretPosition else old(skin.lastValidCaretPosition)
    {
      l.UpdateSelection(selection);
      l.UpdateCaretPosition(caretPosition);
    }

    /** The caret listener: every layer redraws its caret for the new position. */
    method UpdateCaretPosition(caretPosition: int)
      requires Valid()
      modifies (set l | l in layers)`caretShape, (set l | l in layers)`caretTimelineRunning
      modifies skin`lastValidCaretPosition
      ensures forall l :: l in layers ==> CaretRedrawn(l, caretPosition)
      // the tile has a caret only where a layer shows one, and then the skin records it
      ensures HasCaret() ==> (exists l :: l in layers && l.Shown(caretPosition)) &&
                             skin.lastValidCaretPosition == caretPosition
      ensures !HasCaret() ==> skin.lastValidCaretPosition == old(skin.lastValidCaretPosition)
    {
      var i := 0;
      while i < |layers|
        invariant 0 <= i <= |layers|
        invariant forall k :: 0 <= k < i ==> CaretRedrawn(layers[k], caretPosition)
        invariant skin.lastValidCaretPosition ==
          if exists k :: 0 <= k < i && layers[k].HasCaret() then caretPosition else old(skin.lastValidCaretPosition)
      {
        layers[i].UpdateCaretPosition(caretPosition);
        i := i + 1;
      }
    }

    /** The selection listener: every layer redraws its part of the selection. */
    method UpdateSelection(selection: Selection)
      requires Valid()
      modifies (set l | l in layers)`selectionShape
      ensures forall l :: l in layers ==> SelectionRedrawn(l, selection)
    {
      var i := 0;
      while i < |layers|
        invariant 0 <= i <= |layers|
        invariant forall k :: 0 <= k < i ==> SelectionRedrawn(layers[k], selection)
      {
        layers[i].UpdateSelection(selection);
        i := i + 1;
      }
    }
  }
}
