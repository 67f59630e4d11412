/** Values shared by the rich-text view-model, its commands and the paragraph tiles. */
module EditorTypes {

  datatype Option<T> = None | Some(value: T)

  /** A selection of the document text: two global offsets, start <= end, or the
      sentinel UNDEFINED. */
  datatype Selection = Undefined | Range(start: int, end: int) {
    predicate IsDefined() { Range? }
  }

  /** A defined selection lies within the document: 0 <= start <= end. */
  predicate WellFormed(s: Selection) {
    s.Range? ==> 0 <= s.start <= s.end
  }

  /** new Selection(a, b): UNDEFINED when an offset is negative, otherwise the range
      between the two offsets, whichever order they come in. */
  function NewSelection(a: int, b: int): (s: Selection)
    ensures WellFormed(s)
    ensures s.Range? <==> a >= 0 && b >= 0
    ensures s.Range? ==> (s.start == a && s.end == b) || (s.start == b && s.end == a)
  {
    if a < 0 || b < 0 then Undefined else Range(Min(a, b), Max(a, b))
  }

  datatype GraphicType = NoGraphic | BulletedList | NumberedList

  datatype TableDecoration = TableDecoration(rows: int, columns: int)

  /** Paragraph-level style: indentation level, list graphic, and an optional table. */
  datatype ParagraphDecoration = ParagraphDecoration(
    indentationLevel: int,
    graphicType: GraphicType,
    table: Option<TableDecoration>)
  {
    predicate HasTableDecoration() { table.Some? }
  }

  /** A paragraph covers the half-open global range [start, end). */
  datatype Paragraph = Paragraph(start: int, end: int, decoration: ParagraphDecoration)

  /** The decoration variants a DecorateCmd can carry. */
  datatype Decoration =
    | TextDeco(fontFamily: string, fontSize: int)
    | ImageDeco(url: string)
    | ParagraphDeco(paragraph: ParagraphDecoration)

  datatype Font = Font(family: string, size: int)

  datatype Image = Image(url: string)

  /** A fill colour (JavaFX Paint), identified by its ARGB value. */
  datatype Paint = Paint(argb: nat)

  /** A background highlight request: the layer-relative range [start, end) and its colour. */
  datatype IndexRangeColor = IndexRangeColor(start: int, end: int, color: Paint)

  /** One content node of a text flow. `tableMarker` is the TABLE_SEPARATOR property a
      table fragment carries (the offset of its cell), if any. */
  datatype Node =
    | TextNode(font: Option<Font>, tableMarker: Option<int>)
    | ImageNode(image: Option<Image>, tableMarker: Option<int>)
    | OtherNode(tableMarker: Option<int>)

  datatype PathElement = MoveTo(x: real, y: real) | LineTo(x: real, y: real)

  function Min(a: int, b: int): int { if a <= b then a else b }

  function Max(a: int, b: int): int { if a >= b then a else b }
}
