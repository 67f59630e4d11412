/** The part of RichTextAreaViewModel that the commands and the paragraph tiles use.
    Its own operations (decorate, undoDecoration, clipboardCopy, selectCurrentWord,
    selectCurrentParagraph) are not part of this model: each call is recorded in `calls`
    and changes nothing else. */
module ViewModel {
  import opened EditorTypes

  /** A call to a view-model operation whose effect is outside this model. */
  datatype Call =
    | Decorate(decoration: Decoration)
    | UndoDecoration
    | ClipboardCopy(cut: bool)
    | SelectCurrentWord
    | SelectCurrentParagraph

  /** The observable state of the view-model, as a value. */
  datatype VmState = VmState(
    selection: Selection,
    caretPosition: int,
    decorationAtCaret: Option<Decoration>,
    editable: bool,
    calls: seq<Call>)

  class RichTextAreaViewModel {
    var selection: Selection
    var caretPosition: int
    var decorationAtCaret: Option<Decoration>
    var editable: bool
    var paragraphList: seq<Paragraph>
    var calls: seq<Call>

    function State(): VmState
      reads this
    {
      VmState(selection, caretPosition, decorationAtCaret, editable, calls)
    }

    constructor (paragraphs: seq<Paragraph>, editable: bool)
      ensures State() == VmState(Undefined, 0, None, editable, [])
      ensures paragraphList == paragraphs
    {
      selection := Undefined;
      caretPosition := 0;
      decorationAtCaret := None;
      this.editable := editable;
      paragraphList := paragraphs;
      calls := [];
    }

    method Record(call: Call)
      modifies this`calls
      ensures calls == old(calls) + [call]
    {
      calls := calls + [call];
    }

    method SetCaretPosition(p: int)
      modifies this`caretPosition
      ensures caretPosition == p
    {
      caretPosition := p;
    }

    method SetSelection(s: Selection)
      modifies this`selection
      ensures selection == s
    {
      selection := s;
    }

    method ClearSelection()
      modifies this`selection
      ensures selection == Undefined
    {
      selection := Undefined;
    }

    method SetDecorationAtCaret(d: Option<Decoration>)
      modifies this`decorationAtCaret
      ensures decorationAtCaret == d
    {
      decorationAtCaret := d;
    }
  }
}
