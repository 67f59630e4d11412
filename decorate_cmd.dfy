/** DecorateCmd: a reversible command that either decorates the document or stages a
    decoration at the caret, remembering the previously staged one for undo. */
module DecorateCommand {
  import opened EditorTypes
  import opened ViewModel

  /** doRedo decorates the document (instead of staging at the caret) exactly when the
      command's selection is defined or the decoration is an image or paragraph one. */
  predicate AppliesToDocument(selection: Selection, decoration: Decoration) {
    selection.IsDefined() || decoration.ImageDeco? || decoration.ParagraphDeco?
  }

  /** The command's remembered decoration and the view-model state after doRedo. */
  datatype Redone = Redone(prevDecoration: Option<Decoration>, state: VmState)

  /** doRedo on values. */
  function Redo(selection: Selection, decoration: Decoration, prevDecoration: Option<Decoration>, s: VmState): (r: Redone)
    // the document path: one decorate call, nothing remembered, caret decoration untouched
    ensures AppliesToDocument(selection, decoration) ==>
      r.prevDecoration == prevDecoration &&
      r.state.decorationAtCaret == s.decorationAtCaret &&
      r.state.calls == s.calls + [Decorate(decoration)]
    // the staged path: the old caret decoration is remembered, the new one staged, no document call
    ensures !AppliesToDocument(selection, decoration) ==>
      r.prevDecoration == s.decorationAtCaret &&
      r.state.decorationAtCaret == Some(decoration) &&
      r.state.calls == s.calls
    // nothing else in the view-model changes
    ensures r.state.selection == s.selection && r.state.caretPosition == s.caretPosition
    ensures r.state.editable == s.editable
  {
    if AppliesToDocument(selection, decoration) then
      Redone(prevDecoration, s.(calls := s.calls + [Decorate(decoration)]))
    else
      Redone(s.decorationAtCaret, s.(decorationAtCaret := Some(decoration)))
  }

  /** doUndo on values. */
  function Undo(prevDecoration: Option<Decoration>, s: VmState): (r: VmState)
    // the caret decoration is restored only from a remembered text decoration
    ensures prevDecoration.Some? && prevDecoration.value.TextDeco? ==> r.decorationAtCaret == prevDecoration
    ensures !(prevDecoration.Some? && prevDecoration.value.TextDeco?) ==> r.decorationAtCaret == s.decorationAtCaret
    // undoDecoration is called exactly once, on either path
    ensures r.calls == s.calls + [UndoDecoration]
    ensures r.selection == s.selection && r.caretPosition == s.caretPosition && r.editable == s.editable
  {
    var s1 := if prevDecoration.Some? && prevDecoration.value.TextDeco?
              then s.(decorationAtCaret := prevDecoration) else s;
    s1.(calls := s1.calls + [UndoDecoration])
  }

  /** Staged round trip: a text decoration staged at the caret before doRedo is staged
      again after doUndo; the only other trace is the undoDecoration call. */
  lemma StagedRoundTripRestoresTextDecoration(selection: Selection, decoration: Decoration, prev: Option<Decoration>, s: VmState)
    requires !AppliesToDocument(selection, decoration)
    requires s.decorationAtCaret.Some? && s.decorationAtCaret.value.TextDeco?
    ensures var r := Redo(selection, decoration, prev, s);
      Undo(r.prevDecoration, r.state) == s.(calls := s.calls + [UndoDecoration])
  {
  }

  /** Staged over a non-text (or absent) caret decoration, the round trip leaves the new
      decoration staged. */
  lemma StagedRoundTripKeepsNewDecoration(selection: Selection, decoration: Decoration, prev: Option<Decoration>, s: VmState)
    requires !AppliesToDocument(selection, decoration)
    requires !(s.decorationAtCaret.Some? && s.decorationAtCaret.value.TextDeco?)
    ensures var r := Redo(selection, decoration, prev, s);
      Undo(r.prevDecoration, r.state).decorationAtCaret == Some(decoration)
  {
  }

  /** Document round trip: with nothing remembered, doRedo then doUndo issue decorate and
      then undoDecoration, and leave the caret decoration as it was. */
  lemma DocumentRoundTrip(selection: Selection, decoration: Decoration, s: VmState)
    requires AppliesToDocument(selection, decoration)
    ensures var r := Redo(selection, decoration, None, s);
      Undo(r.prevDecoration, r.state) == s.(calls := s.calls + [Decorate(decoration), UndoDecoration])
  {
  }

  class DecorateCmd {
    /** The selection held by the command (a field of AbstractEditCmd). */
    var selection: Selection
    const decoration: Decoration
    var prevDecoration: Option<Decoration>

    constructor (decoration: Decoration, selection: Selection)
      ensures this.decoration == decoration && this.selection == selection
      ensures prevDecoration == None
    {
      this.decoration := decoration;
      this.selection := selection;
      prevDecoration := None;
    }

    method DoRedo(viewModel: RichTextAreaViewModel?)
      requires viewModel != null
      modifies this`prevDecoration, viewModel`calls, viewModel`decorationAtCaret
      ensures Redone(prevDecoration, viewModel.State())
           == Redo(selection, decoration, old(prevDecoration), old(viewModel.State()))
    {
      if selection.IsDefined() || decoration.ImageDeco? || decoration.ParagraphDeco? {
        viewModel.Record(Decorate(decoration));
      } else {
        prevDecoration := viewModel.decorationAtCaret;
        viewModel.SetDecorationAtCaret(Some(decoration));
      }
    }

    method DoUndo(viewModel: RichTextAreaViewModel?)
      requires viewModel != null
      modifies viewModel`calls, viewModel`decorationAtCaret
      ensures viewModel.State() == Undo(prevDecoration, old(viewModel.State()))
    {
      if prevDecoration.Some? && prevDecoration.value.TextDeco? {
        viewModel.SetDecorationAtCaret(prevDecoration);
      }
      viewModel.Record(UndoDecoration);
    }
  }
}
