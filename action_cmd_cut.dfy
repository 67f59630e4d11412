/** ActionCmdCut: the cut action, with its enablement predicate. */
module CutCommand {
  import opened EditorTypes
  import opened ViewModel

  /** The disabled binding: no selection, or the view-model is not editable. */
  predicate CutDisabled(s: VmState) {
    s.selection == Undefined || !s.editable
  }

  /** apply on values. */
  function Cut(s: VmState): (r: VmState)
    // a non-editable view-model is left as it is
    ensures !s.editable ==> r == s
    // an editable one gets exactly one clipboardCopy(true), and nothing else changes
    ensures s.editable ==> r == s.(calls := s.calls + [ClipboardCopy(true)])
  {
    if s.editable then s.(calls := s.calls + [ClipboardCopy(true)]) else s
  }

  /** Whenever the command is enabled, applying it performs the cut. */
  lemma EnabledCutCuts(s: VmState)
    requires !CutDisabled(s)
    ensures Cut(s).calls == s.calls + [ClipboardCopy(true)]
    ensures Cut(s).selection == s.selection
  {
  }

  /** apply does not itself look at the selection: on an editable view-model it issues
      the cut even while the binding reports the command as disabled. */
  lemma CutIgnoresSelection(s: VmState)
    requires s.editable && s.selection == Undefined
    ensures CutDisabled(s)
    ensures Cut(s).calls == s.calls + [ClipboardCopy(true)]
  {
  }

  class ActionCmdCut {
    constructor ()
    {
    }

    method Apply(viewModel: RichTextAreaViewModel)
      modifies viewModel`calls
      ensures viewModel.State() == Cut(old(viewModel.State()))
    {
      if viewModel.editable {
        viewModel.Record(ClipboardCopy(true));
      }
    }

    /** The current value of the disabled binding. */
    method GetDisabledBinding(viewModel: RichTextAreaViewModel) returns (disabled: bool)
      ensures disabled <==> viewModel.selection == Undefined || !viewModel.editable
      ensures disabled == CutDisabled(viewModel.State())
    {
      disabled := viewModel.selection == Undefined || !viewModel.editable;
    }
  }
}
