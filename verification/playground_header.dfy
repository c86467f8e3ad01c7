/**
 * src/components/PlaygroundHeader.tsx: the inline editor of the current
 * session's title.
 */
module PlaygroundHeader {
  import opened Wrappers
  import opened Text
  import opened Records
  import Playground

  /** Whether the title input is shown, and the text typed into it. */
  datatype TitleEditor = TitleEditor(isEditing: bool, buffer: string)

  const ClosedEditor := TitleEditor(false, "")

  /** The editor after an action, and the update it hands to `onUpdateSession`, if any. */
  datatype TitleResult = TitleResult(editor: TitleEditor, update: Option<SessionPatch>)

  /** The title shown when not editing. */
  function DisplayedTitle(current: Option<Session>): (r: string)
    ensures r != ""
    ensures current.Some? && current.value.name != "" ==> r == current.value.name
    ensures current.None? || current.value.name == "" ==> r == "No Session"
  {
    if current.Some? && current.value.name != "" then current.value.name else "No Session"
  }

  /** `startEditing`: the input opens holding the current name, or nothing. */
  function StartEditing(ed: TitleEditor, current: Option<Session>): (r: TitleEditor)
    ensures r.isEditing
    ensures current.Some? ==> r.buffer == current.value.name
    ensures current.None? ==> r.buffer == ""
  {
    TitleEditor(true, if current.Some? then current.value.name else "")
  }

  /** Typing into the input. */
  function Type(ed: TitleEditor, text: string): (r: TitleEditor)
    ensures r.buffer == text && r.isEditing == ed.isEditing
  {
    ed.(buffer := text)
  }

  /** The patch renaming a session. */
  function RenamePatch(name: string): SessionPatch {
    SessionPatch(Some(name), None, None, None)
  }

  /**
   * `saveTitle`: a non-blank buffer with a current session yields exactly
   * one update, the trimmed name; the editor closes in every case.
   */
  function SaveTitle(ed: TitleEditor, current: Option<Session>): (r: TitleResult)
    ensures !r.editor.isEditing && r.editor.buffer == ed.buffer
    ensures r.update.Some? <==> !AllSpace(ed.buffer) && current.Some?
    ensures r.update.Some? ==> r.update.value.name == Some(Trim(ed.buffer)) && Trim(ed.buffer) != ""
    ensures r.update.Some? ==> r.update.value.description.None? && r.update.value.generatedJsx.None? && r.update.value.generatedCss.None?
  {
    TrimEmptyIff(ed.buffer);
    var update := if Trim(ed.buffer) != "" && current.Some? then Some(RenamePatch(Trim(ed.buffer))) else None;
    TitleResult(ed.(isEditing := false), update)
  }

  /** `cancelEditing`: the editor closes and forgets the buffer; nothing is updated. */
  function CancelEditing(ed: TitleEditor): (r: TitleResult)
    ensures r.editor == ClosedEditor && r.update.None?
  {
    TitleResult(ClosedEditor, None)
  }

  /** A key press in the title input: Enter saves, Escape cancels, anything else is ignored. */
  function KeyDown(ed: TitleEditor, key: string, current: Option<Session>): (r: TitleResult)
    ensures key == "Enter" ==> r == SaveTitle(ed, current)
    ensures key == "Escape" ==> r == CancelEditing(ed)
    ensures key != "Enter" && key != "Escape" ==> r == TitleResult(ed, None)
  {
    if key == "Enter" then SaveTitle(ed, current)
    else if key == "Escape" then CancelEditing(ed)
    else TitleResult(ed, None)
  }

  /** A blank buffer never produces an update, and the editor still closes. */
  lemma BlankTitleNeverUpdates(ed: TitleEditor, current: Option<Session>)
    requires AllSpace(ed.buffer)
    ensures SaveTitle(ed, current).update.None? && !SaveTitle(ed, current).editor.isEditing
  {
  }

  /**
   * Saving a title through the playground renames the current session to
   * the trimmed buffer and changes no other field of it.
   */
  lemma SaveTitleRenamesCurrent(st: Playground.PlaygroundState, ed: TitleEditor)
    requires st.current.Some? && !AllSpace(ed.buffer)
    ensures var res := SaveTitle(ed, st.current);
      && res.update.Some?
      && Playground.UpdateSession(st, res.update.value, Saved(())).current == Some(st.current.value.(name := Trim(ed.buffer)))
  {
  }

  /** Starting to edit and saving at once rewrites the name to its trimmed form. */
  lemma EditThenSaveTrimsName(ed: TitleEditor, s: Session)
    requires !AllSpace(s.name)
    ensures SaveTitle(StartEditing(ed, Some(s)), Some(s)).update == Some(RenamePatch(Trim(s.name)))
  {
  }
}
