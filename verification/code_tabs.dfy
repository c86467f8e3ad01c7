/**
 * src/components/CodeTabs.tsx: which code tabs are shown, the edit mode of
 * the code pane, and the contents of the downloaded archive.
 */
module CodeTabs {
  import opened Wrappers
  import opened Text
  import opened Records

  const ExportMarker: string := "export default"
  const ExportFooter: string := "\n\n" + ExportMarker + " Component;"

  /** The usage note added to every archive. */
  const UsageReadme: string := "# Generated Component\n\nThis component was generated using AI Playground.\n\n## Usage\n\n```jsx\nimport Component from './Component';\nimport './Component.css';\n\nfunction App() {\n  return <Component />;\n}\n```\n"

  const ComponentFile: string := "Component.tsx"
  const StyleFile: string := "Component.css"
  const ReadmeFile: string := "README.md"

  /**
   * The component file: the markup as it is when it already mentions
   * `export default`, otherwise the markup followed by a default export.
   */
  function ComponentSource(jsx: string): (r: string)
    ensures Includes(r, ExportMarker)
    ensures |jsx| <= |r| && r[..|jsx|] == jsx
    ensures r == jsx <==> Includes(jsx, ExportMarker)
    ensures !Includes(jsx, ExportMarker) ==> r == jsx + ExportFooter
  {
    if Includes(jsx, ExportMarker) then jsx
    else
      assert jsx + ExportFooter == (jsx + "\n\n") + ExportMarker + " Component;";
      assert (jsx + ExportFooter)[|jsx| + 2..|jsx| + 2 + |ExportMarker|] == ExportMarker;
      assert OccursAt(jsx + ExportFooter, ExportMarker, |jsx| + 2);
      jsx + ExportFooter
  }

  /** Rewriting twice is rewriting once. */
  lemma ComponentSourceIdempotent(jsx: string)
    ensures ComponentSource(ComponentSource(jsx)) == ComponentSource(jsx)
  {
  }

  /**
   * `downloadCode` as a map from file name to contents: an error when
   * there is no code; otherwise the component file exactly when there is
   * markup, the stylesheet exactly when there is a stylesheet, and always
   * the usage note.
   */
  function DownloadCode(jsx: string, css: string): (r: Result<map<string, string>>)
    ensures r.Failure? <==> jsx == "" && css == ""
    ensures r.Failure? ==> r.error == "No code to download"
    ensures r.Success? ==>
      && r.value.Keys <= {ComponentFile, StyleFile, ReadmeFile}
      && (ComponentFile in r.value <==> jsx != "")
      && (StyleFile in r.value <==> css != "")
      && ReadmeFile in r.value && r.value[ReadmeFile] == UsageReadme
      && (StyleFile in r.value ==> r.value[StyleFile] == css)
      && (ComponentFile in r.value ==> r.value[ComponentFile] == ComponentSource(jsx))
  {
    if jsx == "" && css == "" then Failure("No code to download")
    else
      var files := map[ReadmeFile := UsageReadme];
      var files := if jsx != "" then files[ComponentFile := ComponentSource(jsx)] else files;
      var files := if css != "" then files[StyleFile := css] else files;
      Success(files)
  }

  /**
   * Every component file in an archive declares a default export and
   * starts with the markup unchanged.
   */
  lemma ArchivedComponentExports(jsx: string, css: string)
    requires jsx != ""
    ensures DownloadCode(jsx, css).Success?
    ensures var files := DownloadCode(jsx, css).value;
      && Includes(files[ComponentFile], ExportMarker)
      && files[ComponentFile][..|jsx|] == jsx
  {
  }

  // -----------------------------------------------------------------------
  // Tabs and edit mode

  /** The tabs shown: markup first, each only when its code is non-empty. */
  function VisibleTabs(jsx: string, css: string): (r: seq<CodeKind>)
    ensures Jsx in r <==> jsx != ""
    ensures Css in r <==> css != ""
    ensures |r| == 0 <==> jsx == "" && css == ""
    ensures |r| > 0 && jsx != "" ==> r[0] == Jsx
  {
    (if jsx != "" then [Jsx] else []) + (if css != "" then [Css] else [])
  }

  /** Which tab is being edited, if editing at all. */
  datatype EditorState = EditorState(isEditing: bool, editingTab: CodeKind)

  const InitialEditor := EditorState(false, Jsx)

  /** `startEditing(tab)` */
  function StartEditing(st: EditorState, tab: CodeKind): (r: EditorState)
    ensures r.isEditing && r.editingTab == tab
  {
    EditorState(true, tab)
  }

  /** `saveEdit`: leaves edit mode; the code itself was already sent on every keystroke. */
  function SaveEdit(st: EditorState): (r: EditorState)
    ensures !r.isEditing && r.editingTab == st.editingTab
  {
    st.(isEditing := false)
  }

  /** The text area of `tab` is shown. */
  predicate EditorOpen(st: EditorState, jsx: string, css: string, tab: CodeKind) {
    tab in VisibleTabs(jsx, css) && st.isEditing && st.editingTab == tab
  }

  /** The pane opens with no editor showing, whatever code it is given. */
  lemma InitialEditorClosed(jsx: string, css: string)
    ensures forall t :: !EditorOpen(InitialEditor, jsx, css, t)
  {
  }

  /** Starting to edit a shown tab opens its editor and no other. */
  lemma StartEditingOpensOneEditor(st: EditorState, jsx: string, css: string, tab: CodeKind)
    requires tab in VisibleTabs(jsx, css)
    ensures forall t :: EditorOpen(StartEditing(st, tab), jsx, css, t) <==> t == tab
  {
  }

  /** After saving, no editor is open. */
  lemma SaveEditClosesEditors(st: EditorState, jsx: string, css: string)
    ensures forall t :: !EditorOpen(SaveEdit(st), jsx, css, t)
  {
  }
}
