/**
 * The records the components share (the `Session` and `Message` interfaces
 * of src/components/Playground.tsx) and the persistence outcomes the
 * backend reports.
 */
module Records {
  import opened Wrappers

  datatype Role = User | Assistant

  /** The two code panes: markup (`jsx`) and stylesheet (`css`). */
  datatype CodeKind = Jsx | Css

  datatype Session = Session(
    id: string,
    name: string,
    description: Option<string>,
    generatedJsx: Option<string>,
    generatedCss: Option<string>,
    createdAt: string,
    updatedAt: string)

  datatype Message = Message(
    id: string,
    role: Role,
    content: string,
    imageUrl: Option<string>,
    createdAt: string)

  /**
   * A `Partial<Session>` as the components build it. `None` means the key
   * is absent; for an optional field, `Some(None)` means the key is present
   * with the value `undefined`, which a spread copies over.
   */
  datatype SessionPatch = SessionPatch(
    name: Option<string>,
    description: Option<Option<string>>,
    generatedJsx: Option<Option<string>>,
    generatedCss: Option<Option<string>>)

  const NoChanges := SessionPatch(None, None, None, None)

  /** `{ ...s, ...p }`: keys present in the patch win, every other field is kept. */
  function Apply(s: Session, p: SessionPatch): (r: Session)
    ensures r.id == s.id && r.createdAt == s.createdAt && r.updatedAt == s.updatedAt
    ensures p.name.None? ==> r.name == s.name
    ensures p.description.None? ==> r.description == s.description
    ensures p.generatedJsx.None? ==> r.generatedJsx == s.generatedJsx
    ensures p.generatedCss.None? ==> r.generatedCss == s.generatedCss
    ensures p.name.Some? ==> r.name == p.name.value
    ensures p.description.Some? ==> r.description == p.description.value
    ensures p.generatedJsx.Some? ==> r.generatedJsx == p.generatedJsx.value
    ensures p.generatedCss.Some? ==> r.generatedCss == p.generatedCss.value
  {
    s.(name := p.name.GetOr(s.name),
       description := p.description.GetOr(s.description),
       generatedJsx := p.generatedJsx.GetOr(s.generatedJsx),
       generatedCss := p.generatedCss.GetOr(s.generatedCss))
  }

  /** Merging a patch twice is merging it once. */
  lemma ApplyIdempotent(s: Session, p: SessionPatch)
    ensures Apply(Apply(s, p), p) == Apply(s, p)
  {
  }

  /** The empty patch changes nothing. */
  lemma ApplyNoChanges(s: Session)
    ensures Apply(s, NoChanges) == s
  {
  }

  /** Identifier and timestamps the backend assigns to an inserted session row. */
  datatype SessionRow = SessionRow(id: string, createdAt: string, updatedAt: string)

  /** Identifier and timestamp the backend assigns to an inserted message row. */
  datatype MessageRow = MessageRow(id: string, createdAt: string)

  /** The outcome of one backend call: the returned data, or an error. */
  datatype Store<+T> = Saved(row: T) | StoreError
}
