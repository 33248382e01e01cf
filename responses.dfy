/**
 * The decoded response payloads, with the field lists of the `TypedDict`s
 * in mystbin/types/responses.py. Every field is an `Option`: `None` means
 * the key is absent from the decoded mapping, `Some(v)` that it maps to `v`.
 * A field whose JSON value may itself be `null` has type `Option<Option<T>>`.
 * Values are assumed to have the declared types.
 */
module Responses {
  import opened Wrappers

  /** `FileResponse`: one file of a paste as the service returns it. */
  datatype FileResponse = FileResponse(
    annotation: Option<string>,
    charcount: Option<int>,
    content: Option<string>,
    filename: Option<string>,
    loc: Option<int>,
    parentId: Option<string>)

  /**
   * `GetPasteResponse`: a paste as the service returns it. `last_edited`
   * is not among the declared keys but is read when present.
   */
  datatype PasteResponse = PasteResponse(
    id: Option<string>,
    hasPassword: Option<bool>,
    views: Option<int>,
    createdAt: Option<string>,
    expires: Option<Option<string>>,
    files: Option<seq<FileResponse>>,
    lastEdited: Option<Option<string>>)
}
