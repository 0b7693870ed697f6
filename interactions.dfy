/**
 * What the recorder logs and what it saves: interactions as they arrive from
 * the page or from the download correlator, and the steps, login descriptor
 * and map that assembly derives from them.
 */
module Interactions {
  import opened Wrappers

  /** The `action` of a logged interaction. */
  datatype Action = Click | Input | Change | Press | Download

  /** The `attrs` captured from an element: the `getAttribute` results for
      name, type, placeholder, id and role, and the trimmed text. A download
      entry carries none of them. */
  datatype Attrs = Attrs(
    name: Option<string>,
    typ: Option<string>,
    placeholder: Option<string>,
    id: Option<string>,
    role: Option<string>,
    text: Option<string>)

  const NoAttrs := Attrs(None, None, None, None, None, None)

  /** The free-form `meta` object of an interaction, reduced to the two keys
      that assembly reads (`key` and `reqUrl`). */
  datatype Meta = Meta(key: Option<string>, reqUrl: Option<string>)

  /** One entry of the interaction log. `tagName` is already lower-cased by the
      page script; a download entry has the empty tag name. `reqUrl` is the
      top-level field that the host binding attaches. */
  datatype Interaction = Interaction(
    selector: Option<string>,
    action: Action,
    tagName: string,
    attrs: Attrs,
    meta: Option<Meta>,
    network: bool,
    reqUrl: Option<string>,
    timestamp: int,
    url: Option<string>)

  /** The `action` of a saved step. */
  datatype StepAction = ClickStep | UploadStep | FillStep | SelectStep | PressStep | DownloadStep

  /** The `meta` object of a non-download step. `uploadDir` records that the
      key `uploadDir` is present (with value `null`). */
  datatype StepMeta = StepMeta(
    key: Option<string>,
    reqUrl: Option<string>,
    role: Option<string>,
    text: Option<string>,
    networkTriggered: bool,
    uploadDir: bool,
    expectedUrl: Option<string>)

  /** A saved step. `resultSelector` stands for the key `meta.resultSelector`
      that marks the result anchor of a query map; a download step has no
      `key` and no other `meta`. */
  datatype Step = Step(
    action: StepAction,
    selector: string,
    key: Option<string>,
    meta: Option<StepMeta>,
    resultSelector: bool)

  /** The `login` object of a map: all three selectors, or `{}`. */
  datatype Login = Login(username: string, password: string, submit: string) | NoLogin

  /** The saved map (`operacao`, `categoria`, `login`, `steps`, `logout`). */
  datatype MapDoc = MapDoc(
    operation: Option<string>,
    category: Option<string>,
    login: Login,
    steps: seq<Step>,
    logout: Option<string>)
}
