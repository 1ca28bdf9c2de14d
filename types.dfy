/**
 * The shapes of the data the plugin receives from the sync service and
 * the abstract collaborators it calls (template rendering, date and page-name
 * formatting). Field names follow the service's JSON where the source uses them.
 */
module Types {

  datatype Option<+T> = None | Some(value: T)

  /** A block property value: the plugin writes strings, booleans and integers. */
  datatype PropValue = PStr(s: string) | PBool(b: bool) | PInt(n: int)

  /** One excerpt of a synced page. An empty string stands for a missing field,
      a zero slotId for a missing slot. */
  datatype HighlightInfo = HighlightInfo(
    note: string,
    imageUrl: string,
    annonation: string,
    color: string,
    slotId: int,
    refid: string,
    refurl: string)

  /** One synced web page. `highlights` is None when the service sent no list. */
  datatype NoteEntry = NoteEntry(
    noteIdX: string,
    title: string,
    url: string,
    wucaiurl: string,
    createAt: int,
    updateAt: int,
    pageNote: string,
    tags: seq<string>,
    highlights: Option<seq<HighlightInfo>>)

  /** The export configuration as the service sends it: every field may be missing. */
  datatype RawConfig = RawConfig(
    logseqSplitTemplate: Option<string>,
    logseqPageAddToJournals: Option<int>,
    logseqPageNoteAsAttr: Option<int>,
    logseqAnnoAsAttr: Option<int>,
    logseqQuery: Option<string>,
    lsqtt: Option<string>,
    lsqat: Option<string>,
    lsqht: Option<string>,
    lsqant: Option<string>)

  /** The export configuration once the defaults have been applied. */
  datatype ExportConfig = ExportConfig(
    logseqSplitTemplate: string,
    logseqPageAddToJournals: int,
    logseqPageNoteAsAttr: int,
    logseqAnnoAsAttr: int,
    logseqQuery: string,
    lsqtt: string,
    lsqat: string,
    lsqht: string,
    lsqant: string)

  /** A named template; `render` says whether it holds mustache tags. */
  datatype Template = Template(name: string, value: string, render: bool)

  datatype Templates = Templates(
    titleTemplate: Template,
    attrTemplate: seq<Template>,
    highlightTemplate: Template,
    annoTemplate: Template)

  /** The envelope fields every service reply carries; "" stands for a missing message. */
  datatype ApiStatus = ApiStatus(code: int, message: string)
  datatype Envelope<T> = Envelope(status: ApiStatus, data: T)

  /** An HTTP reply; `body` is None when the JSON body is null. */
  datatype HttpResponse<T> = HttpResponse(ok: bool, status: int, statusText: string, body: Option<Envelope<T>>)

  datatype DownloadRet = DownloadRet(notes: seq<NoteEntry>, lastCursor2: string)
  datatype InitRet = InitRet(lastCursor2: string, taskStatus: string, exportConfig: Option<RawConfig>)

  datatype ResponseCheckRet = ResponseCheckRet(isOk: bool, msg: string, errCode: int)

  /** The values a template is rendered against. */
  type View = map<string, string>

  /** The collaborators whose code is not part of this model, as uninterpreted
      functions. `renderTemplate` yields None where the template engine throws. */
  datatype Helpers = Helpers(
    generatePageName: (string, int) -> string,
    formatDate: (int, string) -> string,
    formatTitle: string -> string,
    formatContent: string -> string,
    renderTemplate: (string, View) -> Option<string>,
    getHighlightUrl: (string, string) -> string,
    parserAttrTemplate: string -> seq<Template>,
    preParserTemplate: Templates -> (Templates, string))
}
