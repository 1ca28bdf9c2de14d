/**
 * exportInit: the start of a sync. It refuses to run while the user is on
 * another graph, asks the service where to resume, stops when the service
 * has nothing new, builds the export configuration and templates, and then
 * runs the page loop of downloadArchive from the resumed cursor.
 */
module SyncInit {
  import opened Types
  import opened SyncApi
  import opened ExportDefaults
  import opened Store
  import opened Download

  /** The task statuses under which the service has entries to hand out (STATUS_SUCCESS). */
  const StatusSuccess := ["SYNCING"]

  /** The message shown when the init request itself throws. */
  const InitRequestError := "req export init error"

  /** How exportInit ended. */
  datatype Outcome =
    | GraphChanged
    | InitFailed(msg: string)
    | UpToDate
    | TemplateError(msg: string)
    | Synced(stop: Stop, sent: seq<string>)

  datatype InitResult = InitResult(st: SyncState, outcome: Outcome)

  /** The templates before preParserTemplate: only the attribute template is parsed. */
  function ParsedTemplates(cfg: ExportConfig, h: Helpers): (t: Templates)
    ensures t.titleTemplate == Template("", cfg.lsqtt, false)
    ensures t.attrTemplate == h.parserAttrTemplate(cfg.lsqat)
    ensures t.highlightTemplate == Template("", cfg.lsqht, false)
    ensures t.annoTemplate == Template("", cfg.lsqant, false)
  {
    Templates(Template("", cfg.lsqtt, false), h.parserAttrTemplate(cfg.lsqat),
              Template("", cfg.lsqht, false), Template("", cfg.lsqant, false))
  }

  /** exportInit on the state `st`. `onAnotherGraph` is window.onAnotherGraph,
      `initReply` the reply to the init request (None when it threw) and
      `replies` the replies to the page fetches that follow. */
  function Export(st: SyncState, onAnotherGraph: bool, initReply: Option<HttpResponse<InitRet>>,
                  replies: seq<Reply>, df: string, h: Helpers, debug: bool): (r: InitResult)
    requires Valid(st.db)
    ensures Valid(r.st.db)
    ensures !r.outcome.Synced? ==> r.st.db == st.db
  {
    if onAnotherGraph then InitResult(st.(lastSyncFailed := true), GraphChanged)
    else if initReply.None? then InitResult(st, InitFailed(InitRequestError))
    else if !initReply.value.ok then InitResult(st, InitFailed(""))
    else
      var status := StatusOf(initReply.value.body);
      var checkRet := CheckResponseBody(status);
      if !checkRet.isOk then
        InitResult(if ClearsToken(status) then st.(token := "") else st, InitFailed(checkRet.msg))
      else
        var initRet := initReply.value.body.value.data;
        var lastCursor := GetLastCursor(initRet.lastCursor2, st.lastCursor);
        var saved := if lastCursor != "" then st.(lastCursor := lastCursor) else st;
        if initRet.taskStatus !in StatusSuccess then
          InitResult(saved.(lastSyncFailed := false), UpToDate)
        else
          var cfg := ApplyDefaults(initRet.exportConfig);
          var (tpl, message) := h.preParserTemplate(ParsedTemplates(cfg, h));
          if message != "" then InitResult(saved, TemplateError(message))
          else
            var run := Download.Download(saved, lastCursor, replies, SyncContext(df, cfg, tpl, h, debug));
            InitResult(run.st, Synced(run.stop, run.sent))
  }

  // ---- Properties of exportInit ----

  /** On another graph nothing is asked of the service and only the failure flag is set. */
  lemma AnotherGraphOnlyFlagsFailure(st: SyncState, initReply: Option<HttpResponse<InitRet>>,
                                     replies: seq<Reply>, df: string, h: Helpers, debug: bool)
    requires Valid(st.db)
    ensures var r := Export(st, true, initReply, replies, df, h, debug);
            r.outcome == GraphChanged && r.st == st.(lastSyncFailed := true)
  {
  }

  /** A sync never erases a saved cursor: afterwards the cursor is the one
      saved before, or a non-empty one. */
  lemma SavedCursorNeverErased(st: SyncState, onAnotherGraph: bool, initReply: Option<HttpResponse<InitRet>>,
                               replies: seq<Reply>, df: string, h: Helpers, debug: bool)
    requires Valid(st.db)
    ensures var r := Export(st, onAnotherGraph, initReply, replies, df, h, debug);
            r.st.lastCursor == st.lastCursor || r.st.lastCursor != ""
  {
    var r := Export(st, onAnotherGraph, initReply, replies, df, h, debug);
    if r.outcome.Synced? {
      var initRet := initReply.value.body.value.data;
      var lastCursor := GetLastCursor(initRet.lastCursor2, st.lastCursor);
      var saved := if lastCursor != "" then st.(lastCursor := lastCursor) else st;
      var cfg := ApplyDefaults(initRet.exportConfig);
      var (tpl, message) := h.preParserTemplate(ParsedTemplates(cfg, h));
      var ctx := SyncContext(df, cfg, tpl, h, debug);
      SettingsAfterSync(saved, lastCursor, replies, ctx);
      CursorsAdvance(saved, lastCursor, replies, ctx);
      var run := Download.Download(saved, lastCursor, replies, ctx);
      assert r.st == run.st;
    }
  }

  /** The page loop starts from the cursor the service returned, or the saved
      one when it returned none, and runs with the configuration after defaults. */
  lemma SyncResumesFromInitCursor(st: SyncState, initRet: InitRet, http: int, text: string,
                                  replies: seq<Reply>, df: string, h: Helpers, debug: bool)
    requires Valid(st.db)
    requires initRet.taskStatus == "SYNCING"
    requires h.preParserTemplate(ParsedTemplates(ApplyDefaults(initRet.exportConfig), h)).1 == ""
    ensures var reply := Some(HttpResponse(true, http, text, Some(Envelope(ApiStatus(1, ""), initRet))));
            var r := Export(st, false, reply, replies, df, h, debug);
            var cursor := GetLastCursor(initRet.lastCursor2, st.lastCursor);
            var tpl := h.preParserTemplate(ParsedTemplates(ApplyDefaults(initRet.exportConfig), h)).0;
            var saved := if cursor != "" then st.(lastCursor := cursor) else st;
            var run := Download.Download(saved, cursor, replies, SyncContext(df, ApplyDefaults(initRet.exportConfig), tpl, h, debug));
            r.outcome == Synced(run.stop, run.sent) && r.st == run.st && run.sent[0] == cursor
  {
    var cursor := GetLastCursor(initRet.lastCursor2, st.lastCursor);
    var tpl := h.preParserTemplate(ParsedTemplates(ApplyDefaults(initRet.exportConfig), h)).0;
    var saved := if cursor != "" then st.(lastCursor := cursor) else st;
    CursorsAdvance(saved, cursor, replies, SyncContext(df, ApplyDefaults(initRet.exportConfig), tpl, h, debug));
  }

  /** A service with nothing to sync clears the failure flag and leaves the graph alone. */
  lemma NothingToSyncIsUpToDate(st: SyncState, initReply: Option<HttpResponse<InitRet>>,
                                replies: seq<Reply>, df: string, h: Helpers, debug: bool)
    requires Valid(st.db)
    requires initReply.Some? && initReply.value.ok && initReply.value.body.Some?
    requires initReply.value.body.value.status.code == 1
    requires initReply.value.body.value.data.taskStatus != "SYNCING"
    ensures var r := Export(st, false, initReply, replies, df, h, debug);
            r.outcome == UpToDate && !r.st.lastSyncFailed && r.st.db == st.db && r.st.token == st.token
  {
  }

  /** The token is cleared exactly when the init reply, or the reply to the
      last page fetch, has an envelope that rejects it; otherwise it is kept.
      A rejected init request ends the sync before any page is fetched. */
  lemma TokenKeptUnlessRejected(st: SyncState, onAnotherGraph: bool, initReply: Option<HttpResponse<InitRet>>,
                                replies: seq<Reply>, df: string, h: Helpers, debug: bool)
    requires Valid(st.db)
    ensures var r := Export(st, onAnotherGraph, initReply, replies, df, h, debug);
            var rejected := (!onAnotherGraph && RejectsToken(initReply)) ||
                            (r.outcome.Synced? && RejectsToken(LastReply(replies, r.outcome.sent)));
            && r.st.token == (if rejected then "" else st.token)
            && (!onAnotherGraph && RejectsToken(initReply) ==> r.outcome.InitFailed?)
            && (r.outcome.Synced? && RejectsToken(LastReply(replies, r.outcome.sent)) ==> r.outcome.stop.Failed?)
  {
    if !onAnotherGraph && RejectsToken(initReply) {
      ClearsTokenOnlyOnFailure(StatusOf(initReply.value.body));
    }
    var r := Export(st, onAnotherGraph, initReply, replies, df, h, debug);
    if r.outcome.Synced? {
      var initRet := initReply.value.body.value.data;
      var lastCursor := GetLastCursor(initRet.lastCursor2, st.lastCursor);
      var saved := if lastCursor != "" then st.(lastCursor := lastCursor) else st;
      var cfg := ApplyDefaults(initRet.exportConfig);
      var (tpl, message) := h.preParserTemplate(ParsedTemplates(cfg, h));
      SettingsAfterSync(saved, lastCursor, replies, SyncContext(df, cfg, tpl, h, debug));
    }
  }

  // ---- exportInit as the plugin runs it ----

  /** exportInit on the host: the settings and the graph change as Export says. */
  method ExportInit(host: Host, onAnotherGraph: bool, initReply: Option<HttpResponse<InitRet>>,
                    replies: seq<Reply>, df: string, h: Helpers, debug: bool)
    returns (outcome: Outcome)
    modifies host
    requires Valid(host.Snapshot())
    ensures var r := Export(old(StateOf(host)), onAnotherGraph, initReply, replies, df, h, debug);
            StateOf(host) == r.st && outcome == r.outcome
  {
    if onAnotherGraph {
      host.SetLastSyncFailed(true);
      return GraphChanged;
    }
    var lastCursor2 := host.lastCursor;
    if initReply.None? {
      return InitFailed(InitRequestError);
    }
    if !initReply.value.ok {
      return InitFailed("");
    }
    var status := StatusOf(initReply.value.body);
    var checkRet := CheckResponseBody(status);
    if !checkRet.isOk {
      if ClearsToken(status) {
        host.SetToken("");
      }
      return InitFailed(checkRet.msg);
    }
    var initRet := initReply.value.body.value.data;
    var lastCursor := GetLastCursor(initRet.lastCursor2, lastCursor2);
    if lastCursor != "" {
      host.SetLastCursor(lastCursor);
    }
    if initRet.taskStatus !in StatusSuccess {
      host.SetLastSyncFailed(false);
      return UpToDate;
    }
    var tmpConfig := ApplyDefaults(initRet.exportConfig);
    var (parsedTemplate, message) := h.preParserTemplate(ParsedTemplates(tmpConfig, h));
    if message != "" {
      return TemplateError(message);
    }
    var stop, sent := DownloadArchive(host, lastCursor, replies, SyncContext(df, tmpConfig, parsedTemplate, h, debug));
    return Synced(stop, sent);
  }
}
