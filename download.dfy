/**
 * downloadArchive's page loop: fetch a page of entries for the current
 * cursor, write them, then stop, complete or fetch the next page. The
 * service's replies are given as a script, one per fetch; a fetch past the
 * end of the script is a fetch that threw.
 */
module Download {
  import opened Types
  import opened SyncApi
  import opened Store
  import opened Upsert
  import opened Engine

  /** The graph and the plugin settings the loop writes. */
  datatype SyncState = SyncState(db: Graph, token: string, lastCursor: string, lastSyncFailed: bool)

  /** How the loop ended: a failed request, no new cursor, or completion
      (which also acknowledges the sync to the service). */
  datatype Stop = Failed(msg: string) | CaughtUp | Completed

  /** The end state, how the loop ended, and the cursor of each fetch in order. */
  datatype Sync = Sync(st: SyncState, stop: Stop, sent: seq<string>)

  /** Everything the loop reads but does not change. `debug` is IS_DEBUG. */
  datatype SyncContext = SyncContext(df: string, cfg: ExportConfig, tpl: Templates, h: Helpers, debug: bool)

  type Reply = Option<HttpResponse<DownloadRet>>

  /** One page either ends the loop or continues it from a new cursor. */
  datatype PageOutcome = Halt(st: SyncState, stop: Stop) | Next(st: SyncState, cursor: string)

  /** One call of downloadArchive, up to its recursive call. */
  function PageStep(st: SyncState, cursor: string, reply: Reply, ctx: SyncContext): (r: PageOutcome)
    requires Valid(st.db)
    ensures Valid(r.st.db)
    ensures r.Next? ==> r.cursor != "" && r.cursor != cursor
  {
    if reply.None? || !reply.value.ok then Halt(st, Failed(GetErrorMessageFromResponse(reply)))
    else
      var status := StatusOf(reply.value.body);
      var checkRet := CheckResponseBody(status);
      if !checkRet.isOk then
        Halt(if ClearsToken(status) then st.(token := "") else st, Failed(checkRet.msg))
      else
        var downloadRet := reply.value.body.value.data;
        var batch := Batch(st.db, downloadRet.notes, ctx.df, ctx.cfg, ctx.tpl, ctx.h);
        var written := st.(db := batch.db);
        var isCompleted := |downloadRet.notes| == 0 || ctx.debug;
        var next := GetLastCursor(downloadRet.lastCursor2, cursor);
        if next == "" || next == cursor then Halt(written, CaughtUp)
        else if isCompleted then Halt(written.(lastCursor := next, lastSyncFailed := false), Completed)
        else Next(written.(lastCursor := next), next)
  }

  /** downloadArchive and its recursion over the pages. */
  function Download(st: SyncState, cursor: string, replies: seq<Reply>, ctx: SyncContext): (r: Sync)
    requires Valid(st.db)
    ensures Valid(r.st.db)
    decreases |replies|
  {
    if replies == [] then Sync(st, Failed(GetErrorMessageFromResponse<DownloadRet>(None)), [cursor])
    else
      match PageStep(st, cursor, replies[0], ctx)
      case Halt(st', stop) => Sync(st', stop, [cursor])
      case Next(st', next) =>
        var rest := Download(st', next, replies[1..], ctx);
        Sync(rest.st, rest.stop, [cursor] + rest.sent)
  }

  // ---- Properties of the page loop ----

  /** Every fetch after the first sends a non-empty cursor different from the
      one before it. */
  lemma {:induction false} CursorsAdvance(st: SyncState, cursor: string, replies: seq<Reply>, ctx: SyncContext)
    requires Valid(st.db)
    ensures var s := Download(st, cursor, replies, ctx).sent;
            && 1 <= |s| <= |replies| + 1 && s[0] == cursor
            && forall i :: 0 < i < |s| ==> s[i] != "" && s[i] != s[i - 1]
    decreases |replies|
  {
    if replies != [] {
      var step := PageStep(st, cursor, replies[0], ctx);
      if step.Next? {
        CursorsAdvance(step.st, step.cursor, replies[1..], ctx);
        var s := Download(st, cursor, replies, ctx).sent;
        var rest := Download(step.st, step.cursor, replies[1..], ctx).sent;
        assert s == [cursor] + rest;
        forall i | 0 < i < |s|
          ensures s[i] != "" && s[i] != s[i - 1]
        {
          assert s[i] == rest[i - 1];
          if i > 1 {
            assert s[i - 1] == rest[i - 2];
          }
        }
      }
    }
  }

  /** The reply that makes the loop fetch again from `next`: a successful
      envelope with entries, debug off, and a new non-empty cursor. */
  predicate Continues(reply: Reply, cursor: string, next: string, debug: bool) {
    && reply.Some? && reply.value.ok && reply.value.body.Some?
    && reply.value.body.value.status.code == 1
    && |reply.value.body.value.data.notes| > 0 && !debug
    && GetLastCursor(reply.value.body.value.data.lastCursor2, cursor) == next
    && next != "" && next != cursor
  }

  /** Each fetch but the last is followed by one from the cursor its reply continued to. */
  predicate ContinuesAll(replies: seq<Reply>, sent: seq<string>, debug: bool) {
    forall i :: 0 <= i && i + 1 < |sent| ==> ContinuesAt(replies, sent, i, debug)
  }

  predicate ContinuesAt(replies: seq<Reply>, sent: seq<string>, i: nat, debug: bool)
    requires i + 1 < |sent|
  {
    i < |replies| && Continues(replies[i], sent[i], sent[i + 1], debug)
  }

  /** A page continues the loop only on a reply that continues it. */
  lemma NextContinues(st: SyncState, cursor: string, reply: Reply, ctx: SyncContext)
    requires Valid(st.db) && PageStep(st, cursor, reply, ctx).Next?
    ensures Continues(reply, cursor, PageStep(st, cursor, reply, ctx).cursor, ctx.debug)
  {
  }

  /** Fetch i + 1 happens only when reply i continues from cursor i to cursor i + 1. */
  lemma {:induction false} FetchesOnlyOnContinue(st: SyncState, cursor: string, replies: seq<Reply>, ctx: SyncContext)
    requires Valid(st.db)
    ensures ContinuesAll(replies, Download(st, cursor, replies, ctx).sent, ctx.debug)
    decreases |replies|
  {
    if replies != [] {
      var step := PageStep(st, cursor, replies[0], ctx);
      if step.Next? {
        NextContinues(st, cursor, replies[0], ctx);
        FetchesOnlyOnContinue(step.st, step.cursor, replies[1..], ctx);
        CursorsAdvance(step.st, step.cursor, replies[1..], ctx);
        var s := Download(st, cursor, replies, ctx).sent;
        var rest := Download(step.st, step.cursor, replies[1..], ctx).sent;
        assert s == [cursor] + rest;
        forall i | 0 <= i && i + 1 < |s|
          ensures ContinuesAt(replies, s, i, ctx.debug)
        {
          if i > 0 {
            assert ContinuesAt(replies[1..], rest, i - 1, ctx.debug);
            assert replies[i] == replies[1..][i - 1];
            assert s[i] == rest[i - 1] && s[i + 1] == rest[i];
          } else {
            assert s[1] == rest[0] == step.cursor;
          }
        }
      }
    }
  }

  /** The reply to the last fetch of a run that sent `sent`; None when that
      fetch ran past the end of the script. */
  function LastReply(replies: seq<Reply>, sent: seq<string>): Reply {
    if 0 < |sent| <= |replies| then replies[|sent| - 1] else None
  }

  /** What the loop leaves in the settings: the saved cursor is the last one
      sent unless the loop completed, in which case it is the one the last
      reply carried; the failure flag is cleared only on completion; the token
      is cleared exactly when the last reply's envelope rejects it, and that
      reply ends the loop in failure. */
  lemma {:induction false} SettingsAfterSync(st: SyncState, cursor: string, replies: seq<Reply>, ctx: SyncContext)
    requires Valid(st.db)
    ensures var r := Download(st, cursor, replies, ctx);
            var last := LastReply(replies, r.sent);
            && (!r.stop.Completed? ==> r.st.lastCursor == (if |r.sent| > 1 then r.sent[|r.sent| - 1] else st.lastCursor))
            && (r.stop.Completed? ==> last.Some? && last.value.body.Some? &&
                                      r.st.lastCursor == GetLastCursor(last.value.body.value.data.lastCursor2, r.sent[|r.sent| - 1]) &&
                                      r.st.lastCursor != "" && r.st.lastCursor != r.sent[|r.sent| - 1])
            && r.st.lastSyncFailed == (if r.stop.Completed? then false else st.lastSyncFailed)
            && r.st.token == (if RejectsToken(last) then "" else st.token)
            && (RejectsToken(last) ==> r.stop.Failed?)
    decreases |replies|
  {
    if replies != [] {
      var step := PageStep(st, cursor, replies[0], ctx);
      if step.Next? {
        SettingsAfterSync(step.st, step.cursor, replies[1..], ctx);
        CursorsAdvance(step.st, step.cursor, replies[1..], ctx);
        var r := Download(st, cursor, replies, ctx);
        var rest := Download(step.st, step.cursor, replies[1..], ctx);
        assert r.sent == [cursor] + rest.sent;
        assert r.sent[|r.sent| - 1] == rest.sent[|rest.sent| - 1];
        assert LastReply(replies, r.sent) == LastReply(replies[1..], rest.sent);
      } else {
        if RejectsToken(replies[0]) {
          ClearsTokenOnlyOnFailure(StatusOf(replies[0].value.body));
        }
      }
    }
  }

  /** A successful reply carrying `notes` and the cursor `next`. */
  function PageReply(notes: seq<NoteEntry>, next: string): Reply {
    Some(HttpResponse(true, 200, "OK", Some(Envelope(ApiStatus(1, ""), DownloadRet(notes, next)))))
  }

  /** A service that hands back the same cursor twice is asked exactly twice,
      whatever it would answer afterwards, and the cursor it repeated is saved. */
  lemma SameCursorTwice(st: SyncState, c0: string, c1: string, notes1: seq<NoteEntry>, notes2: seq<NoteEntry>, rest: seq<Reply>, ctx: SyncContext)
    requires Valid(st.db)
    requires c1 != "" && c1 != c0 && |notes1| > 0 && !ctx.debug
    ensures var r := Download(st, c0, [PageReply(notes1, c1), PageReply(notes2, c1)] + rest, ctx);
            r.sent == [c0, c1] && r.stop == CaughtUp && r.st.lastCursor == c1
  {
    var replies := [PageReply(notes1, c1), PageReply(notes2, c1)] + rest;
    var step := PageStep(st, c0, replies[0], ctx);
    assert step.Next? && step.cursor == c1 && step.st.lastCursor == c1;
    assert replies[1..][0] == PageReply(notes2, c1);
    assert PageStep(step.st, c1, replies[1..][0], ctx).Halt?;
  }

  /** A page with no entries and a new cursor completes the sync after one fetch. */
  lemma EmptyPageCompletes(st: SyncState, c0: string, c1: string, rest: seq<Reply>, ctx: SyncContext)
    requires Valid(st.db)
    requires c1 != "" && c1 != c0
    ensures var r := Download(st, c0, [PageReply([], c1)] + rest, ctx);
            r.sent == [c0] && r.stop == Completed && r.st.lastCursor == c1 && !r.st.lastSyncFailed &&
            r.st.db == st.db
  {
    assert ([PageReply([], c1)] + rest)[0] == PageReply([], c1);
  }

  // ---- The loop as the plugin runs it ----

  function StateOf(host: Host): SyncState
    reads host
  {
    SyncState(host.Snapshot(), host.token, host.lastCursor, host.lastSyncFailed)
  }

  /** Download, one page further. */
  lemma DownloadStep(st: SyncState, cursor: string, replies: seq<Reply>, k: nat, ctx: SyncContext)
    requires Valid(st.db) && k <= |replies|
    ensures var reply := if k < |replies| then replies[k] else None;
            var step := PageStep(st, cursor, reply, ctx);
            var whole := Download(st, cursor, replies[k..], ctx);
            && (step.Halt? ==> whole == Sync(step.st, step.stop, [cursor]))
            && (step.Next? ==>
                  (k < |replies| &&
                   var rest := Download(step.st, step.cursor, replies[k + 1..], ctx);
                   whole == Sync(rest.st, rest.stop, [cursor] + rest.sent)))
  {
    if k < |replies| {
      assert replies[k..][0] == replies[k];
      assert replies[k..][1..] == replies[k + 1..];
    }
  }

  /** One fetch and what follows it, up to the recursive call; `halt` is
      None when the loop goes on from `next`. */
  method FetchPage(host: Host, cursor: string, response: Reply, ctx: SyncContext)
    returns (halt: Option<Stop>, next: string)
    modifies host
    requires Valid(host.Snapshot())
    ensures var r := PageStep(old(StateOf(host)), cursor, response, ctx);
            StateOf(host) == r.st && (r.Halt? <==> halt.Some?) &&
            (r.Halt? ==> halt.value == r.stop) && (r.Next? ==> next == r.cursor)
  {
    next := cursor;
    if response.None? || !response.value.ok {
      return Some(Failed(GetErrorMessageFromResponse(response))), next;
    }
    var status := StatusOf(response.value.body);
    var checkRet := CheckResponseBody(status);
    if !checkRet.isOk {
      if ClearsToken(status) {
        host.SetToken("");
      }
      return Some(Failed(checkRet.msg)), next;
    }
    var downloadRet := response.value.body.value.data;
    var entries := downloadRet.notes;
    var oks, lookups := ProcessEntries(host, entries, ctx.df, ctx.cfg, ctx.tpl, ctx.h);
    var isCompleted := |entries| == 0 || ctx.debug;
    var tmpLastCursor2 := GetLastCursor(downloadRet.lastCursor2, cursor);
    if tmpLastCursor2 == "" || cursor == tmpLastCursor2 {
      return Some(CaughtUp), next;
    }
    host.SetLastCursor(tmpLastCursor2);
    if isCompleted {
      host.SetLastSyncFailed(false);
      return Some(Completed), next;
    }
    next := tmpLastCursor2;
    halt := None;
  }

  /** The loop state: the whole run is the cursors sent so far followed by
      the run from the current cursor on the remaining replies. */
  predicate Resumes(whole: Sync, sent: seq<string>, rest: Sync) {
    whole == Sync(rest.st, rest.stop, sent + rest.sent)
  }

  /** downloadArchive with its tail recursion written as a loop. */
  method DownloadArchive(host: Host, lastCursor2: string, replies: seq<Reply>, ctx: SyncContext)
    returns (stop: Stop, sent: seq<string>)
    modifies host
    requires Valid(host.Snapshot())
    ensures var r := Download(old(StateOf(host)), lastCursor2, replies, ctx);
            StateOf(host) == r.st && stop == r.stop && sent == r.sent
  {
    ghost var whole := Download(StateOf(host), lastCursor2, replies, ctx);
    var cursor := lastCursor2;
    var k := 0;
    sent := [];
    while true
      invariant k <= |replies| && Valid(host.Snapshot())
      invariant Resumes(whole, sent, Download(StateOf(host), cursor, replies[k..], ctx))
      decreases |replies| - k
    {
      DownloadStep(StateOf(host), cursor, replies, k, ctx);
      var response: Reply := if k < |replies| then replies[k] else None;
      var halt, next := FetchPage(host, cursor, response, ctx);
      if halt.Some? {
        stop := halt.value;
        sent := sent + [cursor];
        return;
      }
      sent := sent + [cursor];
      cursor := next;
      k := k + 1;
    }
  }
}
