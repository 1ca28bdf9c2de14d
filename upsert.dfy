/**
 * What downloadArchive does with one synced page: resolve its Logseq page,
 * create or update the record block, then create each highlight block that is
 * not there yet and attach its annotation.
 */
module Upsert {
  import opened Types
  import opened Decimal
  import opened Store
  import opened EntryBlock

  /** A property map's entry, as `properties[key]` reads it. */
  function Get(props: map<string, PropValue>, key: string): Option<PropValue> {
    if key in props then Some(props[key]) else None
  }

  /** The number JavaScript's loose comparison reads a digit string (or the
      empty string) as. */
  function LooseNumber(s: string): Option<int> {
    if s == "" then Some(0) else if IsDigits(s) then Some(DigitsValue(s)) else None
  }

  /** `prior == text` under JavaScript's loose equality, for the values a
      property can hold; a missing property equals no string. */
  predicate LooseEq(prior: Option<PropValue>, text: string) {
    match prior
    case None => false
    case Some(PStr(t)) => t == text
    case Some(PInt(n)) => LooseNumber(text) == Some(n)
    case Some(PBool(b)) => LooseNumber(text) == Some(if b then 1 else 0)
  }

  // ---- Highlight text ----

  /** The view a highlight template is rendered against. */
  function HighlightView(entry: NoteEntry, light: HighlightInfo, h: Helpers): View {
    map[
      "refid" := light.refid,
      "refurl" := h.getHighlightUrl(entry.url, light.refurl),
      "note" := h.formatContent(light.note),
      "slotid" := IntToString(if light.slotId != 0 then light.slotId else 1),
      "color" := light.color]
  }

  /** The content of a highlight block; None when the template throws. */
  function NoteCore(entry: NoteEntry, light: HighlightInfo, tpl: Templates, h: Helpers): (r: Option<string>)
    ensures light.imageUrl != "" ==> r == Some("![](" + light.imageUrl + ")")
    ensures light.imageUrl == "" ==> r == h.renderTemplate(tpl.highlightTemplate.value, HighlightView(entry, light, h))
  {
    if light.imageUrl != "" then Some("![](" + light.imageUrl + ")")
    else h.renderTemplate(tpl.highlightTemplate.value, HighlightView(entry, light, h))
  }

  /** An image highlight's block does not depend on its note, colour or slot. */
  lemma ImageIgnoresText(entry: NoteEntry, a: HighlightInfo, b: HighlightInfo, tpl: Templates, h: Helpers)
    requires a.imageUrl != "" && a.imageUrl == b.imageUrl
    ensures NoteCore(entry, a, tpl, h) == NoteCore(entry, b, tpl, h)
    ensures NoteCore(entry, a, tpl, h).Some?
  {
  }

  /** The page note as the highlight it is written as: a text highlight with
      no annotation, whose note is formatted twice (once when it is built and
      once more in the highlight view) and which renders with slot 1. */
  function PageNoteHighlight(entry: NoteEntry, h: Helpers): (light: HighlightInfo)
    ensures light.imageUrl == "" && light.annonation == ""
    ensures var view := HighlightView(entry, light, h);
            view["note"] == h.formatContent(h.formatContent(entry.pageNote)) && view["slotid"] == "1"
  {
    HighlightInfo(h.formatContent(entry.pageNote), "", "", "", 0, "", "")
  }

  predicate PageNoteAsHighlight(entry: NoteEntry, cfg: ExportConfig) {
    entry.pageNote != "" && cfg.logseqPageNoteAsAttr != 1
  }

  /** The highlight list as main.tsx builds it: the page note is unshifted
      before a missing list is replaced by the empty one, so a page with a page
      note and no highlight list throws (None). */
  function HighlightsAsWritten(entry: NoteEntry, cfg: ExportConfig, h: Helpers): (r: Option<seq<HighlightInfo>>)
    ensures r.None? <==> PageNoteAsHighlight(entry, cfg) && entry.highlights.None?
  {
    if PageNoteAsHighlight(entry, cfg) then
      if entry.highlights.None? then None else Some([PageNoteHighlight(entry, h)] + entry.highlights.value)
    else Some(if entry.highlights.Some? then entry.highlights.value else [])
  }

  /** The highlight list with the empty default applied first. */
  function HighlightsToWrite(entry: NoteEntry, cfg: ExportConfig, h: Helpers): (r: seq<HighlightInfo>)
    ensures var lights := if entry.highlights.Some? then entry.highlights.value else [];
            |r| == |lights| + (if PageNoteAsHighlight(entry, cfg) then 1 else 0) && r[|r| - |lights|..] == lights
  {
    var lights := if entry.highlights.Some? then entry.highlights.value else [];
    if PageNoteAsHighlight(entry, cfg) then [PageNoteHighlight(entry, h)] + lights else lights
  }

  /** The page note comes first exactly when it is not written as an attribute,
      and the service's highlights follow in order. */
  lemma PageNoteFirst(entry: NoteEntry, cfg: ExportConfig, h: Helpers)
    ensures var lights := if entry.highlights.Some? then entry.highlights.value else [];
            var hl := HighlightsToWrite(entry, cfg, h);
            && (PageNoteAsHighlight(entry, cfg) ==> |hl| == |lights| + 1 && hl[0] == PageNoteHighlight(entry, h) && hl[1..] == lights)
            && (!PageNoteAsHighlight(entry, cfg) ==> hl == lights)
  {
  }

  /** Where the code as written does not throw, it builds the same list. */
  lemma AsWrittenAgrees(entry: NoteEntry, cfg: ExportConfig, h: Helpers)
    requires HighlightsAsWritten(entry, cfg, h).Some?
    ensures HighlightsAsWritten(entry, cfg, h).value == HighlightsToWrite(entry, cfg, h)
  {
  }

  /** A page with a page note and no highlight list: as written the entry
      throws and its page note is never written; the corrected list holds it. */
  lemma PageNoteLostAsWritten(entry: NoteEntry, cfg: ExportConfig, h: Helpers)
    requires entry.highlights.None? && PageNoteAsHighlight(entry, cfg)
    ensures HighlightsAsWritten(entry, cfg, h).None?
    ensures HighlightsToWrite(entry, cfg, h) == [PageNoteHighlight(entry, h)]
  {
  }

  // ---- The block writes ----

  datatype Placed = Placed(db: Graph, block: nat)

  /** Find a child of `parent` containing `text`, or insert one holding it. */
  function FindOrInsert(db: Graph, parent: nat, text: string): (r: Placed)
    requires parent < |db.blocks|
    ensures r.block < |r.db.blocks| && ChildMatches(r.db.blocks[r.block], parent, text)
    ensures FindChild(db, parent, text).Some? ==> r == Placed(db, FindChild(db, parent, text).value)
    ensures FindChild(db, parent, text).None? ==>
              r.block == |db.blocks| && r.db == Insert(db, BlockRef(parent), text, map[])
  {
    var found := FindChild(db, parent, text);
    if found.Some? then Placed(db, found.value)
    else
      ContainsSelf(text);
      Placed(Insert(db, BlockRef(parent), text, map[]), |db.blocks|)
  }

  /** The annotation-as-attribute write: `note` is set only when the old value
      differs from the annotation. */
  function WriteNote(db: Graph, i: nat, text: string): (r: Graph)
    requires i < |db.blocks|
    ensures r.pages == db.pages && r.pageCount == db.pageCount && |r.blocks| == |db.blocks|
    ensures forall j :: 0 <= j < |db.blocks| && j != i ==> r.blocks[j] == db.blocks[j]
    ensures r.blocks[i] == db.blocks[i].(props := r.blocks[i].props)
    ensures forall k :: k != "note" ==> Get(r.blocks[i].props, k) == Get(db.blocks[i].props, k)
    ensures LooseEq(Get(r.blocks[i].props, "note"), text)
  {
    if LooseEq(Get(db.blocks[i].props, "note"), text) then db else SetProp(db, i, "note", PStr(text))
  }

  /** The graph is left as it is exactly when the old value loosely equals the
      annotation, and afterwards it does. */
  lemma WriteNoteOnlyIfDifferent(db: Graph, i: nat, text: string)
    requires i < |db.blocks|
    ensures WriteNote(db, i, text) == db <==> LooseEq(Get(db.blocks[i].props, "note"), text)
    ensures LooseEq(Get(WriteNote(db, i, text).blocks[i].props, "note"), text)
  {
    if !LooseEq(Get(db.blocks[i].props, "note"), text) {
      var r := SetProp(db, i, "note", PStr(text));
      assert Get(r.blocks[i].props, "note") != Get(db.blocks[i].props, "note");
    }
  }

  /** An annotation write: which block, and the annotation text. */
  datatype Write = Write(block: nat, text: string)

  /** The graph after some writes; `ok` is false once a template throws. */
  datatype Run = Run(db: Graph, ok: bool, writes: seq<Write>)

  /** One highlight: its block under the record, then its annotation. */
  function HighlightStep(db: Graph, rec: nat, entry: NoteEntry, light: HighlightInfo, cfg: ExportConfig, tpl: Templates, h: Helpers): (r: Run)
    requires rec < |db.blocks|
    ensures |db.blocks| <= |r.db.blocks| && r.db.pages == db.pages && r.db.pageCount == db.pageCount
  {
    var core := NoteCore(entry, light, tpl, h);
    if core.None? then Run(db, false, [])
    else
      var hb := FindOrInsert(db, rec, core.value);
      if light.annonation == "" then Run(hb.db, true, [])
      else
        var anno := h.formatContent(light.annonation);
        if cfg.logseqAnnoAsAttr == 1 then Run(WriteNote(hb.db, hb.block, anno), true, [Write(hb.block, anno)])
        else Run(FindOrInsert(hb.db, hb.block, anno).db, true, [])
  }

  /** The highlight loop; it stops at the first highlight that throws. */
  function Highlights(db: Graph, rec: nat, entry: NoteEntry, lights: seq<HighlightInfo>, cfg: ExportConfig, tpl: Templates, h: Helpers): (r: Run)
    requires rec < |db.blocks|
    ensures |db.blocks| <= |r.db.blocks| && r.db.pages == db.pages && r.db.pageCount == db.pageCount
  {
    if lights == [] then Run(db, true, [])
    else
      var done := Highlights(db, rec, entry, lights[..|lights| - 1], cfg, tpl, h);
      if !done.ok then done
      else
        var step := HighlightStep(done.db, rec, entry, lights[|lights| - 1], cfg, tpl, h);
        Run(step.db, step.ok, done.writes + step.writes)
  }

  /** Once a highlight throws, the rest are not processed. */
  lemma {:induction false} HighlightsStop(db: Graph, rec: nat, entry: NoteEntry, lights: seq<HighlightInfo>, i: nat, cfg: ExportConfig, tpl: Templates, h: Helpers)
    requires rec < |db.blocks| && i <= |lights|
    requires !Highlights(db, rec, entry, lights[..i], cfg, tpl, h).ok
    ensures Highlights(db, rec, entry, lights, cfg, tpl, h) == Highlights(db, rec, entry, lights[..i], cfg, tpl, h)
    decreases |lights| - i
  {
    if i < |lights| {
      assert lights[..i + 1][..i] == lights[..i];
      HighlightsStop(db, rec, entry, lights, i + 1, cfg, tpl, h);
    } else {
      assert lights[..i] == lights;
    }
  }

  /** The record phase: the record found on the page has its properties
      upserted, or a record block is inserted at the page's top level. */
  function PlaceRecord(db: Graph, page: nat, noteIdX: string, nb: NewBlock): (r: Placed)
    requires page < db.pageCount
    ensures r.db.pages == db.pages && r.block < |r.db.blocks|
  {
    var found := FindRecord(db, page, noteIdX);
    if found.Some? then Placed(UpsertProps(db, found.value, nb.properties), found.value)
    else Placed(Insert(db, PageRef(page), nb.title, nb.properties), |db.blocks|)
  }

  /** A record block is inserted only when no block of the page carries the
      note id; otherwise the found block is updated in place. */
  lemma PlaceRecordInsertsOnlyIfAbsent(db: Graph, page: nat, noteIdX: string, nb: NewBlock)
    requires page < db.pageCount
    ensures var r := PlaceRecord(db, page, noteIdX, nb);
            && (|r.db.blocks| > |db.blocks| <==> FindRecord(db, page, noteIdX).None?)
            && r.block < |r.db.blocks| && r.db.blocks[r.block].page == page
            && (FindRecord(db, page, noteIdX).Some? ==>
                  |r.db.blocks| == |db.blocks| && r.block == FindRecord(db, page, noteIdX).value &&
                  r.db.blocks[r.block].props == db.blocks[r.block].props + nb.properties &&
                  forall j :: 0 <= j < |db.blocks| && j != r.block ==> r.db.blocks[j] == db.blocks[j])
            && (FindRecord(db, page, noteIdX).None? ==>
                  r.db.blocks == db.blocks + [Block(page, PageRef(page), nb.title, nb.properties)])
  {
  }

  /** The result of one entry: the graph, and whether it completed without throwing. */
  datatype EntryResult = EntryResult(db: Graph, ok: bool)

  /** One entry of the page loop (the body of its try block). */
  function UpsertEntry(db: Graph, entry: NoteEntry, df: string, cfg: ExportConfig, tpl: Templates, h: Helpers): (r: EntryResult)
    requires Valid(db)
    ensures Valid(r.db)
  {
    var pr := ResolvePage(db, h.generatePageName(cfg.logseqSplitTemplate, entry.createAt));
    ResolvePageValid(db, h.generatePageName(cfg.logseqSplitTemplate, entry.createAt));
    UpsertOnPage(pr.db, pr.page, entry, df, cfg, tpl, h)
  }

  /** The entry's writes on its page as main.tsx makes them: the record
      phase, then the highlight list built as written, which throws (None)
      after the record is written, then the highlight loop. */
  function UpsertOnPage(db: Graph, page: nat, entry: NoteEntry, df: string, cfg: ExportConfig, tpl: Templates, h: Helpers): (r: EntryResult)
    requires Valid(db) && page < db.pageCount
    ensures Valid(r.db) && r.db.pages == db.pages
  {
    var nb := NewEntryBlock(entry, df, cfg, tpl, h);
    if nb.None? then EntryResult(db, false)
    else
      var rec := PlaceRecord(db, page, entry.noteIdX, nb.value);
      PlaceRecordValid(db, page, entry.noteIdX, nb.value);
      var lights := HighlightsAsWritten(entry, cfg, h);
      if lights.None? then EntryResult(rec.db, false)
      else
        HighlightsValid(rec.db, rec.block, entry, lights.value, cfg, tpl, h);
        var run := Highlights(rec.db, rec.block, entry, lights.value, cfg, tpl, h);
        EntryResult(run.db, run.ok)
  }

  /** The same writes with the highlight list built in the corrected order. */
  function UpsertOnPageCorrected(db: Graph, page: nat, entry: NoteEntry, df: string, cfg: ExportConfig, tpl: Templates, h: Helpers): (r: EntryResult)
    requires Valid(db) && page < db.pageCount
    ensures Valid(r.db) && r.db.pages == db.pages
  {
    var nb := NewEntryBlock(entry, df, cfg, tpl, h);
    if nb.None? then EntryResult(db, false)
    else
      var rec := PlaceRecord(db, page, entry.noteIdX, nb.value);
      PlaceRecordValid(db, page, entry.noteIdX, nb.value);
      var lights := HighlightsToWrite(entry, cfg, h);
      HighlightsValid(rec.db, rec.block, entry, lights, cfg, tpl, h);
      var run := Highlights(rec.db, rec.block, entry, lights, cfg, tpl, h);
      EntryResult(run.db, run.ok)
  }

  /** Where the list as written can be built, both orders write the same. */
  lemma CorrectedOnPageAgrees(db: Graph, page: nat, entry: NoteEntry, df: string, cfg: ExportConfig, tpl: Templates, h: Helpers)
    requires Valid(db) && page < db.pageCount
    requires !(PageNoteAsHighlight(entry, cfg) && entry.highlights.None?)
    ensures UpsertOnPage(db, page, entry, df, cfg, tpl, h) == UpsertOnPageCorrected(db, page, entry, df, cfg, tpl, h)
  {
    AsWrittenAgrees(entry, cfg, h);
  }

  /** A page note to show and no highlight list: as written, the entry throws
      once its record block is written and writes no highlight; corrected, the
      page note is written as its only highlight. */
  lemma PageNoteLostOnPage(db: Graph, page: nat, entry: NoteEntry, df: string, cfg: ExportConfig, tpl: Templates, h: Helpers)
    requires Valid(db) && page < db.pageCount
    requires entry.highlights.None? && PageNoteAsHighlight(entry, cfg)
    requires NewEntryBlock(entry, df, cfg, tpl, h).Some?
    ensures var rec := PlaceRecord(db, page, entry.noteIdX, NewEntryBlock(entry, df, cfg, tpl, h).value);
            var run := Highlights(rec.db, rec.block, entry, [PageNoteHighlight(entry, h)], cfg, tpl, h);
            && UpsertOnPage(db, page, entry, df, cfg, tpl, h) == EntryResult(rec.db, false)
            && UpsertOnPageCorrected(db, page, entry, df, cfg, tpl, h) == EntryResult(run.db, run.ok)
  {
    PageNoteLostAsWritten(entry, cfg, h);
  }

  // ---- Consistency of the graph ----

  lemma FindOrInsertValid(db: Graph, parent: nat, text: string)
    requires Valid(db) && parent < |db.blocks|
    ensures Valid(FindOrInsert(db, parent, text).db)
  {
    if FindChild(db, parent, text).None? {
      InsertValid(db, BlockRef(parent), text, map[]);
    }
  }

  lemma HighlightStepValid(db: Graph, rec: nat, entry: NoteEntry, light: HighlightInfo, cfg: ExportConfig, tpl: Templates, h: Helpers)
    requires Valid(db) && rec < |db.blocks|
    ensures Valid(HighlightStep(db, rec, entry, light, cfg, tpl, h).db)
  {
    var core := NoteCore(entry, light, tpl, h);
    if core.Some? {
      var hb := FindOrInsert(db, rec, core.value);
      FindOrInsertValid(db, rec, core.value);
      if light.annonation != "" {
        var anno := h.formatContent(light.annonation);
        if cfg.logseqAnnoAsAttr == 1 {
          if !LooseEq(Get(hb.db.blocks[hb.block].props, "note"), anno) {
            SetPropValid(hb.db, hb.block, "note", PStr(anno));
          }
        } else {
          FindOrInsertValid(hb.db, hb.block, anno);
        }
      }
    }
  }

  lemma {:induction false} HighlightsValid(db: Graph, rec: nat, entry: NoteEntry, lights: seq<HighlightInfo>, cfg: ExportConfig, tpl: Templates, h: Helpers)
    requires Valid(db) && rec < |db.blocks|
    ensures Valid(Highlights(db, rec, entry, lights, cfg, tpl, h).db)
  {
    if lights != [] {
      var done := Highlights(db, rec, entry, lights[..|lights| - 1], cfg, tpl, h);
      HighlightsValid(db, rec, entry, lights[..|lights| - 1], cfg, tpl, h);
      if done.ok {
        HighlightStepValid(done.db, rec, entry, lights[|lights| - 1], cfg, tpl, h);
      }
    }
  }

  lemma PlaceRecordValid(db: Graph, page: nat, noteIdX: string, nb: NewBlock)
    requires Valid(db) && page < db.pageCount
    ensures Valid(PlaceRecord(db, page, noteIdX, nb).db)
  {
    var found := FindRecord(db, page, noteIdX);
    if found.Some? {
      UpsertPropsValid(db, found.value, nb.properties);
    } else {
      InsertValid(db, PageRef(page), nb.title, nb.properties);
    }
  }

  // ---- The entry loop ----

  /** The graph after a batch of entries, and each entry's outcome. */
  datatype BatchResult = BatchResult(db: Graph, oks: seq<bool>)

  /** The entry loop: every entry is processed in turn on the graph the
      previous ones left, whether or not an earlier one threw. */
  function Batch(db: Graph, entries: seq<NoteEntry>, df: string, cfg: ExportConfig, tpl: Templates, h: Helpers): (r: BatchResult)
    requires Valid(db)
    ensures Valid(r.db) && |r.oks| == |entries|
  {
    if entries == [] then BatchResult(db, [])
    else
      var done := Batch(db, entries[..|entries| - 1], df, cfg, tpl, h);
      var last := UpsertEntry(done.db, entries[|entries| - 1], df, cfg, tpl, h);
      BatchResult(last.db, done.oks + [last.ok])
  }

  /** The entry loop one entry further. */
  lemma BatchStep(db: Graph, entries: seq<NoteEntry>, i: nat, df: string, cfg: ExportConfig, tpl: Templates, h: Helpers)
    requires Valid(db) && i < |entries|
    ensures var done := Batch(db, entries[..i], df, cfg, tpl, h);
            var last := UpsertEntry(done.db, entries[i], df, cfg, tpl, h);
            Batch(db, entries[..i + 1], df, cfg, tpl, h) == BatchResult(last.db, done.oks + [last.ok])
  {
    assert entries[..i + 1][..i] == entries[..i];
  }

  /** Every entry's outcome is that of processing it on the graph its
      predecessors left: a throwing entry does not stop the ones after it. */
  lemma {:induction false} BatchProcessesEvery(db: Graph, entries: seq<NoteEntry>, df: string, cfg: ExportConfig, tpl: Templates, h: Helpers, i: nat)
    requires Valid(db) && i < |entries|
    ensures var prefix := Batch(db, entries[..i], df, cfg, tpl, h);
            Batch(db, entries, df, cfg, tpl, h).oks[i] == UpsertEntry(prefix.db, entries[i], df, cfg, tpl, h).ok
    decreases |entries|
  {
    var n := |entries| - 1;
    assert entries[..n + 1] == entries;
    if i < n {
      assert entries[..n][..i] == entries[..i];
      assert entries[..n][i] == entries[i];
      BatchStep(db, entries, n, df, cfg, tpl, h);
      BatchProcessesEvery(db, entries[..n], df, cfg, tpl, h, i);
    } else {
      assert entries[..n] == entries[..i];
      BatchStep(db, entries, n, df, cfg, tpl, h);
    }
  }

  /** Entry k taken from the graph `dbs[k]` to `dbs[k + 1]` with outcome `oks[k]`. */
  ghost predicate StepAt(db: Graph, entries: seq<NoteEntry>, k: nat, dbs: seq<Graph>, oks: seq<bool>,
                         df: string, cfg: ExportConfig, tpl: Templates, h: Helpers) {
    && k < |entries| && k + 1 < |dbs| && k < |oks|
    && Valid(dbs[k]) && UpsertEntry(dbs[k], entries[k], df, cfg, tpl, h) == EntryResult(dbs[k + 1], oks[k])
  }

  /** The first `i` entries processed one after the other: `dbs[k]` is the
      graph before entry k and `oks[k]` its outcome. */
  ghost predicate StepsUpTo(db: Graph, entries: seq<NoteEntry>, i: nat, dbs: seq<Graph>, oks: seq<bool>,
                            df: string, cfg: ExportConfig, tpl: Templates, h: Helpers) {
    && i <= |entries| && |dbs| == i + 1 && |oks| == i && dbs[0] == db
    && forall k: nat :: k < i ==> StepAt(db, entries, k, dbs, oks, df, cfg, tpl, h)
  }

  /** One more entry processed extends the chain. */
  lemma StepsExtend(db: Graph, entries: seq<NoteEntry>, i: nat, dbs: seq<Graph>, oks: seq<bool>, next: Graph, ok: bool,
                    df: string, cfg: ExportConfig, tpl: Templates, h: Helpers)
    requires StepsUpTo(db, entries, i, dbs, oks, df, cfg, tpl, h) && i < |entries| && Valid(dbs[i])
    requires UpsertEntry(dbs[i], entries[i], df, cfg, tpl, h) == EntryResult(next, ok)
    ensures StepsUpTo(db, entries, i + 1, dbs + [next], oks + [ok], df, cfg, tpl, h)
  {
    forall k: nat | k < i + 1
      ensures StepAt(db, entries, k, dbs + [next], oks + [ok], df, cfg, tpl, h)
    {
      if k < i {
        assert StepAt(db, entries, k, dbs, oks, df, cfg, tpl, h);
        assert (dbs + [next])[k] == dbs[k] && (dbs + [next])[k + 1] == dbs[k + 1] && (oks + [ok])[k] == oks[k];
      }
    }
  }

  /** A chain of single-entry steps is the entry loop over those entries. */
  lemma {:induction false} StepsAreBatch(db: Graph, entries: seq<NoteEntry>, j: nat, dbs: seq<Graph>, oks: seq<bool>,
                                         df: string, cfg: ExportConfig, tpl: Templates, h: Helpers)
    requires Valid(db) && StepsUpTo(db, entries, |oks|, dbs, oks, df, cfg, tpl, h) && j <= |oks|
    ensures Batch(db, entries[..j], df, cfg, tpl, h) == BatchResult(dbs[j], oks[..j])
  {
    if j == 0 {
      assert entries[..0] == [];
    } else {
      assert entries[..j][..j - 1] == entries[..j - 1];
      assert entries[..j][j - 1] == entries[j - 1];
      assert oks[..j] == oks[..j - 1] + [oks[j - 1]];
      assert StepAt(db, entries, j - 1, dbs, oks, df, cfg, tpl, h);
      StepsAreBatch(db, entries, j - 1, dbs, oks, df, cfg, tpl, h);
      BatchStep(db, entries, j - 1, df, cfg, tpl, h);
    }
  }
}
