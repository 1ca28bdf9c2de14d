/**
 * Syncing the same page twice leaves the graph as the first sync left it:
 * every lookup of the second run finds the block the first run found or
 * created, so nothing is inserted again, and every annotation write of the
 * second run leaves the value the first run wrote.
 */
module Idempotence {
  import opened Types
  import opened Store
  import opened EntryBlock
  import opened Upsert

  // ---- Structure that later writes keep ----

  /** Two blocks agree on everything a lookup reads. */
  predicate Same(x: Block, y: Block) {
    x.page == y.page && x.parent == y.parent && x.content == y.content &&
    Get(x.props, "noteid") == Get(y.props, "noteid")
  }

  /** `b` has the pages of `a` and extends its blocks, each one unchanged as
      far as the lookups can tell. */
  predicate Ext(a: Graph, b: Graph) {
    && a.pages == b.pages && a.pageCount == b.pageCount
    && |a.blocks| <= |b.blocks|
    && forall i :: 0 <= i < |a.blocks| ==> Same(a.blocks[i], b.blocks[i])
  }

  /** `a` and `b` differ at most in properties other than noteid. */
  predicate StructEq(a: Graph, b: Graph) {
    Ext(a, b) && |a.blocks| == |b.blocks|
  }

  lemma ExtTrans(a: Graph, b: Graph, c: Graph)
    requires Ext(a, b) && Ext(b, c)
    ensures Ext(a, c)
  {
  }

  lemma StructEqSym(a: Graph, b: Graph)
    requires StructEq(a, b)
    ensures StructEq(b, a)
  {
  }

  lemma ExtInsert(db: Graph, parent: Parent, text: string, props: map<string, PropValue>)
    requires ValidParent(db, parent)
    ensures Ext(db, Insert(db, parent, text, props))
  {
  }

  lemma WriteNoteStruct(db: Graph, i: nat, text: string)
    requires i < |db.blocks|
    ensures StructEq(db, WriteNote(db, i, text))
  {
    var r := WriteNote(db, i, text);
    forall j | 0 <= j < |db.blocks|
      ensures Same(db.blocks[j], r.blocks[j])
    {
      if j == i {
        assert Get(r.blocks[j].props, "noteid") == Get(db.blocks[j].props, "noteid");
      }
    }
  }

  lemma FindOrInsertExt(db: Graph, parent: nat, text: string)
    requires parent < |db.blocks|
    ensures Ext(db, FindOrInsert(db, parent, text).db)
  {
  }

  lemma HighlightStepExt(db: Graph, rec: nat, entry: NoteEntry, light: HighlightInfo, cfg: ExportConfig, tpl: Templates, h: Helpers)
    requires rec < |db.blocks|
    ensures Ext(db, HighlightStep(db, rec, entry, light, cfg, tpl, h).db)
  {
    var core := NoteCore(entry, light, tpl, h);
    if core.Some? {
      var hb := FindOrInsert(db, rec, core.value);
      FindOrInsertExt(db, rec, core.value);
      if light.annonation != "" {
        var anno := h.formatContent(light.annonation);
        if cfg.logseqAnnoAsAttr == 1 {
          WriteNoteStruct(hb.db, hb.block, anno);
        } else {
          FindOrInsertExt(hb.db, hb.block, anno);
        }
      }
    }
  }

  lemma {:induction false} HighlightsExt(db: Graph, rec: nat, entry: NoteEntry, lights: seq<HighlightInfo>, cfg: ExportConfig, tpl: Templates, h: Helpers)
    requires rec < |db.blocks|
    ensures Ext(db, Highlights(db, rec, entry, lights, cfg, tpl, h).db)
  {
    if lights != [] {
      var done := Highlights(db, rec, entry, lights[..|lights| - 1], cfg, tpl, h);
      HighlightsExt(db, rec, entry, lights[..|lights| - 1], cfg, tpl, h);
      if done.ok {
        HighlightStepExt(done.db, rec, entry, lights[|lights| - 1], cfg, tpl, h);
      }
    }
  }

  // ---- Lookups under extension ----

  /** A child found in `a` is still the first one found in an extension. */
  lemma FindChildExt(a: Graph, b: Graph, parent: nat, text: string)
    requires Ext(a, b) && FindChild(a, parent, text).Some?
    ensures FindChild(b, parent, text) == FindChild(a, parent, text)
  {
    var x := FindChild(a, parent, text).value;
    assert Same(a.blocks[x], b.blocks[x]);
  }

  /** Graphs equal in structure agree on every child lookup. */
  lemma FindChildStruct(a: Graph, b: Graph, parent: nat, text: string)
    requires StructEq(a, b)
    ensures FindChild(b, parent, text) == FindChild(a, parent, text)
  {
    if FindChild(a, parent, text).Some? {
      FindChildExt(a, b, parent, text);
    } else if FindChild(b, parent, text).Some? {
      StructEqSym(a, b);
      FindChildExt(b, a, parent, text);
    }
  }

  /** After find-or-insert, the block it yields is the first match in every
      extension of the result. */
  lemma FindOrInsertFirst(db: Graph, parent: nat, text: string, f: Graph)
    requires parent < |db.blocks|
    requires Ext(FindOrInsert(db, parent, text).db, f)
    ensures FindChild(f, parent, text) == Some(FindOrInsert(db, parent, text).block)
  {
    var r := FindOrInsert(db, parent, text);
    if FindChild(db, parent, text).None? {
      assert FindChild(r.db, parent, text) == Some(|db.blocks|);
    }
    FindChildExt(r.db, f, parent, text);
  }

  /** On a graph equal in structure to one where the match is known,
      find-or-insert inserts nothing. */
  lemma FindOrInsertReplay(d: Graph, f: Graph, parent: nat, text: string, x: nat)
    requires StructEq(d, f) && parent < |d.blocks| && FindChild(f, parent, text) == Some(x)
    ensures FindOrInsert(d, parent, text) == Placed(d, x)
  {
    StructEqSym(d, f);
    FindChildStruct(f, d, parent, text);
  }

  /** A record found in `a` is still the first one found in an extension. */
  lemma FindRecordExt(a: Graph, b: Graph, page: nat, noteIdX: string)
    requires Ext(a, b) && FindRecord(a, page, noteIdX).Some?
    ensures FindRecord(b, page, noteIdX) == FindRecord(a, page, noteIdX)
  {
    var x := FindRecord(a, page, noteIdX).value;
    assert Same(a.blocks[x], b.blocks[x]);
    assert Get(a.blocks[x].props, "noteid") == Some(PStr(noteIdX));
  }

  // ---- The second run replays the first ----

  /** A highlight step taken again on a graph equal in structure to the final
      one makes the same writes and inserts nothing. */
  lemma StepReplay(db: Graph, rec: nat, entry: NoteEntry, light: HighlightInfo, cfg: ExportConfig, tpl: Templates, h: Helpers, f: Graph, d: Graph)
    requires rec < |db.blocks|
    requires Ext(HighlightStep(db, rec, entry, light, cfg, tpl, h).db, f) && StructEq(d, f)
    ensures rec < |d.blocks|
    ensures var r1 := HighlightStep(db, rec, entry, light, cfg, tpl, h);
            var r2 := HighlightStep(d, rec, entry, light, cfg, tpl, h);
            r2.ok == r1.ok && r2.writes == r1.writes && StructEq(r2.db, f)
  {
    var r1 := HighlightStep(db, rec, entry, light, cfg, tpl, h);
    var core := NoteCore(entry, light, tpl, h);
    if core.Some? {
      var hb := FindOrInsert(db, rec, core.value);
      if light.annonation != "" {
        var anno := h.formatContent(light.annonation);
        if cfg.logseqAnnoAsAttr == 1 {
          WriteNoteStruct(hb.db, hb.block, anno);
        } else {
          FindOrInsertExt(hb.db, hb.block, anno);
          FindOrInsertFirst(hb.db, hb.block, anno, f);
        }
      }
      ExtTrans(hb.db, r1.db, f);
      FindOrInsertFirst(db, rec, core.value, f);
      FindOrInsertReplay(d, f, rec, core.value, hb.block);
      if light.annonation != "" {
        var anno := h.formatContent(light.annonation);
        if cfg.logseqAnnoAsAttr == 1 {
          WriteNoteStruct(d, hb.block, anno);
          StructEqSym(d, WriteNote(d, hb.block, anno));
          ExtTrans(WriteNote(d, hb.block, anno), d, f);
        } else {
          var an := FindOrInsert(hb.db, hb.block, anno);
          FindOrInsertReplay(d, f, hb.block, anno, an.block);
        }
      }
    }
  }

  /** The highlight loop run again on a graph equal in structure to the one
      it left makes the same writes, stops at the same place and inserts nothing. */
  lemma {:induction false} HighlightsReplay(db: Graph, rec: nat, entry: NoteEntry, lights: seq<HighlightInfo>, cfg: ExportConfig, tpl: Templates, h: Helpers, f: Graph, d: Graph)
    requires rec < |db.blocks|
    requires Ext(Highlights(db, rec, entry, lights, cfg, tpl, h).db, f) && StructEq(d, f)
    ensures rec < |d.blocks|
    ensures var r1 := Highlights(db, rec, entry, lights, cfg, tpl, h);
            var r2 := Highlights(d, rec, entry, lights, cfg, tpl, h);
            r2.ok == r1.ok && r2.writes == r1.writes && StructEq(r2.db, f)
  {
    if lights != [] {
      var init := lights[..|lights| - 1];
      var done := Highlights(db, rec, entry, init, cfg, tpl, h);
      var all := Highlights(db, rec, entry, lights, cfg, tpl, h);
      if done.ok {
        HighlightStepExt(done.db, rec, entry, lights[|lights| - 1], cfg, tpl, h);
      }
      ExtTrans(done.db, all.db, f);
      HighlightsReplay(db, rec, entry, init, cfg, tpl, h, f, d);
      var again := Highlights(d, rec, entry, init, cfg, tpl, h);
      if done.ok {
        StepReplay(done.db, rec, entry, lights[|lights| - 1], cfg, tpl, h, f, again.db);
      }
    }
  }

  // ---- Annotation writes in closed form ----

  /** One annotation-as-attribute write on a property map. */
  function WriteOnProps(props: map<string, PropValue>, text: string): map<string, PropValue> {
    if LooseEq(Get(props, "note"), text) then props else props["note" := PStr(text)]
  }

  /** A sequence of annotation writes on one property map. */
  function NoteFold(props: map<string, PropValue>, texts: seq<string>): map<string, PropValue> {
    if texts == [] then props else WriteOnProps(NoteFold(props, texts[..|texts| - 1]), texts[|texts| - 1])
  }

  /** Every text loosely equals the map's original note. */
  predicate AllLoose(props: map<string, PropValue>, texts: seq<string>) {
    forall i :: 0 <= i < |texts| ==> LooseEq(Get(props, "note"), texts[i])
  }

  /** The writes leave the map alone when each one matches its note, and
      otherwise leave the last text as the note. */
  lemma {:induction false} NoteFoldClosed(props: map<string, PropValue>, texts: seq<string>)
    ensures NoteFold(props, texts) ==
            if AllLoose(props, texts) then props else props["note" := PStr(texts[|texts| - 1])]
  {
    if texts != [] {
      var init := texts[..|texts| - 1];
      var t := texts[|texts| - 1];
      NoteFoldClosed(props, init);
      assert forall i :: 0 <= i < |init| ==> init[i] == texts[i];
      if AllLoose(props, init) {
        assert AllLoose(props, texts) <==> LooseEq(Get(props, "note"), t);
      } else {
        assert !AllLoose(props, texts);
        var mid := props["note" := PStr(init[|init| - 1])];
        assert Get(mid, "note") == Some(PStr(init[|init| - 1]));
        if init[|init| - 1] != t {
          assert mid["note" := PStr(t)] == props["note" := PStr(t)];
        }
      }
    }
  }

  /** Replaying the same writes on their own result changes nothing. */
  lemma NoteFoldIdempotent(props: map<string, PropValue>, texts: seq<string>)
    ensures NoteFold(NoteFold(props, texts), texts) == NoteFold(props, texts)
  {
    var once := NoteFold(props, texts);
    NoteFoldClosed(props, texts);
    NoteFoldClosed(once, texts);
    if !AllLoose(props, texts) && !AllLoose(once, texts) {
      assert once["note" := PStr(texts[|texts| - 1])] == once;
    }
  }

  lemma {:induction false} NoteFoldAppend(props: map<string, PropValue>, x: seq<string>, y: seq<string>)
    ensures NoteFold(props, x + y) == NoteFold(NoteFold(props, x), y)
  {
    if y == [] {
      assert x + y == x;
    } else {
      assert (x + y)[..|x + y| - 1] == x + y[..|y| - 1];
      NoteFoldAppend(props, x, y[..|y| - 1]);
    }
  }

  /** The texts written to block `b`, in order. */
  function ForBlock(ws: seq<Write>, b: nat): seq<string> {
    if ws == [] then []
    else ForBlock(ws[..|ws| - 1], b) + (if ws[|ws| - 1].block == b then [ws[|ws| - 1].text] else [])
  }

  lemma {:induction false} ForBlockAppend(x: seq<Write>, y: seq<Write>, b: nat)
    ensures ForBlock(x + y, b) == ForBlock(x, b) + ForBlock(y, b)
  {
    if y == [] {
      assert x + y == x;
    } else {
      assert (x + y)[..|x + y| - 1] == x + y[..|y| - 1];
      ForBlockAppend(x, y[..|y| - 1], b);
    }
  }

  lemma {:induction false} ForBlockNone(ws: seq<Write>, b: nat)
    requires forall i :: 0 <= i < |ws| ==> ws[i].block != b
    ensures ForBlock(ws, b) == []
  {
    if ws != [] {
      ForBlockNone(ws[..|ws| - 1], b);
    }
  }

  /** The properties a block had before a run (none, for a block the run inserts). */
  function Initial(db: Graph, b: nat): map<string, PropValue> {
    if b < |db.blocks| then db.blocks[b].props else map[]
  }

  /** Every block's properties after the run are its initial ones with the
      run's writes to it applied in order. */
  predicate FoldedFrom(db: Graph, r: Run) {
    && (forall i :: 0 <= i < |r.writes| ==> r.writes[i].block < |r.db.blocks|)
    && (forall b :: 0 <= b < |r.db.blocks| ==> r.db.blocks[b].props == NoteFold(Initial(db, b), ForBlock(r.writes, b)))
  }

  lemma FindOrInsertProps(db: Graph, parent: nat, text: string)
    requires parent < |db.blocks|
    ensures var r := FindOrInsert(db, parent, text).db;
            forall b :: 0 <= b < |r.blocks| ==> r.blocks[b].props == Initial(db, b)
  {
  }

  /** The annotation-as-attribute write in closed form. */
  lemma WriteNoteFolded(db: Graph, hb: Placed, anno: string)
    requires hb.block < |hb.db.blocks|
    requires forall b :: 0 <= b < |hb.db.blocks| ==> hb.db.blocks[b].props == Initial(db, b)
    ensures FoldedFrom(db, Run(WriteNote(hb.db, hb.block, anno), true, [Write(hb.block, anno)]))
  {
    var ws := [Write(hb.block, anno)];
    var r := WriteNote(hb.db, hb.block, anno);
    forall b | 0 <= b < |r.blocks|
      ensures r.blocks[b].props == NoteFold(Initial(db, b), ForBlock(ws, b))
    {
      assert ws[..0] == [];
      assert ForBlock(ws, b) == (if b == hb.block then [anno] else []);
      if b == hb.block {
        assert NoteFold(Initial(db, b), [anno]) == WriteOnProps(Initial(db, b), anno) by {
          assert [anno][..0] == [];
        }
      } else {
        assert r.blocks[b] == hb.db.blocks[b];
      }
    }
  }

  lemma StepFolded(db: Graph, rec: nat, entry: NoteEntry, light: HighlightInfo, cfg: ExportConfig, tpl: Templates, h: Helpers)
    requires rec < |db.blocks|
    ensures FoldedFrom(db, HighlightStep(db, rec, entry, light, cfg, tpl, h))
  {
    var core := NoteCore(entry, light, tpl, h);
    if core.Some? {
      var hb := FindOrInsert(db, rec, core.value);
      FindOrInsertProps(db, rec, core.value);
      if light.annonation != "" {
        var anno := h.formatContent(light.annonation);
        if cfg.logseqAnnoAsAttr == 1 {
          WriteNoteFolded(db, hb, anno);
        } else {
          FindOrInsertProps(hb.db, hb.block, anno);
        }
      }
    }
  }

  lemma {:induction false} ForBlockBelow(ws: seq<Write>, n: nat, b: nat)
    requires forall i :: 0 <= i < |ws| ==> ws[i].block < n
    requires n <= b
    ensures ForBlock(ws, b) == []
  {
    ForBlockNone(ws, b);
  }

  lemma {:induction false} HighlightsFolded(db: Graph, rec: nat, entry: NoteEntry, lights: seq<HighlightInfo>, cfg: ExportConfig, tpl: Templates, h: Helpers)
    requires rec < |db.blocks|
    ensures FoldedFrom(db, Highlights(db, rec, entry, lights, cfg, tpl, h))
  {
    if lights != [] {
      var done := Highlights(db, rec, entry, lights[..|lights| - 1], cfg, tpl, h);
      HighlightsFolded(db, rec, entry, lights[..|lights| - 1], cfg, tpl, h);
      if done.ok {
        var step := HighlightStep(done.db, rec, entry, lights[|lights| - 1], cfg, tpl, h);
        StepFolded(done.db, rec, entry, lights[|lights| - 1], cfg, tpl, h);
        var all := Run(step.db, step.ok, done.writes + step.writes);
        assert Highlights(db, rec, entry, lights, cfg, tpl, h) == all;
        forall b | 0 <= b < |all.db.blocks|
          ensures all.db.blocks[b].props == NoteFold(Initial(db, b), ForBlock(all.writes, b))
        {
          ForBlockAppend(done.writes, step.writes, b);
          if b < |done.db.blocks| {
            NoteFoldAppend(Initial(db, b), ForBlock(done.writes, b), ForBlock(step.writes, b));
          } else {
            ForBlockBelow(done.writes, |done.db.blocks|, b);
            assert ForBlock(done.writes, b) + ForBlock(step.writes, b) == ForBlock(step.writes, b);
          }
        }
      }
    }
  }

  /** A highlight step writes only to the highlight block, which lies after the record. */
  lemma StepWritesAfterRecord(db: Graph, rec: nat, entry: NoteEntry, light: HighlightInfo, cfg: ExportConfig, tpl: Templates, h: Helpers)
    requires Valid(db) && rec < |db.blocks|
    ensures var ws := HighlightStep(db, rec, entry, light, cfg, tpl, h).writes;
            forall i :: 0 <= i < |ws| ==> ws[i].block > rec
  {
    var core := NoteCore(entry, light, tpl, h);
    if core.Some? && FindChild(db, rec, core.value).Some? {
      ChildAfterParent(db, rec, core.value);
    }
  }

  predicate AllAfter(ws: seq<Write>, rec: nat) {
    forall i :: 0 <= i < |ws| ==> ws[i].block > rec
  }

  /** Every annotation write goes to a block after the record. */
  lemma {:induction false} WritesAfterRecord(db: Graph, rec: nat, entry: NoteEntry, lights: seq<HighlightInfo>, cfg: ExportConfig, tpl: Templates, h: Helpers)
    requires Valid(db) && rec < |db.blocks|
    ensures AllAfter(Highlights(db, rec, entry, lights, cfg, tpl, h).writes, rec)
  {
    if lights != [] {
      var done := Highlights(db, rec, entry, lights[..|lights| - 1], cfg, tpl, h);
      WritesAfterRecord(db, rec, entry, lights[..|lights| - 1], cfg, tpl, h);
      if done.ok {
        HighlightsValid(db, rec, entry, lights[..|lights| - 1], cfg, tpl, h);
        var step := HighlightStep(done.db, rec, entry, lights[|lights| - 1], cfg, tpl, h);
        StepWritesAfterRecord(done.db, rec, entry, lights[|lights| - 1], cfg, tpl, h);
        var ws := Highlights(db, rec, entry, lights, cfg, tpl, h).writes;
        assert ws == done.writes + step.writes;
        forall i | 0 <= i < |ws|
          ensures ws[i].block > rec
        {
          if i < |done.writes| {
            assert ws[i] == done.writes[i];
            assert done.writes[i].block > rec;
          } else {
            assert ws[i] == step.writes[i - |done.writes|];
            assert step.writes[i - |done.writes|].block > rec;
          }
        }
      }
    }
  }

  // ---- The record block ----

  /** The record phase leaves a block that the record lookup finds first and
      that carries every property just written. */
  lemma RecordFoundAgain(db: Graph, page: nat, noteIdX: string, nb: NewBlock)
    requires page < db.pageCount
    requires "noteid" in nb.properties && nb.properties["noteid"] == PStr(noteIdX)
    ensures var r := PlaceRecord(db, page, noteIdX, nb);
            && FindRecord(r.db, page, noteIdX) == Some(r.block)
            && forall k :: k in nb.properties ==> k in r.db.blocks[r.block].props && r.db.blocks[r.block].props[k] == nb.properties[k]
  {
    var r := PlaceRecord(db, page, noteIdX, nb);
    PlaceRecordInsertsOnlyIfAbsent(db, page, noteIdX, nb);
    assert RecordMatches(r.db.blocks[r.block], page, noteIdX);
    forall j | 0 <= j < r.block
      ensures !RecordMatches(r.db.blocks[j], page, noteIdX)
    {
      assert r.db.blocks[j] == db.blocks[j];
    }
    FirstIsUnique(r.db.blocks, b => RecordMatches(b, page, noteIdX), r.block);
  }

  /** Upserting properties a block already holds changes nothing. */
  lemma UpsertPropsHeld(db: Graph, i: nat, props: map<string, PropValue>)
    requires i < |db.blocks|
    requires forall k :: k in props ==> k in db.blocks[i].props && db.blocks[i].props[k] == props[k]
    ensures UpsertProps(db, i, props) == db
  {
    assert db.blocks[i].props + props == db.blocks[i].props;
    assert db.blocks[i := db.blocks[i]] == db.blocks;
  }

  /** The highlight loop run again after itself, under a record that the
      lookup finds first and that holds the record properties: the record
      phase changes nothing, and the loop leaves the graph and the outcome as
      they were. */
  lemma HighlightsAgain(d: Graph, rec: nat, page: nat, entry: NoteEntry, nb: NewBlock, hl: seq<HighlightInfo>,
                        cfg: ExportConfig, tpl: Templates, h: Helpers)
    requires Valid(d) && rec < |d.blocks| && page < d.pageCount
    requires FindRecord(d, page, entry.noteIdX) == Some(rec)
    requires forall k :: k in nb.properties ==> k in d.blocks[rec].props && d.blocks[rec].props[k] == nb.properties[k]
    ensures var run := Highlights(d, rec, entry, hl, cfg, tpl, h);
            var again := Highlights(run.db, rec, entry, hl, cfg, tpl, h);
            && run.db.pages == d.pages && run.db.pageCount == d.pageCount
            && PlaceRecord(run.db, page, entry.noteIdX, nb) == Placed(run.db, rec)
            && again.db == run.db && again.ok == run.ok
  {
    var run := Highlights(d, rec, entry, hl, cfg, tpl, h);
    var f := run.db;
    HighlightsExt(d, rec, entry, hl, cfg, tpl, h);
    FindRecordExt(d, f, page, entry.noteIdX);
    HighlightsFolded(d, rec, entry, hl, cfg, tpl, h);
    WritesAfterRecord(d, rec, entry, hl, cfg, tpl, h);
    ForBlockNone(run.writes, rec);
    assert f.blocks[rec].props == d.blocks[rec].props;
    UpsertPropsHeld(f, rec, nb.properties);
    HighlightsReplay(d, rec, entry, hl, cfg, tpl, h, f, f);
    var again := Highlights(f, rec, entry, hl, cfg, tpl, h);
    HighlightsFolded(f, rec, entry, hl, cfg, tpl, h);
    forall b | 0 <= b < |f.blocks|
      ensures again.db.blocks[b] == f.blocks[b]
    {
      NoteFoldIdempotent(Initial(d, b), ForBlock(run.writes, b));
      assert Same(f.blocks[b], again.db.blocks[b]);
    }
    assert again.db == f;
  }

  // ---- The theorem ----

  /** Syncing a page entry a second time, on the graph the first sync left,
      changes nothing and has the same outcome. This needs the graph to be
      consistent and no attribute template to be named noteid: one that is
      would overwrite the id the record is looked up by, and every sync would
      then add another record block. */
  lemma UpsertEntryIdempotent(db: Graph, entry: NoteEntry, df: string, cfg: ExportConfig, tpl: Templates, h: Helpers)
    requires Valid(db)
    requires forall i :: 0 <= i < |tpl.attrTemplate| ==> tpl.attrTemplate[i].name != "noteid"
    ensures UpsertEntry(UpsertEntry(db, entry, df, cfg, tpl, h).db, entry, df, cfg, tpl, h) == UpsertEntry(db, entry, df, cfg, tpl, h)
  {
    var name := h.generatePageName(cfg.logseqSplitTemplate, entry.createAt);
    var pr := ResolvePage(db, name);
    ResolvePageValid(db, name);
    var nb := NewEntryBlock(entry, df, cfg, tpl, h);
    var once := UpsertEntry(db, entry, df, cfg, tpl, h);
    if nb.None? {
      assert once == EntryResult(pr.db, false);
      assert ResolvePage(pr.db, name) == pr;
    } else {
      NoteIdProperty(entry, df, cfg, tpl, h);
      LastSetNeedsName(tpl.attrTemplate, "noteid", EntryView(entry, h), h);
      var rec := PlaceRecord(pr.db, pr.page, entry.noteIdX, nb.value);
      RecordFoundAgain(pr.db, pr.page, entry.noteIdX, nb.value);
      PlaceRecordValid(pr.db, pr.page, entry.noteIdX, nb.value);
      var lights := HighlightsAsWritten(entry, cfg, h);
      if lights.None? {
        // The first sync threw once its record was written; the second finds
        // that record with its properties and throws at the same point.
        assert once == EntryResult(rec.db, false);
        assert ResolvePage(rec.db, name) == PageResult(rec.db, pr.page);
        UpsertPropsHeld(rec.db, rec.block, nb.value.properties);
        assert PlaceRecord(rec.db, pr.page, entry.noteIdX, nb.value) == rec;
        return;
      }
      var hl := lights.value;
      var run := Highlights(rec.db, rec.block, entry, hl, cfg, tpl, h);
      var f := run.db;
      assert once == EntryResult(f, run.ok);
      HighlightsAgain(rec.db, rec.block, pr.page, entry, nb.value, hl, cfg, tpl, h);
      assert ResolvePage(f, name) == PageResult(f, pr.page);
      assert UpsertEntry(f, entry, df, cfg, tpl, h) == EntryResult(f, run.ok);
    }
  }
}
