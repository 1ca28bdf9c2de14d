/**
 * The imperative upsert engine of downloadArchive: the host calls made for a
 * batch of entries, each method proved to leave the graph as the
 * corresponding function of the upsert model says.
 */
module Engine {
  import opened Types
  import opened Store
  import opened EntryBlock
  import opened Upsert

  /** The properties of `props` under the keys in `keys`. */
  function Restrict(props: map<string, PropValue>, keys: set<string>): map<string, PropValue> {
    map k | k in keys && k in props :: props[k]
  }

  lemma RestrictGrow(g: Graph, i: nat, props: map<string, PropValue>, done: set<string>, k: string)
    requires i < |g.blocks| && k in props
    ensures SetProp(UpsertProps(g, i, Restrict(props, done)), i, k, props[k]) == UpsertProps(g, i, Restrict(props, done + {k}))
  {
    var p0 := g.blocks[i].props;
    assert (p0 + Restrict(props, done))[k := props[k]] == p0 + Restrict(props, done + {k});
  }

  /** The update of a found record: upsertBlockProperty for each key, in
      whatever order the keys are visited. */
  method UpsertRecordProps(host: Host, uuid: nat, props: map<string, PropValue>)
    modifies host
    requires uuid < |host.blocks|
    ensures host.Snapshot() == UpsertProps(old(host.Snapshot()), uuid, props)
    ensures host.token == old(host.token) && host.lastCursor == old(host.lastCursor)
    ensures host.lastSyncFailed == old(host.lastSyncFailed)
  {
    ghost var g := host.Snapshot();
    var remaining := props.Keys;
    ghost var done: set<string> := {};
    assert Restrict(props, done) == map[];
    assert g.blocks[uuid].props + map[] == g.blocks[uuid].props;
    assert g.blocks[uuid := g.blocks[uuid]] == g.blocks;
    while remaining != {}
      invariant remaining + done == props.Keys && remaining !! done
      invariant |host.blocks| == |g.blocks|
      invariant host.Snapshot() == UpsertProps(g, uuid, Restrict(props, done))
      invariant host.token == old(host.token) && host.lastCursor == old(host.lastCursor)
      invariant host.lastSyncFailed == old(host.lastSyncFailed)
      decreases remaining
    {
      var k :| k in remaining;
      host.UpsertBlockProperty(uuid, k, props[k]);
      RestrictGrow(g, uuid, props, done, k);
      remaining := remaining - {k};
      done := done + {k};
    }
    assert Restrict(props, done) == props;
  }

  /** getHighlightBlockBy, then insertBlock when it finds nothing. */
  method PlaceChild(host: Host, parent: nat, text: string) returns (uuid: nat)
    modifies host
    requires parent < |host.blocks|
    ensures Placed(host.Snapshot(), uuid) == FindOrInsert(old(host.Snapshot()), parent, text)
    ensures host.token == old(host.token) && host.lastCursor == old(host.lastCursor)
    ensures host.lastSyncFailed == old(host.lastSyncFailed)
  {
    var found := host.QueryChild(parent, text);
    if found.Some? {
      uuid := found.value;
    } else {
      uuid := host.InsertBlock(BlockRef(parent), text, map[]);
    }
  }

  /** The highlight loop of one entry; false once a template throws. */
  method ProcessHighlights(host: Host, rec: nat, entry: NoteEntry, lights: seq<HighlightInfo>, cfg: ExportConfig, tpl: Templates, h: Helpers)
    returns (ok: bool)
    modifies host
    requires rec < |host.blocks|
    ensures var r := Highlights(old(host.Snapshot()), rec, entry, lights, cfg, tpl, h);
            host.Snapshot() == r.db && ok == r.ok
    ensures host.token == old(host.token) && host.lastCursor == old(host.lastCursor)
    ensures host.lastSyncFailed == old(host.lastSyncFailed)
  {
    ghost var g := host.Snapshot();
    var isAnnoAsAttr := cfg.logseqAnnoAsAttr == 1;
    for i := 0 to |lights|
      invariant host.Snapshot() == Highlights(g, rec, entry, lights[..i], cfg, tpl, h).db
      invariant Highlights(g, rec, entry, lights[..i], cfg, tpl, h).ok
      invariant host.token == old(host.token) && host.lastCursor == old(host.lastCursor)
      invariant host.lastSyncFailed == old(host.lastSyncFailed)
    {
      assert lights[..i + 1][..i] == lights[..i];
      var light := lights[i];
      var noteCore := NoteCore(entry, light, tpl, h);
      if noteCore.None? {
        HighlightsStop(g, rec, entry, lights, i + 1, cfg, tpl, h);
        return false;
      }
      var highBlock := PlaceChild(host, rec, noteCore.value);
      if light.annonation != "" {
        var annoCore := h.formatContent(light.annonation);
        if isAnnoAsAttr {
          var oldNoteProp := host.GetProperty(highBlock, "note");
          if !LooseEq(oldNoteProp, annoCore) {
            host.UpsertBlockProperty(highBlock, "note", PStr(annoCore));
          }
        } else {
          var annoBlock := PlaceChild(host, highBlock, annoCore);
        }
      }
    }
    assert lights[..|lights|] == lights;
    ok := true;
  }

  /** The page cache agrees with the graph's pages. */
  predicate CacheAgrees(cache: map<string, nat>, pages: map<string, nat>) {
    forall n :: n in cache ==> n in pages && pages[n] == cache[n]
  }

  /** The name of the page an entry goes to. */
  function PageName(entry: NoteEntry, cfg: ExportConfig, h: Helpers): string {
    h.generatePageName(cfg.logseqSplitTemplate, entry.createAt)
  }

  /** The page lookup through the cache: the cache first, then getPage,
      then createPage. `lookedUp` is the name asked of the host, None when
      the cache already held it. */
  method ResolvePageCached(host: Host, cache: map<string, nat>, parentName: string)
    returns (page: nat, cache': map<string, nat>, lookedUp: Option<string>)
    modifies host
    requires CacheAgrees(cache, host.pages)
    ensures PageResult(host.Snapshot(), page) == ResolvePage(old(host.Snapshot()), parentName)
    ensures cache' == cache[parentName := page] && CacheAgrees(cache', host.pages)
    ensures lookedUp.Some? <==> parentName !in cache
    ensures lookedUp.Some? ==> lookedUp.value == parentName
    ensures host.token == old(host.token) && host.lastCursor == old(host.lastCursor)
    ensures host.lastSyncFailed == old(host.lastSyncFailed)
  {
    if parentName in cache {
      page := cache[parentName];
      lookedUp := None;
    } else {
      var tmpPage := host.GetPage(parentName);
      if tmpPage.None? {
        page := host.CreatePage(parentName);
      } else {
        page := tmpPage.value;
      }
      lookedUp := Some(parentName);
    }
    cache' := cache[parentName := page];
  }

  /** The entry's writes on its page: find or create the record block, then
      the highlights. */
  method ProcessOnPage(host: Host, page: nat, entry: NoteEntry, df: string, cfg: ExportConfig, tpl: Templates, h: Helpers)
    returns (ok: bool)
    modifies host
    requires Valid(host.Snapshot()) && page < host.pageCount
    ensures var r := UpsertOnPage(old(host.Snapshot()), page, entry, df, cfg, tpl, h);
            host.Snapshot() == r.db && ok == r.ok
    ensures host.token == old(host.token) && host.lastCursor == old(host.lastCursor)
    ensures host.lastSyncFailed == old(host.lastSyncFailed)
  {
    var webpageBlock := host.QueryRecord(page, entry.noteIdX);
    var nb := GetNewEntryBlock(entry, df, cfg, tpl, h);
    if nb.None? {
      return false;
    }
    // The source's `if (!title) continue` cannot fire: see TitleNeverEmpty.
    ghost var placed := PlaceRecord(host.Snapshot(), page, entry.noteIdX, nb.value);
    var rec: nat;
    if webpageBlock.None? {
      rec := host.InsertBlock(PageRef(page), nb.value.title, nb.value.properties);
    } else {
      rec := webpageBlock.value;
      UpsertRecordProps(host, rec, nb.value.properties);
    }
    assert Placed(host.Snapshot(), rec) == placed;
    // The page note is put in front of the highlight list before the list's
    // default is applied, so a missing list throws here.
    var lights := HighlightsAsWritten(entry, cfg, h);
    if lights.None? {
      return false;
    }
    ok := ProcessHighlights(host, rec, entry, lights.value, cfg, tpl, h);
  }

  /** The body of the entry loop. */
  method ProcessEntry(host: Host, cache: map<string, nat>, entry: NoteEntry, df: string, cfg: ExportConfig, tpl: Templates, h: Helpers)
    returns (ok: bool, cache': map<string, nat>, lookedUp: Option<string>)
    modifies host
    requires Valid(host.Snapshot()) && CacheAgrees(cache, host.pages)
    ensures var r := UpsertEntry(old(host.Snapshot()), entry, df, cfg, tpl, h);
            host.Snapshot() == r.db && ok == r.ok
    ensures CacheAgrees(cache', host.pages) && PageName(entry, cfg, h) in cache'
    ensures cache' == cache[PageName(entry, cfg, h) := cache'[PageName(entry, cfg, h)]]
    ensures lookedUp.Some? <==> PageName(entry, cfg, h) !in cache
    ensures lookedUp.Some? ==> lookedUp.value == PageName(entry, cfg, h)
    ensures host.token == old(host.token) && host.lastCursor == old(host.lastCursor)
    ensures host.lastSyncFailed == old(host.lastSyncFailed)
  {
    ghost var g := host.Snapshot();
    var parentName := PageName(entry, cfg, h);
    var page;
    page, cache', lookedUp := ResolvePageCached(host, cache, parentName);
    ResolvePageValid(g, parentName);
    ok := ProcessOnPage(host, page, entry, df, cfg, tpl, h);
  }

  /** The page names of a run of entries. */
  function PageNames(entries: seq<NoteEntry>, cfg: ExportConfig, h: Helpers): set<string> {
    if entries == [] then {}
    else PageNames(entries[..|entries| - 1], cfg, h) + {PageName(entries[|entries| - 1], cfg, h)}
  }

  lemma {:induction false} PageNamesAre(entries: seq<NoteEntry>, cfg: ExportConfig, h: Helpers)
    ensures forall n :: n in PageNames(entries, cfg, h) <==> exists i :: 0 <= i < |entries| && PageName(entries[i], cfg, h) == n
  {
    if entries != [] {
      var init := entries[..|entries| - 1];
      PageNamesAre(init, cfg, h);
      forall n | n in PageNames(entries, cfg, h)
        ensures exists i :: 0 <= i < |entries| && PageName(entries[i], cfg, h) == n
      {
        if n in PageNames(init, cfg, h) {
          var i :| 0 <= i < |init| && PageName(init[i], cfg, h) == n;
          assert entries[i] == init[i];
        } else {
          assert PageName(entries[|entries| - 1], cfg, h) == n;
        }
      }
      forall n, i | 0 <= i < |entries| && PageName(entries[i], cfg, h) == n
        ensures n in PageNames(entries, cfg, h)
      {
        if i < |init| {
          assert entries[i] == init[i];
        }
      }
    }
  }

  /** The lookups so far: no repeats, and exactly the cached names. */
  ghost predicate LookupsMatch(lookups: seq<string>, cached: set<string>) {
    && (forall a, b :: 0 <= a < b < |lookups| ==> lookups[a] != lookups[b])
    && (forall n :: n in lookups <==> n in cached)
  }

  lemma LookupsGrow(lookups: seq<string>, cached: set<string>, name: string, lookedUp: Option<string>)
    requires LookupsMatch(lookups, cached)
    requires lookedUp.Some? <==> name !in cached
    requires lookedUp.Some? ==> lookedUp.value == name
    ensures LookupsMatch(if lookedUp.Some? then lookups + [name] else lookups, cached + {name})
  {
  }

  /** The entry loop of one page of results. Every page name is asked of the
      host at most once: `lookups` lists the names asked, without repetition,
      and they are exactly the entries' page names. */
  method ProcessEntries(host: Host, entries: seq<NoteEntry>, df: string, cfg: ExportConfig, tpl: Templates, h: Helpers)
    returns (oks: seq<bool>, lookups: seq<string>)
    modifies host
    requires Valid(host.Snapshot())
    ensures var r := Batch(old(host.Snapshot()), entries, df, cfg, tpl, h);
            host.Snapshot() == r.db && oks == r.oks
    ensures forall i, j :: 0 <= i < j < |lookups| ==> lookups[i] != lookups[j]
    ensures forall n :: n in lookups <==> exists i :: 0 <= i < |entries| && PageName(entries[i], cfg, h) == n
    ensures host.token == old(host.token) && host.lastCursor == old(host.lastCursor)
    ensures host.lastSyncFailed == old(host.lastSyncFailed)
  {
    ghost var g := host.Snapshot();
    ghost var dbs := [g];
    var cachedPageUUID: map<string, nat> := map[];
    oks := [];
    lookups := [];
    for i := 0 to |entries|
      invariant Valid(host.Snapshot())
      invariant StepsUpTo(g, entries, i, dbs, oks, df, cfg, tpl, h) && dbs[i] == host.Snapshot()
      invariant CacheAgrees(cachedPageUUID, host.pages)
      invariant cachedPageUUID.Keys == PageNames(entries[..i], cfg, h)
      invariant LookupsMatch(lookups, cachedPageUUID.Keys)
      invariant host.token == old(host.token) && host.lastCursor == old(host.lastCursor)
      invariant host.lastSyncFailed == old(host.lastSyncFailed)
    {
      assert entries[..i + 1][..i] == entries[..i];
      var ok, cache', lookedUp := ProcessEntry(host, cachedPageUUID, entries[i], df, cfg, tpl, h);
      StepsExtend(g, entries, i, dbs, oks, host.Snapshot(), ok, df, cfg, tpl, h);
      LookupsGrow(lookups, cachedPageUUID.Keys, PageName(entries[i], cfg, h), lookedUp);
      cachedPageUUID := cache';
      dbs := dbs + [host.Snapshot()];
      oks := oks + [ok];
      if lookedUp.Some? {
        lookups := lookups + [lookedUp.value];
      }
    }
    assert entries[..|entries|] == entries && oks[..|entries|] == oks;
    StepsAreBatch(g, entries, |entries|, dbs, oks, df, cfg, tpl, h);
    PageNamesAre(entries, cfg, h);
  }
}
