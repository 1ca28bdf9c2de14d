/**
 * The part of the Logseq graph the plugin reads and writes: named pages and
 * blocks with a parent, a content text and a property map. A block's uuid is
 * its position in `blocks`; the datascript lookups return the first match in
 * insertion order.
 */
module Store {
  import opened Types

  datatype Parent = PageRef(page: nat) | BlockRef(block: nat)
  datatype Block = Block(page: nat, parent: Parent, content: string, props: map<string, PropValue>)
  datatype Graph = Graph(pages: map<string, nat>, pageCount: nat, blocks: seq<Block>)

  /** Block `i` lies on an existing page, and its parent is that page or an
      earlier block of the same page. */
  predicate WellPlaced(db: Graph, i: nat)
    requires i < |db.blocks|
  {
    var b := db.blocks[i];
    && b.page < db.pageCount
    && match b.parent
       case PageRef(p) => p == b.page
       case BlockRef(q) => q < i && db.blocks[q].page == b.page
  }

  /** Pages name existing page ids, and every block is well placed. */
  predicate Valid(db: Graph) {
    && (forall n :: n in db.pages ==> db.pages[n] < db.pageCount)
    && (forall i :: 0 <= i < |db.blocks| ==> WellPlaced(db, i))
  }

  predicate ValidParent(db: Graph, parent: Parent) {
    match parent
    case PageRef(p) => p < db.pageCount
    case BlockRef(q) => q < |db.blocks|
  }

  /** The page a new block under `parent` lands on. */
  function PageOf(db: Graph, parent: Parent): nat
    requires ValidParent(db, parent)
  {
    match parent
    case PageRef(p) => p
    case BlockRef(q) => db.blocks[q].page
  }

  // ---- Text search (clojure.string/includes?) ----

  /** `t` occurs in `s` as a contiguous piece. */
  function Contains(s: string, t: string): bool
    decreases |s|
  {
    |t| <= |s| && (s[..|t|] == t || Contains(s[1..], t))
  }

  /** `t` occurs in `s` at offset `k`. */
  predicate OccursAt(s: string, t: string, k: int) {
    0 <= k && k + |t| <= |s| && s[k..k + |t|] == t
  }

  /** Contains agrees with the definition by an offset. */
  lemma {:induction false} ContainsAt(s: string, t: string)
    ensures Contains(s, t) <==> exists k :: OccursAt(s, t, k)
    decreases |s|
  {
    if |t| > |s| {
      if k :| OccursAt(s, t, k) {
        assert false;
      }
    } else if s[..|t|] == t {
      assert OccursAt(s, t, 0);
    } else {
      ContainsAt(s[1..], t);
      if Contains(s[1..], t) {
        var k :| OccursAt(s[1..], t, k);
        assert s[k + 1..k + 1 + |t|] == s[1..][k..k + |t|];
        assert OccursAt(s, t, k + 1);
      }
      forall k | OccursAt(s, t, k) && k != 0
        ensures OccursAt(s[1..], t, k - 1)
      {
        assert s[1..][k - 1..k - 1 + |t|] == s[k..k + |t|];
      }
    }
  }

  /** Every text contains itself, the empty text included. */
  lemma ContainsSelf(s: string)
    ensures Contains(s, s)
  {
  }

  // ---- First-match lookups ----

  /** The first index at or after `from` whose block satisfies `m`. */
  function First(blocks: seq<Block>, m: Block -> bool, from: nat): (r: Option<nat>)
    ensures r.Some? ==> from <= r.value < |blocks| && m(blocks[r.value])
    ensures r.Some? ==> forall j :: from <= j < r.value ==> !m(blocks[j])
    ensures r.None? ==> forall j :: from <= j < |blocks| ==> !m(blocks[j])
    decreases |blocks| - from
  {
    if from >= |blocks| then None
    else if m(blocks[from]) then Some(from)
    else First(blocks, m, from + 1)
  }

  /** A direct child of `parent` whose content contains `text`. */
  predicate ChildMatches(b: Block, parent: nat, text: string) {
    b.parent == BlockRef(parent) && Contains(b.content, text)
  }

  /** A block of `page` whose noteid property is `noteIdX`. */
  predicate RecordMatches(b: Block, page: nat, noteIdX: string) {
    b.page == page && "noteid" in b.props && b.props["noteid"] == PStr(noteIdX)
  }

  /** getHighlightBlockBy: the first child of `parent` whose content contains `text`. */
  function FindChild(db: Graph, parent: nat, text: string): (r: Option<nat>)
    ensures r.Some? ==> r.value < |db.blocks| && ChildMatches(db.blocks[r.value], parent, text)
    ensures r.Some? ==> forall j :: 0 <= j < r.value ==> !ChildMatches(db.blocks[j], parent, text)
    ensures r.None? ==> forall j :: 0 <= j < |db.blocks| ==> !ChildMatches(db.blocks[j], parent, text)
  {
    First(db.blocks, b => ChildMatches(b, parent, text), 0)
  }

  /** getWebPageBlockByNoteIdX: the first block of `page` carrying the note id. */
  function FindRecord(db: Graph, page: nat, noteIdX: string): (r: Option<nat>)
    ensures r.Some? ==> r.value < |db.blocks| && RecordMatches(db.blocks[r.value], page, noteIdX)
    ensures r.Some? ==> forall j :: 0 <= j < r.value ==> !RecordMatches(db.blocks[j], page, noteIdX)
    ensures r.None? ==> forall j :: 0 <= j < |db.blocks| ==> !RecordMatches(db.blocks[j], page, noteIdX)
  {
    First(db.blocks, b => RecordMatches(b, page, noteIdX), 0)
  }

  // ---- Writes ----

  datatype PageResult = PageResult(db: Graph, page: nat)

  /** getPage, then createPage when there is none. */
  function ResolvePage(db: Graph, name: string): (r: PageResult)
    ensures name in r.db.pages && r.db.pages[name] == r.page
    ensures name in db.pages ==> r.db == db
    ensures name !in db.pages ==>
              r.page == db.pageCount && r.db == Graph(db.pages[name := db.pageCount], db.pageCount + 1, db.blocks)
  {
    if name in db.pages then PageResult(db, db.pages[name])
    else PageResult(Graph(db.pages[name := db.pageCount], db.pageCount + 1, db.blocks), db.pageCount)
  }

  /** insertBlock as the last child of `parent`. */
  function Insert(db: Graph, parent: Parent, content: string, props: map<string, PropValue>): Graph
    requires ValidParent(db, parent)
  {
    db.(blocks := db.blocks + [Block(PageOf(db, parent), parent, content, props)])
  }

  /** upsertBlockProperty. */
  function SetProp(db: Graph, i: nat, key: string, value: PropValue): Graph
    requires i < |db.blocks|
  {
    db.(blocks := db.blocks[i := db.blocks[i].(props := db.blocks[i].props[key := value])])
  }

  /** upsertBlockProperty for every key of `props`. */
  function UpsertProps(db: Graph, i: nat, props: map<string, PropValue>): Graph
    requires i < |db.blocks|
  {
    db.(blocks := db.blocks[i := db.blocks[i].(props := db.blocks[i].props + props)])
  }

  lemma ResolvePageValid(db: Graph, name: string)
    requires Valid(db)
    ensures Valid(ResolvePage(db, name).db) && ResolvePage(db, name).page < ResolvePage(db, name).db.pageCount
  {
    var r := ResolvePage(db, name);
    assert forall i :: 0 <= i < |r.db.blocks| ==> WellPlaced(db, i) ==> WellPlaced(r.db, i);
  }

  lemma InsertValid(db: Graph, parent: Parent, content: string, props: map<string, PropValue>)
    requires Valid(db) && ValidParent(db, parent)
    ensures var r := Insert(db, parent, content, props);
            Valid(r) && r.blocks[|db.blocks|].parent == parent && r.blocks[|db.blocks|].content == content
  {
    var r := Insert(db, parent, content, props);
    forall i | 0 <= i < |r.blocks|
      ensures WellPlaced(r, i)
    {
      if i < |db.blocks| {
        assert WellPlaced(db, i);
      } else if parent.BlockRef? {
        assert WellPlaced(db, parent.block);
      }
    }
  }

  lemma SetPropValid(db: Graph, i: nat, key: string, value: PropValue)
    requires Valid(db) && i < |db.blocks|
    ensures Valid(SetProp(db, i, key, value))
  {
    var r := SetProp(db, i, key, value);
    forall j | 0 <= j < |r.blocks|
      ensures WellPlaced(r, j)
    {
      assert WellPlaced(db, j);
    }
  }

  lemma UpsertPropsValid(db: Graph, i: nat, props: map<string, PropValue>)
    requires Valid(db) && i < |db.blocks|
    ensures Valid(UpsertProps(db, i, props))
  {
    var r := UpsertProps(db, i, props);
    forall j | 0 <= j < |r.blocks|
      ensures WellPlaced(r, j)
    {
      assert WellPlaced(db, j);
    }
  }

  /** A child lies after its parent. */
  lemma ChildAfterParent(db: Graph, parent: nat, text: string)
    requires Valid(db) && FindChild(db, parent, text).Some?
    ensures FindChild(db, parent, text).value > parent
  {
    assert WellPlaced(db, FindChild(db, parent, text).value);
  }

  /** The graph and the plugin settings the sync reads and writes, kept by
      the host application. */
  class Host {
    var pages: map<string, nat>
    var pageCount: nat
    var blocks: seq<Block>
    var token: string
    var lastCursor: string
    var lastSyncFailed: bool

    /** The graph as a value. */
    function Snapshot(): Graph
      reads this
    {
      Graph(pages, pageCount, blocks)
    }

    constructor(db: Graph, token: string, lastCursor: string, lastSyncFailed: bool)
      ensures Snapshot() == db && this.token == token && this.lastCursor == lastCursor
      ensures this.lastSyncFailed == lastSyncFailed
    {
      pages := db.pages;
      pageCount := db.pageCount;
      blocks := db.blocks;
      this.token := token;
      this.lastCursor := lastCursor;
      this.lastSyncFailed := lastSyncFailed;
    }

    /** logseq.Editor.getPage: the page's id when one has that name. */
    method GetPage(name: string) returns (r: Option<nat>)
      ensures r.Some? <==> name in pages
      ensures r.Some? ==> r.value == pages[name]
    {
      r := if name in pages then Some(pages[name]) else None;
    }

    /** logseq.Editor.createPage. */
    method CreatePage(name: string) returns (page: nat)
      modifies this
      requires name !in pages
      ensures ResolvePage(old(Snapshot()), name) == PageResult(Snapshot(), page)
      ensures token == old(token) && lastCursor == old(lastCursor) && lastSyncFailed == old(lastSyncFailed)
    {
      page := pageCount;
      pages := pages[name := pageCount];
      pageCount := pageCount + 1;
    }

    /** The datascript query behind getWebPageBlockByNoteIdX. */
    method QueryRecord(page: nat, noteIdX: string) returns (r: Option<nat>)
      ensures r == FindRecord(Snapshot(), page, noteIdX)
    {
      var i := 0;
      while i < |blocks|
        invariant i <= |blocks|
        invariant forall j :: 0 <= j < i ==> !RecordMatches(blocks[j], page, noteIdX)
      {
        if RecordMatches(blocks[i], page, noteIdX) {
          FirstIsUnique(blocks, b => RecordMatches(b, page, noteIdX), i);
          return Some(i);
        }
        i := i + 1;
      }
      r := None;
      FirstIsUnique(blocks, b => RecordMatches(b, page, noteIdX), |blocks|);
    }

    /** The datascript query behind getHighlightBlockBy. */
    method QueryChild(parent: nat, text: string) returns (r: Option<nat>)
      ensures r == FindChild(Snapshot(), parent, text)
    {
      var i := 0;
      while i < |blocks|
        invariant i <= |blocks|
        invariant forall j :: 0 <= j < i ==> !ChildMatches(blocks[j], parent, text)
      {
        if ChildMatches(blocks[i], parent, text) {
          FirstIsUnique(blocks, b => ChildMatches(b, parent, text), i);
          return Some(i);
        }
        i := i + 1;
      }
      r := None;
      FirstIsUnique(blocks, b => ChildMatches(b, parent, text), |blocks|);
    }

    /** A property of a block, as `block.properties[key]` reads it. */
    method GetProperty(uuid: nat, key: string) returns (r: Option<PropValue>)
      requires uuid < |blocks|
      ensures r.Some? <==> key in blocks[uuid].props
      ensures r.Some? ==> r.value == blocks[uuid].props[key]
    {
      r := if key in blocks[uuid].props then Some(blocks[uuid].props[key]) else None;
    }

    /** logseq.Editor.insertBlock with `sibling: false`: a new last child. */
    method InsertBlock(parent: Parent, content: string, props: map<string, PropValue>) returns (uuid: nat)
      modifies this
      requires ValidParent(Snapshot(), parent)
      ensures Snapshot() == Insert(old(Snapshot()), parent, content, props) && uuid == |old(blocks)|
      ensures token == old(token) && lastCursor == old(lastCursor) && lastSyncFailed == old(lastSyncFailed)
    {
      uuid := |blocks|;
      blocks := blocks + [Block(PageOf(Snapshot(), parent), parent, content, props)];
    }

    /** logseq.Editor.upsertBlockProperty. */
    method UpsertBlockProperty(uuid: nat, key: string, value: PropValue)
      modifies this
      requires uuid < |blocks|
      ensures Snapshot() == SetProp(old(Snapshot()), uuid, key, value)
      ensures token == old(token) && lastCursor == old(lastCursor) && lastSyncFailed == old(lastSyncFailed)
    {
      blocks := blocks[uuid := blocks[uuid].(props := blocks[uuid].props[key := value])];
    }

    /** logseq.updateSettings({ wuCaiToken }). */
    method SetToken(t: string)
      modifies this
      ensures token == t && Snapshot() == old(Snapshot()) && lastCursor == old(lastCursor) && lastSyncFailed == old(lastSyncFailed)
    {
      token := t;
    }

    /** logseq.updateSettings({ lastCursor }). */
    method SetLastCursor(c: string)
      modifies this
      ensures lastCursor == c && Snapshot() == old(Snapshot()) && token == old(token) && lastSyncFailed == old(lastSyncFailed)
    {
      lastCursor := c;
    }

    /** logseq.updateSettings({ lastSyncFailed }). */
    method SetLastSyncFailed(f: bool)
      modifies this
      ensures lastSyncFailed == f && Snapshot() == old(Snapshot()) && token == old(token) && lastCursor == old(lastCursor)
    {
      lastSyncFailed := f;
    }
  }

  /** A first match found by scanning is what First returns. */
  lemma {:induction false} FirstIsUnique(blocks: seq<Block>, m: Block -> bool, i: nat)
    requires i <= |blocks|
    requires forall j :: 0 <= j < i ==> !m(blocks[j])
    requires i < |blocks| ==> m(blocks[i])
    ensures First(blocks, m, 0) == if i < |blocks| then Some(i) else None
  {
    var r := First(blocks, m, 0);
    if r.Some? {
      assert r.value >= i;
    }
  }
}
