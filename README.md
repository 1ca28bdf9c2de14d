# WuCai highlight sync for Logseq, modelled in Dafny

The WuCai Logseq plugin copies web highlights from the WuCai service into a
Logseq graph. A sync starts in `exportInit`:

1. It refuses to run while the user is on another graph.
2. It asks the service where to resume.
3. It stops at once when the service has nothing new.
4. Otherwise it fills in the export configuration's defaults and parses the templates.
5. It then hands over to `downloadArchive`.

`downloadArchive` fetches one page of note entries at a time. For each entry it:

- finds or creates the page the entry belongs to, through a per-batch page cache;
- finds the entry's record block by its `noteid` property, or creates it;
- under that record, finds or creates one block per highlight;
- writes each highlight's annotation, either as a `note` property or as a child block.

downloadArchive then decides from the cursor the service returned whether to
stop, complete, or fetch the next page. Three smaller routines sit around
this:

- `checkResponseBody` judges a reply envelope, and clears the stored token on three error codes;
- `getErrorMessageFromResponse` names a failed HTTP reply;
- `getLastCursor` picks the cursor to keep.

The utility `splitStringAndTrimEmptyLine` turns a text into its trimmed, non-empty lines.

The model works at two levels:

- **Specification functions on values.** `Store.Graph` is the graph. `SyncApi`, `ExportDefaults`, `EntryBlock`, `Upsert`, `Download` and `SyncInit` define each step.
- **Imperative methods.** `Store.Host` is a class holding the graph and the plugin settings, changed in place. The methods `EntryBlock.GetNewEntryBlock`, `Engine.ProcessEntries`, `Download.DownloadArchive`, `SyncInit.ExportInit` and `TextUtils.SplitStringAndTrimEmptyLine` run the source's loops and are each proved equal to their specification function.

The main theorems:

- **Re-syncing an entry changes nothing.** See `Idempotence.UpsertEntryIdempotent`.
- **The page loop never sends the same cursor twice in a row.** Every fetch after the first follows a reply that asked for it, and the saved settings evolve as stated. See the `Download` lemmas.
- **A sync never erases a saved cursor.** See `SyncInit.SavedCursorNeverErased`.

Things the model receives as parameters:

- The service's replies: the init reply, and a script of page replies. A fetch past the end of the script stands for a fetch that threw.
- `window.onAnotherGraph` and `IS_DEBUG`, as booleans.
- The helpers whose code is not part of this model, as uninterpreted functions in `Types.Helpers`: WuCaiUtils (renderTemplate, formatTitle, formatContent, generatePageName, getHighlightUrl, parserAttrTemplate, preParserTemplate) and formatDate. A render that throws is `None`. Every helper except renderTemplate is taken never to throw; in the source a throwing formatDate, formatContent or getHighlightUrl would fail the entry through the catch at src/main.tsx:504-507.

## Model

| member | source | states |
|---|---|---|
| SyncApi.GetLastCursor | src/main.tsx:250-252 | the server's cursor when non-empty, else the saved one; empty exactly when both are empty, so an empty server cursor never replaces a saved one |
| SyncApi.CheckResponseBody | src/main.tsx:168-191 | a missing body fails with "WuCai: call api failed" and code 1; the envelope is OK exactly when its code is 1, with an empty message; any other code fails with that code and the message "WuCai: code message-or-default" |
| SyncApi.ClearsTokenOnlyOnFailure | src/main.tsx:183-186 | the codes 10000, 10100 and 10101 that clear the token only ever come with a failed verdict carrying that code |
| SyncApi.GetErrorMessageFromResponse | src/main.tsx:193-201 | 409 and 417 map to their fixed messages, any other status to its status text, and no response to "Can't connect to server" |
| SyncApi.TakeDigits | src/main.tsx:188 | a reader the source does not have, written to show the code is recoverable from the message: the longest prefix of ASCII digits of a text |
| SyncApi.ErrorTextStatesCode | src/main.tsx:187-189 | the message is built so that the error code can be read back from it: the model's reader, which the source does not have, inverts the message format |
| SyncApi.ReadSignedNumber | src/main.tsx:188 | the model's own reader inverts the code's text in the message: the decimal text of any integer, followed by a non-digit, reads back as that integer |
| ExportDefaults.OrStr | src/main.tsx:337-346 | JavaScript's `s \|\| d` for a string field: the field when present and non-empty, else the default |
| ExportDefaults.OrInt | src/main.tsx:337-340 | `n \|\| d` for a number field: the field when present and non-zero, else the default |
| ExportDefaults.ApplyDefaults | src/main.tsx:324-346 | every falsy field takes its default ("note", 1, 2, 2, "", "{{title}}", "collapsed:: true", "{{note}}", "{{anno}}"); a truthy field is kept; a missing configuration gives all the defaults; the result has no falsy template or mode field |
| ExportDefaults.DefaultsAreStable | src/main.tsx:336-346 | sending back a configuration after its defaults and applying them again changes nothing |
| ExportDefaults.CompleteConfigKept | src/main.tsx:336-346 | a configuration with every field truthy is taken exactly as sent |
| Decimal.NatToString | src/main.tsx:476 | the slot number in the view is a number that the template renders as its decimal text: a non-empty digit string without a leading zero |
| Decimal.IntToString | src/main.tsx:188 | the text of a negative number is a minus sign followed by the text of its magnitude |
| Decimal.DigitsValueOfNatToString | src/main.tsx:127-128 | parseInt of a number's decimal text gives the number back |
| Decimal.NatToStringInjective | src/main.tsx:476 | different slot numbers render as different texts, so the rendered slot tells highlights apart |
| EntryBlock.Coerce | src/main.tsx:125-129 | "true"/"false" become the matching boolean, all-digit texts become numbers, and any other text stays as written |
| EntryBlock.CoerceNumber | src/main.tsx:127-128 | a number's decimal text is stored as that number |
| EntryBlock.Title | src/main.tsx:133-146 | the title is never empty (it falls back to "No title"); it can only throw when the title template has tags |
| EntryBlock.GetNewEntryBlock | src/main.tsx:89-148 | the attribute loop builds exactly the record block that the specification of getNewEntryBlock describes, throwing exactly when it does |
| EntryBlock.ApplyAttrsFailed | src/main.tsx:116-131 | once one attribute's template throws, the whole block throws |
| EntryBlock.ApplyAttrsAt | src/main.tsx:116-131 | per key: the coerced value of the last attribute of that name whose text is non-empty, or the value from before the loop when there is none; empty values are skipped |
| EntryBlock.NoteIdProperty | src/main.tsx:107-109 | the noteid property is always present, and equals the entry's id unless an attribute template overrides it |
| EntryBlock.LastSetNeedsName | src/main.tsx:130 | no attribute sets a key that no attribute template names |
| EntryBlock.NoteAndDateProperties | src/main.tsx:110-115 | `note` is present exactly when page notes are attributes or an attribute named note sets it; `date` is present exactly when the journal setting is 1 or an attribute named date sets it; with no such attribute, they hold the page note and `[[formatted creation date]]` |
| EntryBlock.AttributeProperty | src/main.tsx:116-131 | any other key is present exactly when an attribute with text sets it, and holds the coerced text of the last one |
| EntryBlock.LastSetNonEmpty | src/main.tsx:122-124 | an attribute value that is stored is never empty |
| EntryBlock.TitleNeverEmpty | src/main.tsx:144-146 | the record block's title is never empty, so the `if (!title)` guard at download time never fires |
| Store.ContainsAt | src/main.tsx:215 | the substring test behind `clojure.string/includes?` holds exactly when the text occurs at some offset |
| Store.ContainsSelf | src/main.tsx:215 | every text includes itself, so a block's content always matches itself |
| Store.First | src/main.tsx:219 | the first block at or after an index that satisfies the condition, or None when no block does |
| Store.FindChild | src/main.tsx:204-220 | getHighlightBlockBy: the first child of the parent whose content includes the text, or None when no child does |
| Store.FindRecord | src/main.tsx:223-236 | getWebPageBlockByNoteIdX: the first block of the page whose noteid is the note id, or None when no block has it |
| Store.ResolvePage | src/main.tsx:419-428 | getPage, then createPage: an existing page is returned and the graph is unchanged; a missing name gets the next page id and the blocks are unchanged |
| Store.ResolvePageValid | src/main.tsx:419-428 | resolving a page keeps the graph well formed, and the page id is valid |
| Store.InsertValid | src/main.tsx:441-444 | inserting a block under an existing parent keeps the graph well formed |
| Store.SetPropValid | src/main.tsx:452 | upserting a property keeps the graph well formed |
| Store.UpsertPropsValid | src/main.tsx:450-453 | upserting many properties keeps the graph well formed |
| Store.ChildAfterParent | src/main.tsx:481-483 | a found child comes after its parent in insertion order |
| Store.FirstIsUnique | src/main.tsx:219 | the first match found by a scan is the one First returns |
| Store.Host.constructor | src/main.tsx:281 | the host starts with the given graph and settings |
| Store.Host.GetPage | src/main.tsx:420 | a page id is returned exactly when a page has that name |
| Store.Host.CreatePage | src/main.tsx:422 | creating a page is the missing-name branch of ResolvePage; the settings are unchanged |
| Store.Host.QueryRecord | src/main.tsx:223-236 | the scan returns exactly the result FindRecord specifies |
| Store.Host.QueryChild | src/main.tsx:204-220 | the scan returns exactly the result FindChild specifies |
| Store.Host.GetProperty | src/main.tsx:491-492 | a property is read exactly when the block has it |
| Store.Host.InsertBlock | src/main.tsx:441-444 | the graph becomes Insert of the old graph, the new block's id is the next index, and the settings are unchanged |
| Store.Host.UpsertBlockProperty | src/main.tsx:452 | the graph becomes SetProp of the old graph; the settings are unchanged |
| Store.Host.SetToken | src/main.tsx:184 | only the token changes |
| Store.Host.SetLastCursor | src/main.tsx:519 | only the saved cursor changes |
| Store.Host.SetLastSyncFailed | src/main.tsx:150-155 | only the failure flag changes |
| Upsert.NoteCore | src/main.tsx:468-480 | an image highlight becomes `![](url)`; any other highlight is the highlight template rendered against the highlight's view |
| Upsert.ImageIgnoresText | src/main.tsx:469-470 | an image highlight's block is the same whatever its note text, colour or slot, and never throws |
| Upsert.PageNoteHighlight | src/main.tsx:458-461 | the page note becomes a text highlight with no image and no annotation; its view shows the page note formatted twice, and slot 1 |
| Upsert.HighlightsAsWritten | src/main.tsx:455-464 | the list as written throws exactly when there is a page note to put in front and the entry has no highlight list |
| Upsert.HighlightsToWrite | src/main.tsx:455-464 | the list in the corrected order: the entry's highlights, or none, with exactly one extra highlight in front when the page note is shown as a highlight |
| Upsert.WriteNote | src/main.tsx:490-495 | only the highlight block's `note` property can change, and afterwards it loosely equals the annotation; every other block, key and field is unchanged |
| Upsert.PageNoteFirst | src/main.tsx:455-464 | the page note is put before the highlights exactly when there is one and it is not an attribute; otherwise the list is the entry's highlights or empty |
| Upsert.AsWrittenAgrees | src/main.tsx:455-464 | where the code as written does not throw, it builds the same list as the corrected order |
| Upsert.PageNoteLostAsWritten | src/main.tsx:455-464 | an entry with a page note to show and no highlight list throws as written, but gets its page note written in the corrected order |
| Upsert.CorrectedOnPageAgrees | src/main.tsx:455-503 | whenever the list as written can be built, the entry's writes as written and in the corrected order are the same |
| Upsert.PageNoteLostOnPage | src/main.tsx:441-507 | with a page note to show and no highlight list, the entry as written fails after its record block is written and writes no highlight; corrected, the page note is its only highlight |
| Upsert.UpsertOnPageCorrected | src/main.tsx:433-503 | the writes with the list in the corrected order keep the graph well formed and create no page |
| Upsert.FindOrInsert | src/main.tsx:481-487 | a child whose content includes the text is inserted only when none exists; otherwise the first existing one is reused and the graph is unchanged |
| Upsert.WriteNoteOnlyIfDifferent | src/main.tsx:490-495 | writing the annotation as `note` leaves the graph as it is exactly when the old value loosely equals the text; afterwards the two always loosely agree |
| Upsert.HighlightStep | src/main.tsx:467-503 | one highlight only adds blocks and changes properties; it never touches pages |
| Upsert.Highlights | src/main.tsx:467-503 | the highlight loop only adds blocks and changes properties; it never touches pages |
| Upsert.HighlightsStop | src/main.tsx:467-507 | once a highlight throws, the ones after it are not processed |
| Upsert.PlaceRecord | src/main.tsx:434-454 | the record phase leaves the pages alone and yields an existing block |
| Upsert.PlaceRecordInsertsOnlyIfAbsent | src/main.tsx:440-454 | a record block is inserted only when no block of the page carries the note id; otherwise the first such block has its new properties upserted |
| Upsert.UpsertEntry | src/main.tsx:415-507 | processing one entry keeps the graph well formed, whether it completes or throws |
| Upsert.UpsertOnPage | src/main.tsx:433-507 | the writes on a resolved page, with the highlight list built as written, keep the graph well formed and create no page |
| Upsert.FindOrInsertValid | src/main.tsx:481-487 | find-or-insert keeps the graph well formed |
| Upsert.HighlightStepValid | src/main.tsx:467-503 | one highlight keeps the graph well formed |
| Upsert.HighlightsValid | src/main.tsx:467-503 | the highlight loop keeps the graph well formed |
| Upsert.PlaceRecordValid | src/main.tsx:434-454 | the record phase keeps the graph well formed |
| Upsert.Batch | src/main.tsx:414-508 | the entry loop keeps the graph well formed and has one outcome per entry |
| Upsert.BatchStep | src/main.tsx:415-508 | the entry loop one entry further is that entry processed on the graph left by the entries before it |
| Upsert.StepsAreBatch | src/main.tsx:414-508 | entries processed one after another, each on the graph the one before left, give exactly the entry loop's graph and outcomes |
| Upsert.BatchProcessesEvery | src/main.tsx:415-507 | an entry that throws does not stop the loop: every entry is processed on the graph the earlier entries left |
| Idempotence.UpsertEntryIdempotent | src/main.tsx:415-507 | processing an entry again on the graph its first processing left changes nothing and gives the same outcome, including an entry that fails after its record is written, unless an attribute template is named noteid |
| Idempotence.HighlightsAgain | src/main.tsx:434-503 | run again under a record the lookup finds first and that holds its properties, the record phase changes nothing and the highlight loop leaves the graph and the outcome as they were |
| Idempotence.HighlightsExt | src/main.tsx:467-503 | the highlight loop only appends blocks: the graph before it is a prefix of the graph after it |
| Idempotence.StepReplay | src/main.tsx:467-503 | one highlight replayed on a graph with the structure it left makes the same writes and inserts no block |
| Idempotence.FindChildExt | src/main.tsx:204-220 | adding blocks does not change which child a lookup finds first, once one is found |
| Idempotence.FindRecordExt | src/main.tsx:223-236 | adding blocks does not change which record a lookup finds first, once one is found |
| Idempotence.FindOrInsertFirst | src/main.tsx:481-487 | after find-or-insert, the block it yields is the first match in every later graph |
| Idempotence.FindOrInsertReplay | src/main.tsx:481-487 | on a graph with the same structure, a second find-or-insert reuses the block and inserts nothing |
| Idempotence.HighlightsReplay | src/main.tsx:467-503 | the highlight loop run again on a graph with the structure it left makes the same writes, stops at the same highlight, and inserts no block |
| Idempotence.NoteFoldClosed | src/main.tsx:490-495 | a run of annotation-as-attribute writes leaves the map alone when each text matches its note, and otherwise leaves the last text as `note` |
| Idempotence.NoteFoldIdempotent | src/main.tsx:490-495 | replaying a run of annotation writes on its own result changes nothing |
| Idempotence.HighlightsFolded | src/main.tsx:467-503 | after the highlight loop, every block's properties are its initial ones with its annotation writes folded in |
| Idempotence.WritesAfterRecord | src/main.tsx:481-495 | every annotation write of the highlight loop goes to a block after the record |
| Idempotence.RecordFoundAgain | src/main.tsx:434-454 | after the record phase, the record lookup finds that block first, and it holds every property just written |
| Idempotence.UpsertPropsHeld | src/main.tsx:450-453 | upserting properties a block already holds changes nothing |
| Engine.UpsertRecordProps | src/main.tsx:449-453 | upserting each key in turn gives the graph UpsertProps specifies; the settings are unchanged |
| Engine.PlaceChild | src/main.tsx:481-487 | the query then the insert give exactly FindOrInsert's result |
| Engine.ProcessHighlights | src/main.tsx:464-503 | the highlight loop on the host gives exactly the graph and outcome Highlights specifies |
| Engine.ResolvePageCached | src/main.tsx:417-432 | the cache's page, or getPage/createPage on a miss, is ResolvePage's page; the cache gains that name; the host is asked only on a miss |
| Engine.ProcessOnPage | src/main.tsx:433-507 | the record and highlight writes on the host are exactly those UpsertOnPage specifies, including the failure after the record when the highlight list cannot be built |
| Engine.ProcessEntry | src/main.tsx:415-507 | one entry on the host is exactly UpsertEntry; the cache gains only the entry's page name and stays in agreement with the graph |
| Engine.PageNamesAre | src/main.tsx:417 | the page names of a batch are exactly the names its entries map to |
| Engine.ProcessEntries | src/main.tsx:413-508 | the entry loop on the host gives exactly Batch's graph; each page name is looked up at most once per batch, and exactly the names of the batch's entries are |
| Download.PageStep | src/main.tsx:374-540 | one page keeps the graph well formed; it continues only to a non-empty cursor that differs from the one just sent |
| Download.Download | src/main.tsx:365-541 | the recursion over pages keeps the graph well formed |
| Download.CursorsAdvance | src/main.tsx:510-540 | the first fetch sends the given cursor; each later one sends a non-empty cursor different from the one before; there is at most one fetch per reply, plus one |
| Download.NextContinues | src/main.tsx:510-531 | a page leads to another fetch only after a successful envelope with entries and debug off, whose effective cursor is new and non-empty |
| Download.FetchesOnlyOnContinue | src/main.tsx:510-540 | every fetch but the last follows a reply that continued the loop to exactly the next cursor sent |
| Download.SettingsAfterSync | src/main.tsx:400-528 | the saved cursor is the last one sent, or on completion getLastCursor of the last reply's cursor; the failure flag is cleared only on completion; the token becomes empty exactly when the last reply's envelope has a token-clearing code, which always ends the loop in failure, and is kept otherwise |
| Download.SameCursorTwice | src/main.tsx:511-516 | a service that returns the same cursor twice is asked exactly twice, whatever it would answer afterwards, and the repeated cursor stays saved |
| Download.EmptyPageCompletes | src/main.tsx:510-527 | a page with no entries and a new cursor completes after one fetch and saves that cursor, with the graph unchanged |
| Download.DownloadStep | src/main.tsx:531-539 | the run from a reply index is that page's step followed by the run from the next reply |
| Download.FetchPage | src/main.tsx:374-528 | one fetch on the host does exactly what PageStep specifies, including the token clearing and the cursor and flag writes |
| Download.DownloadArchive | src/main.tsx:365-541 | the loop over pages on the host leaves exactly the state, stop reason and cursors sent that Download specifies |
| SyncInit.Export | src/main.tsx:255-363 | exportInit keeps the graph well formed and touches it only when it goes on to download |
| SyncInit.AnotherGraphOnlyFlagsFailure | src/main.tsx:258-270 | on another graph, nothing is asked of the service and only the failure flag is set |
| SyncInit.SavedCursorNeverErased | src/main.tsx:311-314 | after a sync the saved cursor is the one from before, or a non-empty one |
| SyncInit.SyncResumesFromInitCursor | src/main.tsx:311-362 | the page loop starts from the cursor the service returned, or the saved one, with the configuration after defaults and the parsed templates |
| SyncInit.NothingToSyncIsUpToDate | src/main.tsx:316-322 | a task status other than SYNCING clears the failure flag and leaves the graph and the token alone |
| SyncInit.TokenKeptUnlessRejected | src/main.tsx:300-307 | the token becomes empty exactly when the init reply, or the reply to the last page fetch, has an envelope with a token-clearing code, and is kept otherwise; a rejected init ends the sync before any fetch, and a rejected page ends the loop in failure |
| SyncInit.ExportInit | src/main.tsx:255-363 | exportInit on the host leaves exactly the state and outcome Export specifies |
| TextUtils.Split | src/utils.ts:9 | `split('\n')` always gives at least one piece |
| TextUtils.Cleaned | src/utils.ts:11-15 | one cleaned line per input line |
| TextUtils.SplitStringAndTrimEmptyLine | src/utils.ts:5-21 | the loop returns the cleaned lines that are not empty, in their original order (nothing for a null or empty text); each is non-empty, has no whitespace at either end, and has no CR or LF |
| TextUtils.KeepCleanedStep | src/utils.ts:16-18 | one turn of the loop appends the next cleaned line exactly when it is not empty |
| TextUtils.CleanLineWellFormed | src/utils.ts:12-15 | a non-empty cleaned line has no whitespace at either end and no CR or LF |
| TextUtils.KeepCleanedWellFormed | src/utils.ts:16-18 | every kept line is non-empty and trimmed |
| TextUtils.NonEmptyFrom | src/utils.ts:16-18 | each kept element is an element of the input |
| TextUtils.NonEmptyLength | src/utils.ts:11-19 | there is at most one output element per input line |
| TextUtils.NonEmptyIsOrderedFilter | src/utils.ts:11-19 | a non-empty element lands right after the kept elements that came before it |
| TextUtils.SplitTrimmedOrder | src/utils.ts:9-19 | a line whose cleaned form is non-empty appears at the position given by how many earlier lines were kept |
| TextUtils.SplitTrimmedLength | src/utils.ts:9-19 | the output has at most as many elements as the text has lines |
| TextUtils.SplitLength | src/utils.ts:9 | the number of lines is one more than the number of line feeds |
| TextUtils.SplitPiecesHaveNoLineFeed | src/utils.ts:9 | no piece of the split holds a line feed |
| TextUtils.JoinSplit | src/utils.ts:9 | joining the pieces with line feeds gives the text back |
| TextUtils.SplitJoin | src/utils.ts:9 | splitting a join of lines that hold no line feed gives the lines back |
| TextUtils.CollapseFirstRunOnly | src/utils.ts:13 | only the first whitespace run becomes one space; the text after it is untouched |
| TextUtils.DropSpacesSuffix | src/utils.ts:13-15 | dropping leading whitespace leaves a suffix that does not start with whitespace |
| TextUtils.TrimEndPrefix | src/utils.ts:15 | trimming the end leaves a prefix that does not end with whitespace |
| TextUtils.StripCrLfHasNone | src/utils.ts:14 | after the global replace, no CR or LF is left |
| TextUtils.NotIdempotent | src/utils.ts:13 | the routine is not idempotent: "  a  b" gives ["a  b"], which a second pass turns into ["a b"] |
| TextUtils.SingleLine | src/utils.ts:9-19 | a text without line feeds gives its cleaned line, or nothing when the cleaned line is empty |

## Left out

- Network and authorization. The model does not include `callApi`, `getUserAuthToken`, `acknowledgeSyncCompleted` or `getLogseqClientID`. Replies are parameters; the acknowledgement is the `Completed` stop reason.
- Timers, notifications and UI. The 2-second and 5-second delays, `setNotification`, `setIsSyncing`, `showMsg`, the log calls, the React app and `useAppVisible` are all left out. The plugin's `main()`, its styles and toolbar, and the scheduler that is commented out are left out too.
- Host calls do not fail in the model. If `createPage` or `insertBlock` returned nothing, the source's `continue` would fire; the model has no such branch.
- The datascript query text and `escapeQuotes` are not modelled. The model gives only each query's result: the first match in insertion order. The real query result has no stated order.
- Lookups are exact. A page is matched by its exact name. A block's uuid is its index in the graph.
- Order and aliasing within an entry are not modelled: the graph is a value, and the entry's highlight list is rebuilt rather than changed in place.
- Engine.UpsertRecordProps: the order of `Object.keys` is not modelled. The loop takes the keys in any order; the result is the same because writes to different keys commute.
- The `if (!title) continue` at src/main.tsx:436-438 is not modelled. `EntryBlock.TitleNeverEmpty` proves it can never fire.
- Malformed replies are outside the model: for example, a body without `data`, or an init reply whose `data` has no fields. Each such reply has the fields well typed. A missing `notes` list is the empty list.
- Template parsing is not modelled. `Types.Helpers` holds the WuCaiUtils helpers and formatDate with no bodies; WuCaiUtils is not part of this model.
- SyncInit.ExportInit: preParserTemplate is taken to return the templates it prepares. The source ignores its return value apart from `message`, and passes on `parsedTemplate`, which the helper presumably changes in place.
- SyncInit.ExportInit: the `auto` flag changes only how messages are shown, so it is not a parameter.
- Upsert.WriteNoteOnlyIfDifferent: JavaScript's loose `!=` is modelled exactly only between texts. A stored number or boolean is compared against the empty text (as 0) and against digit texts only.
- EntryBlock.Coerce: parseInt on very long digit strings loses precision as a double; the model keeps the exact value.
- Download.Download: the recursion ends because the reply script is finite. Against a service that keeps returning new cursors forever, the source would not stop; `Download.CursorsAdvance` shows only that no cursor repeats back to back.
- Idempotence.UpsertEntryIdempotent is proved only when no attribute template is named `noteid`. Such a template could make the record unfindable by its own note id.
- Fields the core does not read (note type, user ids and the like) are not in `Types.NoteEntry`.

## Findings

| source | as written | input that shows it | evidently intended | confidence | as-written member | corrected member |
|---|---|---|---|---|---|---|
| src/main.tsx:455-464 | `entry.highlights.unshift(...)` runs before `entry.highlights = entry.highlights \|\| []` | an entry with a page note, `logseqPageNoteAsAttr` other than 1, and no `highlights` field: `unshift` on undefined throws after the record block is already written, so the entry fails and its page note is never written | apply the empty default first, then put the page note in front, so that the page note is written as the only highlight | not executed | Upsert.PageNoteLostOnPage | Upsert.UpsertOnPageCorrected |
