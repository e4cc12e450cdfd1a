# Verified models of the language server's core

This project models, in Dafny, the parts of the language server and its SCIP library where a
simple meaning is implemented by something fast, stateful or concurrent, and proves that the two
agree. `dafny verify dfyconfig.toml` checks all of it.

## Contents

| files | component | main results |
|---|---|---|
| `Utf8`, `Positions`, `TextOffsetMapper` | byte offsets and UTF-16 positions | both round trips with their exact exceptions, order, exactly which positions are accepted |
| `Diffs`, `PositionMapper` | positions across two versions of a document | every position maps, order is kept, and where exactly each position lands |
| `TextEdits` | edits made from a diff | applying them by the rules of LSP 3.17 gives the target text; exactly when a carriage return spoils that |
| `ContentChanges` | incremental changes | agreement with the LSP 3.17 reading exactly for back-to-front lists |
| `DocumentStore` | open documents | over every run: text, base, version, edits and mapper of a document are what the history of calls says, also when calls overlap; a base has no base |
| `Wire`, `ScanSpec`, `ScanEnds`, `BufferPool`, `Scanner` | SCIP scanner | on well-formed input the scan visits what a full parse and the predicates give; exactly when a scan of any bytes ends, and its visits and errors if it does; buffers are never shared |
| `SymbolTable`, `PrefixTree` | symbol prefix tree | linked nodes behave like a flat table under add, merge, prune and lookup; pruning spares what is current |
| `Notifier`, `NotifierLog`, `SenderCount` | persistent notifier | safety of every interleaving exactly for at most one notifier, absence of deadlock, delivery of exactly the messages that the calls made call for |
| `Occurrences` | occurrence lookup | binary search agrees with linear search, whatever diagnostics were inserted; exactly when it is right everywhere |
| `DependencyClosure` | dependency search | what is found is what routes reach; when exactly the search ends |
| `BatchedOutputs` | batched output collection | when exactly batches collect what one pass collects; independence of the number of workers |
| `IdleTimer`, `PluginOrder` | daemon scheduling | the timer is armed at rest exactly when there are no sessions, and the one exception; each plugin runs once, in order |

Code that computes is modelled by functions, code that changes state in place by methods and
classes; concurrent code is a state machine whose steps are what the locks and channels make
atomic. Texts are byte sequences. The standards referred to are the LSP 3.17 specification
(sections "Position", "TextEdit[]" and "DidChangeTextDocument Notification") and the Protocol
Buffers Encoding guide (sections "Base 128 Varints" and "Length-Delimited Records").

## Findings

Some natural expectations are false of the code. The code is modelled as it is; each case below is
shown by a concrete input or for all inputs, with the condition under which the expectation holds.

- An edit that starts or ends between a carriage return and its line end is displaced by the
  conversion to positions (`CrlfToLfIsLost`). One edit keeps its effect exactly when it `Survives`;
  two lost edits can cancel out (`LostEditsCanCancel`), but every selection of the edits keeps its
  effect exactly when all of them survive (`SelectionsKeepEffectIff`).
- A list of changes that is not back to front can be applied in the wrong place without an error
  (`FrontToBackDiffers`). Whatever the new texts, a list agrees with the specification exactly when
  each change ends at or before the start of the one before (`ListAgreesIff`).
- A handler shared by several notifiers can be closed under one of them
  (`SeveralNotifiersCanPanic`); every run is safe exactly with at most one notifier
  (`SafeIffAtMostOne`).
- Occurrences ordered by their starts alone are not enough for the lookup (`NestedRangeIsMissed`).
  A caller can rely on starts and ends both being in order; for starts alone, a match is missed
  exactly when a range on the way to it in the tree of midpoints hides it and nothing makes up for
  that (`MissedIffHidden`, `RightEverywhereIff`).
- `Initialize` can put back a session that has ended. When nothing is left that would notice, the
  timer stays armed beside a session (`EndedSessionComesBack`); all other runs are right.
- Targets in one batch that share a label overwrite each other (`EarlierIsLost`).
- The dependency search does not end when it meets a cycle of exports (`SelfExportNeverEnds`), and
  only then.
- A skipped field of length 2^63 or more takes the reader backwards. There are eleven bytes that no
  scan gets done with (`IndexIsNeverDone`). A skip goes forward exactly if its length does not lead
  back (`SkipsForwardIff`); a scan ends exactly when it meets no position twice, at any of its levels
  (`SearchEndsIff`, `ScanEndsIff`), and so in particular if nothing leads back.
- An occurrence without a symbol can parse in full and still abort the scan (`NoSymbolAborts`). In a
  message that parses, a key is found exactly when all fields up to it are length-delimited with
  tags of one byte (`FoundIffPlain`).

## Model

| member | source | states |
|---|---|---|
| `Utf8.DecodeInvertsEncode` | src/ulsp/internal/protocol/mapper.go:77-86 | decoding gives back every scalar value from its UTF-8 form, whatever follows it |
| `Utf8.EncodeInvertsDecode` | src/ulsp/internal/protocol/mapper.go:77-86 | a well-formed rune is the one and only encoding of what it decodes to |
| `Utf8.DecodeIsLocal` | src/ulsp/internal/protocol/mapper.go:77-87 | decoding a well-formed rune looks at no byte beyond it |
| `Utf8.ConcatValid` | src/ulsp/internal/protocol/mapper.go:155-173 | validity and UTF-16 length are compositional behind a valid first part |
| `Utf8.BoundaryByNextByte` | src/ulsp/internal/protocol/mapper.go:77-98 | an offset cuts no rune of valid text exactly when no continuation byte follows it |
| `Utf8.AsciiUtf16Len` | src/ulsp/internal/protocol/mapper.go:118-122 | the shortcut for texts without high bytes agrees with the UTF-16 length |
| `Utf8.CountUtf16` | src/ulsp/internal/protocol/mapper.go:155-173 | the counting loop with its ASCII path gives the length of the UTF-16 transcoding of any bytes |
| `Positions.OffsetRoundTrip` | src/ulsp/internal/protocol/mapper.go:58-152 | an offset of valid text at a rune boundary has a position that resolves to the offset again, or to the offset before it just after a carriage return at a line end |
| `Positions.OffsetComesBack` | src/ulsp/internal/protocol/mapper.go:58-152 | the same in bytes: a boundary comes back unless it follows byte 13 at the end of the text or before byte 10, and then the offset before it does |
| `Positions.OffsetPositionMonotone` | src/ulsp/internal/protocol/mapper.go:102-152 | positions of boundaries follow document order, and coincide only around a carriage return at a line end |
| `Positions.AcceptedPositions` | src/ulsp/internal/protocol/mapper.go:58-99 | in valid text, exactly the columns up to the end of each line and the start of the line after the last are accepted |
| `Positions.RejectedPositions` | src/ulsp/internal/protocol/mapper.go:61-86 | which error each other position of valid text gets |
| `Positions.EndsResolve` | src/ulsp/internal/protocol/mapper.go:61-72 | the start of the first line resolves to the start of the text, and that of the line after the last to its end |
| `Positions.ResolvedOffset` | src/ulsp/internal/protocol/mapper.go:71-98 | in any bytes, an accepted position resolves to an offset on its own line at its column, or one unit before it in front of a surrogate pair |
| `Positions.ResolvedIsBoundary` | src/ulsp/internal/protocol/mapper.go:71-98 | in valid text, an accepted position resolves to a rune boundary |
| `Positions.PositionOffsetMonotone` | src/ulsp/internal/protocol/mapper.go:58-99 | resolving positions keeps document order, in any bytes |
| `Positions.PositionRoundTrip` | src/ulsp/internal/protocol/mapper.go:58-152 | a position comes back from its offset exactly when it is on a line of the text, splits no surrogate pair and is not behind a carriage return at a line end |
| `Positions.OffsetPositionStandsFor` | src/ulsp/internal/protocol/mapper.go:102-127 | the position of a boundary is exact and resolves to it, or before the carriage return of its line end |
| `Positions.StandsForOne` | src/ulsp/internal/protocol/mapper.go:102-127 | no other position does |
| `Positions.StartsOfPrefix` | src/ulsp/internal/protocol/mapper.go:42-55 | the line starts of a prefix are the line starts up to its end |
| `TextOffsetMapping.TextOffsetMapper.InitLines` | src/ulsp/internal/protocol/mapper.go:42-55 | the table filled on first use is the list of line starts and the flag for high bytes |
| `TextOffsetMapping.TextOffsetMapper.PositionOffset` | src/ulsp/internal/protocol/mapper.go:58-99 | the loop over runes gives the specified offset or error for every position |
| `TextOffsetMapping.TextOffsetMapper.OffsetPosition` | src/ulsp/internal/protocol/mapper.go:102-112 | the specified position, or an error outside the text |
| `TextOffsetMapping.TextOffsetMapper.LineCol16` | src/ulsp/internal/protocol/mapper.go:115-127 | line and column of every offset of the text, by either way of counting |
| `TextOffsetMapping.TextOffsetMapper.Line` | src/ulsp/internal/protocol/mapper.go:133-152 | binary search finds the line of the offset, its start, and whether a carriage return at its end precedes the offset |
| `Diffs.DiffXIndex` | src/ulsp/controller/doc-sync/position_mapper.go:103-133 | the pass with running lengths computes where an offset goes and whether its byte was deleted |
| `Diffs.ShiftKeepsBytes` | src/ulsp/controller/doc-sync/position_mapper.go:103-133 | an unflagged offset before the end lands on the same byte of the target, the end on the end, and none outside |
| `Diffs.ShiftBySegment` | src/ulsp/controller/doc-sync/position_mapper.go:103-133 | the one segment that covers an offset decides where it goes |
| `Diffs.FlaggedIffDeleted` | src/ulsp/controller/doc-sync/position_mapper.go:117-132 | an offset is flagged exactly inside a deleted segment |
| `Diffs.ShiftMonotone` | src/ulsp/controller/doc-sync/position_mapper.go:103-133 | order of offsets is kept, strictly after kept bytes |
| `Diffs.ShiftKeepsBoundaries` | src/ulsp/controller/doc-sync/position_mapper.go:103-133 | rune boundaries go to rune boundaries |
| `PositionMapping.DocumentPositionMapper.constructor` | src/ulsp/controller/doc-sync/position_mapper.go:29-49 | converters and scripts are set up exactly when the two texts differ |
| `PositionMapping.DocumentPositionMapper.MapIn` | src/ulsp/controller/doc-sync/position_mapper.go:66-97 | the specified mapping in either direction, the identity for equal texts, an error without converters |
| `PositionMapping.DocumentPositionMapper.MapCurrentPositionToBase` | src/ulsp/controller/doc-sync/position_mapper.go:53-55 | the mapping through the reverse script, with its flag |
| `PositionMapping.DocumentPositionMapper.MapBasePositionToCurrent` | src/ulsp/controller/doc-sync/position_mapper.go:59-62 | the mapping through the forward script |
| `PositionMapping.MapsEveryPosition` | src/ulsp/controller/doc-sync/position_mapper.go:66-133 | every accepted position of the source maps without error to an accepted position of the target |
| `PositionMapping.MapMonotone` | src/ulsp/controller/doc-sync/position_mapper.go:66-133 | mapping keeps document order, so a mapped range never inverts |
| `PositionMapping.MapKeepsBytes` | src/ulsp/controller/doc-sync/position_mapper.go:66-133 | the flag is set exactly inside deleted segments; an unflagged position before the end lands on the same byte and its image resolves there, or before the carriage return of its line end |
| `PositionMapping.MapLandsAt` | src/ulsp/controller/doc-sync/position_mapper.go:66-133 | where a position lands: in a deleted segment at the place where that segment stood, in a kept one as far into it as before, and from the end at the end |
| `PositionMapping.MapRejects` | src/ulsp/controller/doc-sync/position_mapper.go:82-85 | a position that is not one of the source comes back as it is, with the error |
| `TextEdits.DiffsToEditOffsets` | src/ulsp/mapper/lsp.go:304-322 | the loop yields the source text and one edit for each deletion and insertion, at its offset in that text |
| `TextEdits.EditOffsetsToTextEdits` | src/ulsp/mapper/lsp.go:325-340 | every edit with its ends as positions, or the first error |
| `TextEdits.DiffsToTextEdits` | src/ulsp/mapper/lsp.go:343-346 | the edits at their positions; a client that applies them gets the target text when all of them survive |
| `TextEdits.EditsReachTarget` | src/ulsp/mapper/lsp.go:304-322 | for every script, its edits are in order, do not overlap, and turn the source into the target |
| `TextEdits.EffectOfTextEdits` | src/ulsp/mapper/lsp.go:304-346 | for every script split at rune boundaries, a client accepts the edits and their effect is that of the edits with settled ends |
| `TextEdits.SurvivesIffSameEffect` | src/ulsp/mapper/lsp.go:325-340 | an edit has the same effect after the conversion exactly when it survives: neither end after a carriage return at a line end, or both and only carriage returns inserted |
| `TextEdits.TextEditsReachTarget` | src/ulsp/mapper/lsp.go:304-346 | applying the edits by the rules of LSP 3.17 to the source gives exactly the target when all edits survive |
| `TextEdits.SingleEditReachesTargetIff` | src/ulsp/mapper/lsp.go:304-346 | a script with one edit reaches its target exactly when that edit survives |
| `TextEdits.CrlfToLfIsLost` | src/ulsp/mapper/lsp.go:325-340 | a script that deletes the carriage return of a CRLF line end does not reach its target |
| `TextEdits.LostEditsCanCancel` | src/ulsp/mapper/lsp.go:325-340 | a script both of whose edits are displaced, and which reaches its target all the same |
| `TextEdits.SelectionsKeepEffectIff` | src/ulsp/mapper/lsp.go:304-346 | for every script split at rune boundaries, a client makes the right change of every selection of the converted edits exactly when all of them survive |
| `ContentChanges.ApplyContentChanges` | src/ulsp/mapper/lsp.go:281-301 | every range is resolved in the initial text and replaced in the current one, in order, or the first error; for back-to-front lists the edits of the initial text, all made at once, and the LSP 3.17 result; the latter also for single changes |
| `ContentChanges.SingleChangeSplices` | src/ulsp/mapper/lsp.go:285-297 | one change puts its text in place of what is between the two offsets that its range resolves to, or is an error |
| `ContentChanges.BackToFrontEdits` | src/ulsp/mapper/lsp.go:281-301 | a back-to-front list replaces each range, as resolved in the initial text, by its new text, and changes nothing else |
| `ContentChanges.ResolvesInSharedPrefix` | src/ulsp/mapper/lsp.go:281-301 | an exact position resolves alike in every text that shares the bytes up to it |
| `ContentChanges.BackToFrontAgrees` | src/ulsp/mapper/lsp.go:281-301 | such lists, in which each change ends at or before the start of all earlier ones, succeed and give what applying them one after another gives |
| `ContentChanges.SingleChangeAgrees` | src/ulsp/mapper/lsp.go:281-301 | one change agrees for every input, errors included |
| `ContentChanges.PairAgreesIff` | src/ulsp/mapper/lsp.go:281-301 | two changes with exact ranges agree, whatever their texts, exactly when the second ends at or before the start of the first |
| `ContentChanges.ListAgreesIff` | src/ulsp/mapper/lsp.go:281-301 | a list with exact ranges gives, after every change and whatever the texts, what applying the changes one after another gives, exactly when each ends at or before the start of the one before |
| `ContentChanges.FrontToBackDiffers` | src/ulsp/mapper/lsp.go:281-301 | two changes in the other order end up in different places without an error |
| `DocumentStore.RunKeepsFresh` | src/ulsp/controller/doc-sync/doc_sync.go:243-285 | in every run, every cached mapper is the one for the current base and text |
| `DocumentStore.MapperIsCurrent` | src/ulsp/controller/doc-sync/doc_sync.go:243-262 | in every run, a mapper asked for is the one freshly built from base text and current text |
| `DocumentStore.HistoryTells` | src/ulsp/controller/doc-sync/doc_sync.go:319-342 | in every run, which sessions and documents there are, their texts, bases and edited flags follow from the calls: the text of the last open or save with the later changes made, and as base the text before the first change since the open or the last reset |
| `DocumentStore.MapperFollowsHistory` | src/ulsp/controller/doc-sync/doc_sync.go:243-262 | in every run, the mapper answered is the one from that base to that text, or from the text to itself without a base |
| `DocumentStore.AnswersFollowHistory` | src/ulsp/controller/doc-sync/doc_sync.go:468-534 | in every run, whether an open, change, save or edit succeeds, and with which error it does not, follows from the calls |
| `DocumentStore.MapperMapsEveryPosition` | src/ulsp/controller/doc-sync/doc_sync.go:255-259 | in every run, the mapper answered takes every position of the base to a position of the tracked text, in order, for every script between the two |
| `DocumentStore.WillSaveOffersAccepted` | src/ulsp/controller/doc-sync/doc_sync.go:410-429 | in every run, what is offered before a save is the edits accepted since the last open, change or save, in order |
| `DocumentStore.PendingEdits` | src/ulsp/controller/doc-sync/doc_sync.go:506-534 | the pending edits of a document follow from the history of calls alone |
| `DocumentStore.VersionFollowsHistory` | src/ulsp/controller/doc-sync/doc_sync.go:468-503 | a document is tracked, and has the version, that the last successful open or change says |
| `DocumentStore.AcceptedIffCurrent` | src/ulsp/controller/doc-sync/doc_sync.go:506-534 | edits are accepted exactly for the current version of a tracked document |
| `DocumentStore.Controller.Initialize` | src/ulsp/controller/doc-sync/doc_sync.go:288-299 | gives the session an empty set of documents and touches no other session |
| `DocumentStore.Controller.EndSession` | src/ulsp/controller/doc-sync/doc_sync.go:432-438 | removes the session with its documents and touches no other session |
| `DocumentStore.Controller.DidOpen` | src/ulsp/controller/doc-sync/doc_sync.go:319-342 | puts a new entry without base, leaves documents over the size limit untracked, errs for an unknown session |
| `DocumentStore.Controller.DidClose` | src/ulsp/controller/doc-sync/doc_sync.go:558-572 | removes the document alone, if it is tracked |
| `DocumentStore.Controller.DidChange` | src/ulsp/controller/doc-sync/doc_sync.go:468-503 | a new entry with the changed text and version and the old base, or the old entry as base; every error leaves the store as it was |
| `DocumentStore.Controller.DidSave` | src/ulsp/controller/doc-sync/doc_sync.go:386-407 | a new entry with the saved text and the old version and base, without pending edits |
| `DocumentStore.Controller.AddPendingEdits` | src/ulsp/controller/doc-sync/doc_sync.go:506-534 | nothing for no edits, an error for an unknown session, and otherwise the locked part below |
| `DocumentStore.Controller.AddLocked` | src/ulsp/controller/doc-sync/doc_sync.go:516-533 | appends the edits for the current version, and errs without effect otherwise, also when the session has ended since it was looked for |
| `DocumentStore.Controller.WillSaveWaitUntil` | src/ulsp/controller/doc-sync/doc_sync.go:410-429 | answers with the pending edits and changes nothing |
| `DocumentStore.Controller.GetPositionMapper` | src/ulsp/controller/doc-sync/doc_sync.go:243-262 | answers with the cached mapper, or makes and caches the one for base and text |
| `DocumentStore.Controller.FindEntry` | src/ulsp/controller/doc-sync/doc_sync.go:164-183 | the tracked entry, or which of session and document is missing |
| `DocumentStore.Controller.MapperOf` | src/ulsp/controller/doc-sync/doc_sync.go:253-261 | for an entry found earlier, whatever was called since: the fresh mapper of that entry, cached in the store exactly if the entry is still tracked |
| `DocumentStore.Controller.ResetBaseIn` | src/ulsp/controller/doc-sync/doc_sync.go:264-285 | drops base and mapper of the document in each of the sessions and nothing else |
| `DocumentStore.Controller.ClearBase` | src/ulsp/controller/doc-sync/doc_sync.go:585-590 | drops base and mapper of one entry; entries of other documents and bases stay as they are |
| `DocumentStore.Controller.Replace` | src/ulsp/controller/doc-sync/doc_sync.go:499-502 | puts a new entry in place and keeps the invariant that no base has a base |
| `Wire.VarintRoundTrip` | src/scip-lib/scanner/scan.go:488-510 | decoding inverts encoding for all numbers below 2^64 and stops right after the varint |
| `Wire.BlockIsField` | src/scip-lib/scanner/scan.go:416-437 | what the scanner reads as a field is that field of a full parse |
| `Wire.BlockRoundTrip` | src/scip-lib/scanner/scan.go:416-481 | reading a field inverts writing it, whatever follows |
| `Wire.MessageRoundTrip` | src/scip-lib/scanner/scan.go:194-213 | a full parse gives back every message written field by field, of any wire types |
| `ScanSpec.ScanIsParseAndFilter` | src/scip-lib/scanner/scan.go:97-218 | on every well-formed index the scan succeeds and visits, in order and with the right paths, exactly what a full parse and a filter by field numbers and predicates give |
| `ScanSpec.VisitedIffCalledFor` | src/scip-lib/scanner/scan.go:97-218 | on every well-formed index, visited are exactly: a symbol for every field 3 of a document whose field 1 matches, an occurrence for every field 2 whose field 2 matches, each with the document's field 1 as path, and a document for every field 2 of the index whose path matches |
| `ScanSpec.KeyIsFound` | src/scip-lib/scanner/scan.go:303-402 | on a message with its key, the search ends with what a full parse gives for that key |
| `ScanSpec.BlocksAgree` | src/scip-lib/scanner/scan.go:156-218 | on the fields of a document the scan and the filtered parse agree |
| `ScanSpec.DocumentAgrees` | src/scip-lib/scanner/scan.go:124-148 | the same for a whole document with its path |
| `ScanSpec.EncodedIsWellFormed` | src/scip-lib/scanner/scan.go:97-150 | an index written field by field is well formed |
| `ScanSpec.FoundIffPlain` | src/scip-lib/scanner/scan.go:303-402 | in every message that parses in full, the search finds the first field with the number exactly when all fields up to it are length-delimited ones with tags of one byte, and errs otherwise |
| `ScanSpec.NoSymbolAborts` | src/scip-lib/scanner/scan.go:373-402 | an occurrence that parses in full, and on which every scan that matches occurrences aborts |
| `ScanSpec.EntryOutcome` | src/scip-lib/scanner/scan.go:184-215 | what any symbol or occurrence comes to: nothing, a visit or an error, from its moniker, field 1 or 2, and its parse |
| `ScanEnds.ErrorKeepsVisits` | src/scip-lib/scanner/scan.go:97-150 | where a well-formed index goes on with something that is no field, the scan fails with exactly the index visited |
| `ScanEnds.SkipsForwardIff` | src/scip-lib/scanner/scan.go:440-453 | a skip that is possible moves the reader forward exactly if its length is below 2^63 or above 2^64 - 1 less its own size |
| `ScanEnds.EndlessIffComesBack` | src/scip-lib/scanner/scan.go:97-218 | each of the scanner's loops goes on for ever exactly when it meets a reader position twice, which shows after as many rounds as there are bytes |
| `ScanEnds.SearchEndsIff` | src/scip-lib/scanner/scan.go:303-402 | a search is not done after any number of rounds exactly when it meets a position twice |
| `ScanEnds.ScanEndsIff` | src/scip-lib/scanner/scan.go:97-218 | the scan of a document's fields, or of an index, has no end exactly when it meets a position twice, or an entry or document whose own scan has none |
| `ScanEnds.EntryHangsIff` | src/scip-lib/scanner/scan.go:184-215 | the scan of an entry has no end exactly when the search for its moniker meets a position twice |
| `ScanEnds.DocumentHangsIff` | src/scip-lib/scanner/scan.go:124-148 | the scan of a document has no end exactly when the search for its path has none, or the scan of its fields |
| `ScanEnds.ScanEndsIfNothingLeadsBack` | src/scip-lib/scanner/scan.go:97-218 | an index in whose bytes no length leads back is scanned to an end, whatever else is wrong with it and whatever is looked for |
| `ScanEnds.SkippedToItself` | src/scip-lib/scanner/scan.go:440-453 | every index with a field that is skipped back to itself is scanned for ever from there |
| `ScanEnds.IndexIsNeverDone` | src/scip-lib/scanner/scan.go:97-150 | eleven bytes that no scan gets done with, whatever it looks for |
| `BufferPools.BufferPool.constructor` | src/scip-lib/scanner/bufferpool.go:29-47 | bucket i is for capacity start times 2^i, and all are empty |
| `BufferPools.BufferPool.Get` | src/scip-lib/scanner/bufferpool.go:50-59 | the length asked for, the smallest bucket that fits, and a buffer that nobody else holds |
| `BufferPools.BufferPool.TakeFrom` | src/scip-lib/scanner/bufferpool.go:34-38 | a buffer of the bucket's capacity that was put in before or is new, and is no longer in the pool |
| `BufferPools.BufferPool.Put` | src/scip-lib/scanner/bufferpool.go:61-69 | takes a buffer into the bucket of its capacity, if there is one, and nothing else |
| `ScipScanner.ReadVarint` | src/scip-lib/scanner/scan.go:488-510 | reads exactly the varint at the reader and its value, and errs when there is none |
| `ScipScanner.Reader.SeekBy` | src/scip-lib/scanner/scan.go:447-450 | a seek by the signed number that the length's bits stand for, with an error below zero and at 2^63 |
| `ScipScanner.IndexScanner.ConsumeTag` | src/scip-lib/scanner/scan.go:416-437 | the number of the next field, the end of input, or an error for other tags |
| `ScipScanner.IndexScanner.ConsumeLen` | src/scip-lib/scanner/scan.go:456-467 | the length at the reader, or an error |
| `ScipScanner.IndexScanner.SkipField` | src/scip-lib/scanner/scan.go:440-453 | the reader is where the signed seek leads, forwards, backwards or beyond the end; an error exactly without a length or without such a position |
| `ScipScanner.IndexScanner.ConsumeFieldData` | src/scip-lib/scanner/scan.go:470-481 | the payload in a held buffer, and an error exactly when the input is too short |
| `ScipScanner.IndexScanner.FindField` | src/scip-lib/scanner/scan.go:303-402 | for any bytes on which the search ends: the payload of the first field with the number, in a buffer that is neither the one searched nor in the pool, or an error exactly where the search meets a bad tag, length, seek or cut payload |
| `ScipScanner.IndexScanner.ParseDocumentPath` | src/scip-lib/scanner/scan.go:303-336 | for any bytes on which the search ends: the document's path, copied out of the pooled buffer, or an error exactly when the search fails |
| `ScipScanner.IndexScanner.ScanEntryData` | src/scip-lib/scanner/scan.go:184-215 | for any entry whose search ends: a visit exactly when its moniker is found and matches, there is a visitor and the entry parses, and an error exactly when the moniker or the parse fails |
| `ScipScanner.IndexScanner.ScanDocumentReader` | src/scip-lib/scanner/scan.go:156-218 | for any bytes and position from which the scan ends: exactly the visits up to the first error or the end, and an error exactly if there is one; nothing held before is put into the pool |
| `ScipScanner.IndexScanner.ScanDocumentData` | src/scip-lib/scanner/scan.go:124-148 | the same for one document with its path, although nested scans use the same pool |
| `ScipScanner.IndexScanner.ScanIndexReader` | src/scip-lib/scanner/scan.go:97-150 | for any bytes and position from which the scan ends: exactly the visits up to the first error or the end; on every well-formed index it ends, with the visits of a full parse and filter; no buffer is shared or given back twice |
| `SymbolTable.LoadThenMerge` | src/scip-lib/partialloader/index.go:132-203 | building a local table and merging it gives the same symbols as adding them one by one |
| `SymbolTable.LoadThenMergeExactly` | src/scip-lib/partialloader/index.go:132-203 | with revisions not below those present, the revisions agree too |
| `SymbolTable.SameSymbolsSameLookups` | src/scip-lib/partialloader/index.go:208-242 | tables with the same symbols answer every lookup alike, the fallback to the smallest version included |
| `SymbolTable.LookupFindsLastAdded` | src/scip-lib/partialloader/index.go:208-242 | after a load, a lookup finds the entry last added under its path and version, failing that the one last added under the smallest version, and nothing where none was added |
| `SymbolTable.VersionsFollowSymbols` | src/scip-lib/partialloader/prefixtree.go:46-65 | the versions at a path are those added there, each with its last entry, and those from before |
| `SymbolTable.AddSetsRevisions` | src/scip-lib/partialloader/prefixtree.go:121-152 | adding a symbol gives its revision to the nodes on its path and to no other |
| `SymbolTable.AddKeepsOrder` | src/scip-lib/partialloader/prefixtree.go:121-152 | adding with a revision not below those present keeps parents at least as new as children |
| `SymbolTable.MergeKeepsOrder` | src/scip-lib/partialloader/prefixtree.go:85-119 | merging keeps parents at least as new as children |
| `SymbolTable.PruneKeepsOrder` | src/scip-lib/partialloader/prefixtree.go:155-174 | pruning keeps parents at least as new as children |
| `SymbolTable.PruneSparesCurrent` | src/scip-lib/partialloader/prefixtree.go:155-174 | pruning never drops or changes a node whose revision is at least the one given, although it drops subtrees |
| `SymbolTable.PrunedIff` | src/scip-lib/partialloader/prefixtree.go:155-174 | a row is left, as it was, exactly when no node on its way has both a lower revision and a version written by the document |
| `SymbolTable.PruneTwice` | src/scip-lib/partialloader/prefixtree.go:155-174 | a second call changes nothing |
| `SymbolTable.RunKeepsOrder` | src/scip-lib/partialloader/index.go:146-165 | through every history of loads and prunings the revision order holds |
| `SymbolTable.RunSparesCurrent` | src/scip-lib/partialloader/prefixtree.go:155-174 | hence pruning spares current nodes in every reachable table |
| `PrefixTree.AddChild` | src/scip-lib/partialloader/prefixtree.go:121-152 | the child exists with the new revision and entry, all links stay right and no other node changes |
| `PrefixTree.AddSymbol` | src/scip-lib/partialloader/prefixtree.go:46-65 | an update of the flat table at the symbol's path, with every parent link right, and whether the path was new |
| `PrefixTree.GetNode` | src/scip-lib/partialloader/prefixtree.go:68-82 | the node at the path exactly when there is one |
| `PrefixTree.Merge` | src/scip-lib/partialloader/prefixtree.go:85-119 | the union of the two flat tables preferring the second, with the larger revisions, and every parent link right |
| `PrefixTree.MergeInto` | src/scip-lib/partialloader/prefixtree.go:85-119 | the same below any node, in whatever order children are visited |
| `PrefixTree.MergeSymbol` | src/scip-lib/partialloader/prefixtree.go:94-113 | the existing node takes over entries and a larger revision |
| `PrefixTree.PruneNodes` | src/scip-lib/partialloader/prefixtree.go:155-174 | an entry survives, unchanged, exactly when no node on its way from the start node is both older than the revision and written by the document; if parents are at least as new as children, every current node survives |
| `PrefixTree.GetSymbolInformation` | src/scip-lib/partialloader/index.go:208-242 | the entry of the asked version, else of the smallest one, none without version or node, an error without descriptors |
| `PrefixTree.FirstVersion` | src/scip-lib/partialloader/index.go:234-239 | the least version in byte order |
| `PrefixTree.LoadIndex` | src/scip-lib/partialloader/index.go:132-203 | the tree after a load has the symbols it would have if they had been added directly |
| `PrefixTree.HoldsDocument` | src/scip-lib/partialloader/prefixtree.go:157-166 | found exactly when some version names the document |
| `PrefixTree.GraftKeepsTree` | src/scip-lib/partialloader/prefixtree.go:88-91 | hanging a part below a node with two new links gives a properly linked tree |
| `PrefixTree.CutKeepsTree` | src/scip-lib/partialloader/prefixtree.go:168-169 | removing one child link leaves a properly linked tree of the nodes not below it |
| `NotifierProtocol.StepInv` | src/ulsp/internal/persistent-notifier/notifier.go:147-196 | every step of a caller, a receiver or a cleanup keeps the invariant |
| `NotifierProtocol.RunInv` | src/ulsp/controller/scip/scip_notify.go:55-127 | every interleaving keeps the invariant |
| `NotifierProtocol.RunIsSafe` | src/ulsp/controller/scip/scip_notify.go:55-127 | in every interleaving nothing is sent on a closed channel, nothing is closed or released twice, and each broadcast log is a prefix of the sent log, equal once the receiver has exited |
| `NotifierProtocol.TrackedStaysRegistered` | src/ulsp/internal/persistent-notifier/manager.go:81-96 | in every interleaving a tracked workspace finds its own open handler registered: no late Delete removes it |
| `NotifierProtocol.DeleteIfClosedInv` | src/ulsp/internal/persistent-notifier/manager.go:90-96 | deregistering by a handler never removes a live one |
| `NotifierProtocol.CheckedMeansUnregistered` | src/ulsp/internal/persistent-notifier/manager.go:49-78 | with one notifier, the check for closure leaves no handler behind, so the gap before the sender is added does no harm |
| `NotifierProtocol.NoDeadlock` | src/ulsp/internal/persistent-notifier/notifier.go:147-196 | while anything is left to do, some step is possible |
| `NotifierProtocol.InternalStepsEnd` | src/ulsp/internal/persistent-notifier/notifier.go:147-196 | between two calls only finitely many steps are possible |
| `NotifierProtocol.Settles` | src/ulsp/internal/persistent-notifier/notifier.go:147-196 | every reachable state can come to rest, with all messages delivered and handlers without senders gone |
| `NotifierProtocol.SeveralNotifiersCanPanic` | src/ulsp/internal/persistent-notifier/manager.go:56-60 | of any number of notifiers from two on, on one manager and workspace, one can be made to send on a closed channel |
| `NotifierProtocol.SafeIffAtMostOne` | src/ulsp/internal/persistent-notifier/manager.go:49-78 | no run panics exactly when there is at most one notifier |
| `NotifierLog.SentFollowsHistory` | src/ulsp/controller/scip/scip_notify.go:55-127 | in every run, when no call is under way, each handler has been sent exactly the messages of its session's calls: progress for a file added with a message; for a file done the failure if there was one, the progress in percent, and the completion when nothing is pending |
| `NotifierLog.DeliveredFollowsHistory` | src/ulsp/controller/scip/scip_notify.go:55-127 | at rest, exactly these messages have been broadcast |
| `NotifierLog.RunIsBooked` | src/ulsp/controller/scip/scip_notify.go:102-127 | through every run, what is sent and still to be sent, the pending files and the counts are those of the history of calls |
| `SenderCounting.Senders.Add` | src/ulsp/internal/persistent-notifier/notifier.go:116-125 | the counts are those of the history with one more Add: a sender more, unless the handler is closed |
| `SenderCounting.Senders.Done` | src/ulsp/internal/persistent-notifier/notifier.go:128-138 | the counts are those of the history with one more Done: a sender less, with the wait group released when the count becomes zero |
| `SenderCounting.Senders.IsClosed` | src/ulsp/internal/persistent-notifier/notifier.go:109-113 | closed exactly when the wait group has been released, that is, when the count has been zero at some time in the history |
| `SenderCounting.ReleasedIffClosed` | src/ulsp/internal/persistent-notifier/notifier.go:109-138 | after every sequence of calls the wait group has been released once if the handler is closed, and not otherwise |
| `SenderCounting.NeverReopens` | src/ulsp/internal/persistent-notifier/notifier.go:116-138 | a closed handler stays closed through all further calls |
| `SenderCounting.ReleasedByFirstZero` | src/ulsp/internal/persistent-notifier/notifier.go:128-138 | the release comes with the first zero |
| `SenderCounting.ClosedByFirstBalance` | src/ulsp/internal/persistent-notifier/notifier.go:116-138 | the count is one and the Adds less the Dones until that is zero for the first time, and the handler is closed from then on |
| `Occurrences.GetOccurrenceForPosition` | src/scip-lib/utils/utils.go:36-55 | what is found is an occurrence and matches; for ordered ranges something is found exactly when some occurrence matches |
| `Occurrences.MatchingIsBetween` | src/scip-lib/utils/utils.go:75-93 | in both encodings and on one or several lines, a match means between the ends of the range, ends included |
| `Occurrences.HalfIsRuledOut` | src/scip-lib/utils/utils.go:44-53 | for ordered ranges one comparison rules out the right half |
| `Occurrences.SearchIsSound` | src/scip-lib/utils/utils.go:36-55 | what is found is one of the occurrences and matches, whatever their order |
| `Occurrences.LookupIsLinear` | src/scip-lib/utils/utils.go:36-55 | with nondecreasing starts and ends, binary search finds a match exactly when linear search does, and the same one if only one matches |
| `Occurrences.NestedRangeIsMissed` | src/scip-lib/utils/utils.go:36-55 | with nested ranges, ordered by start, a match can be missed |
| `Occurrences.MissedIffHidden` | src/scip-lib/utils/utils.go:42-54 | with starts in order only, an existing match is missed exactly when some range, on the way to it in the fixed tree of midpoints, hides it and nothing makes up for that |
| `Occurrences.RightEverywhereIff` | src/scip-lib/utils/utils.go:36-55 | with starts in order only, the lookup is right at every position exactly when whatever is hidden is made up for |
| `Occurrences.LoadDocument` | src/scip-lib/mapper/scip_types.go:26-61 | the loaded occurrences without empty and diagnostic symbols, and the diagnostics of all of them at their spans |
| `Occurrences.LoadedLookup` | src/scip-lib/mapper/scip_types.go:36-46 | lookup in a loaded document finds a match exactly when one of its occurrences that are not skipped matches |
| `Occurrences.InsertedDiagnostics` | src/main/java/com/uber/scip/aggregator/scip/UberScipWriter.java:119-137 | skipped occurrences inserted anywhere change no lookup |
| `Occurrences.LoadedIff` | src/scip-lib/mapper/scip_types.go:36-46 | loaded are exactly the occurrences with a symbol that does not start with "local diagnostic_" |
| `Occurrences.DiagnosticsOfOne` | src/scip-lib/mapper/scip_types.go:101-143 | every message of an occurrence is shown once, at the occurrence's span |
| `Occurrences.DiagnosticsInOrder` | src/scip-lib/mapper/scip_types.go:36-42 | the diagnostics of all occurrences, in their order |
| `Occurrences.SpanIsRange` | src/scip-lib/mapper/scip_types.go:106-129 | the span of three and of four numbers, which has the ends of the range |
| `DependencyClosure.CollectDependencies` | bsp_server/scip_sync_util/scip_utils.py:447-479 | the two loops list exactly what routes reach, and the target if it is in the graph and the depth is not negative |
| `DependencyClosure.DfsFindsReachable` | bsp_server/scip_sync_util/scip_utils.py:447-479 | the answer holds exactly what is reached by routes of at least one step whose steps beyond the depth are exports, and the target if it is in the graph and the depth is not negative |
| `DependencyClosure.DeeperFindsMore` | bsp_server/scip_sync_util/scip_utils.py:447-479 | the answer grows with the depth |
| `DependencyClosure.NestingIsRouteLength` | bsp_server/scip_sync_util/scip_utils.py:463-477 | calls nest deeper than a bound exactly when some route is longer than it |
| `DependencyClosure.EndsIffNoExportCycle` | bsp_server/scip_sync_util/scip_utils.py:463-465 | the search ends exactly when no route goes round a cycle of exports, and then nests no deeper than depth and number of targets together |
| `DependencyClosure.SelfExportNeverEnds` | bsp_server/scip_sync_util/scip_utils.py:463-465 | a target that exports itself is searched for ever, even at depth zero |
| `DependencyClosure.RankedEnds` | bsp_server/scip_sync_util/scip_utils.py:463-465 | with acyclic exports, given by a ranking, it ends from every target at every depth |
| `BatchedOutputs.BuildPath` | bsp_server/scip_sync_util/scip_utils.py:177-189 | climbing the parents gives the labels from root to leaf, or the error of a missing one |
| `BatchedOutputs.JoinSeparates` | bsp_server/scip_sync_util/scip_utils.py:187-187 | labels are separated by one slash each |
| `BatchedOutputs.BuildPaths` | bsp_server/scip_sync_util/scip_utils.py:167-202 | the paths are the same in whatever order workers complete them and whichever they skip |
| `BatchedOutputs.GroupActions` | bsp_server/scip_sync_util/scip_utils.py:211-218 | the outputs of a target and mnemonic are those of all its actions, in order |
| `BatchedOutputs.OutputsIff` | bsp_server/scip_sync_util/scip_utils.py:211-218 | the outputs of a target for a mnemonic are exactly those of its actions with it |
| `BatchedOutputs.ResolvePaths` | bsp_server/scip_sync_util/scip_utils.py:242-245 | the paths of the outputs that are artifacts, in order, or the error of a missing path |
| `BatchedOutputs.TargetRow` | bsp_server/scip_sync_util/scip_utils.py:237-248 | the mnemonics of a target that have paths |
| `BatchedOutputs.ProcessBatch` | bsp_server/scip_sync_util/scip_utils.py:229-253 | the table of one batch, or an error exactly when one of its targets has one |
| `BatchedOutputs.MergeTable` | bsp_server/scip_sync_util/scip_utils.py:262-268 | merging in any order of keys appends row by row and cell by cell |
| `BatchedOutputs.AllOutputs` | bsp_server/scip_sync_util/scip_utils.py:223-270 | an error exactly when a target has one; otherwise every cell holds what one pass collects exactly when no batch holds two targets with outputs and the same label |
| `BatchedOutputs.CollectOutputs` | bsp_server/scip_sync_util/scip_utils.py:153-270 | from fragments, artifacts, actions and targets: no table exactly when a label or the fragment of an output is missing; every path in the table is the labels from root to leaf of an output that belongs there; and if no two targets share a label, every output is in its cell |
| `BatchedOutputs.BatchedIffDistinct` | bsp_server/scip_sync_util/scip_utils.py:223-270 | for every batch size, batches collect what one pass over the targets collects exactly when no batch holds two targets with outputs and the same label |
| `BatchedOutputs.EarlierIsLost` | bsp_server/scip_sync_util/scip_utils.py:250-251 | the earlier of two such targets loses its paths |
| `BatchedOutputs.SameForAllWorkers` | bsp_server/scip_sync_util/scip_utils.py:223-270 | with distinct labels the whole table is the same for every number of workers |
| `IdleTimer.TakeKeepsInv` | src/ulsp/controller/ulsp-daemon/methods_lifecycle.go:164-236 | every step of every call, unless it puts a session back unnoticed, keeps the invariant between counts, lock and timer |
| `IdleTimer.ArmedIffNoSessions` | src/ulsp/controller/ulsp-daemon/methods_lifecycle.go:164-236 | at rest after such a run the timer is armed exactly when there are no sessions |
| `IdleTimer.SessionsAloneAreNoticed` | src/ulsp/controller/ulsp-daemon/methods_lifecycle.go:164-205 | every interleaving of InitSession and EndSession alone is such a run |
| `IdleTimer.UnnoticedLeavesArmed` | src/ulsp/controller/ulsp-daemon/methods_lifecycle.go:26-49 | putting back a session when there are none and nobody is still to count leaves the timer armed beside it, whatever the state |
| `IdleTimer.EndedSessionComesBack` | src/ulsp/repository/session/session.go:65-93 | such a run exists: a session ends between the read and the write of Initialize |
| `IdleTimer.AllCallsEnd` | src/ulsp/controller/ulsp-daemon/methods_lifecycle.go:208-236 | from every state all calls can end, and then the timer is armed exactly when there are no sessions |
| `PluginOrder.PrioritizedMethods` | src/ulsp/mapper/ulsp_plugin.go:10-45 | an error exactly for an invalid plugin; otherwise for each declared method, in order of registration, the high and then the regular ones as synchronous and the rest as asynchronous |
| `PluginOrder.FillBuckets` | src/ulsp/mapper/ulsp_plugin.go:12-27 | each bucket holds the plugins of its method and priority in order of registration |
| `PluginOrder.Consolidate` | src/ulsp/mapper/ulsp_plugin.go:30-42 | the buckets of a method joined from the highest priority to the lowest |
| `PluginOrder.RunsOnce` | src/ulsp/mapper/ulsp_plugin.go:10-45 | each plugin appears once for each method declared with one of the three priorities, and never for any other |
| `PluginOrder.RunsWhereDeclared` | src/ulsp/mapper/ulsp_plugin.go:30-42 | the asynchronous plugins are exactly those declared with priority 2, the synchronous ones those with 0, in front, and with 1 |
| `PluginOrder.SelectedInOrder` | src/ulsp/mapper/ulsp_plugin.go:12-27 | plugins keep their order of registration |

## Left out

- The diff algorithm: a script is any list of segments with the right two sides.
- Protobuf unmarshalling: a parsed message is its list of fields; unknown sizes of groups are not modelled.
- SCIP symbol parsing: a symbol is a list of descriptors with a version, or unparsable. The Preamble field of a node is not modelled.
- Go's utf8 package and scip.NewRange are not part of this model's sources; they are modelled by their documented behaviour, NewRange as rejecting wrong counts, negative numbers and inverted ranges.
- Positions are unbounded: the 32-bit width of line and column, and texts over 4 GiB, are not modelled (except in `Occurrences`, where the conversion to signed numbers is).
- ContentChanges.ApplyContentChanges: a slice bound beyond the text built so far is an error value instead of a panic; spare slice capacity, which can hide that panic, is not modelled. Full-document events without a range are not modelled, since the server advertises incremental changes only.
- ContentChanges.ListAgreesIff: for ranges on existing lines that split no surrogate pair, and asks for agreement after every change, since a later change may cover up a difference.
- TextEdits.TextEditsReachTarget: one way for several edits, because displaced edits can cancel out (LostEditsCanCancel); the effect is stated exactly for all scripts (EffectOfTextEdits), and the condition is exact for one edit (SingleEditReachesTargetIff) and for all selections of edits (SelectionsKeepEffectIff).
- Occurrences.LookupIsLinear: which of several matching occurrences is returned is not stated; symbols, relationships and documentation of a loaded document are not modelled.
- ScipScanner.IndexScanner.ConsumeLen: a length of 2^63 or more of a field that is read is an error value, where the source panics; lengths below that for which no buffer can be allocated are not modelled.
- IndexScanner: the methods are stated for scans that end, because a method of this model ends; ScanEnds says exactly which those are. Which error is returned is not stated; a reader over memory stands for files; ScanIndexFolder and external symbols are not modelled. `TryField`, `ScanField`, `ScanIndexField`, `ScanFields`, `ConsumeVarint`, `SkipBlock`, `ReadBlock`, `ConsumePayload`, `ScanEntryBlock`, `ScanDocumentBlock`, `ScanEntries` and `VisitWhole` only split the source's loops for the proof.
- PartialLoadedIndex: loaded documents, document-to-node lists, implementors and Tidy are not modelled. Tidy reads the first node of a list without a check and may start from nodes that a merge has orphaned.
- Notifier: captured updates and their formatting, the sessions that are told, and other clients of the manager are not modelled; the handler id is the workspace, since the title is fixed.
- Document store: the session lookup, progress tokens and messages to the IDE, metrics, and the state on disk are not modelled. Each lock section is one step; GetPositionMapper, which has two, and AddPendingEdits, which looks for the session without a lock, are stated as a whole and part by part (FindEntry and MapperOf, AddLocked). In the store a position mapper is the pair of texts it was built from; `PositionMapper` models what it does with them, and MapperMapsEveryPosition connects the two.
- DependencyClosure.CollectDependencies: the bound on nesting is a proof parameter; EndsIffNoExportCycle says exactly when there is one. Python's recursion limit, which turns a cycle, and also a long chain without one, into a RecursionError, is not modelled.
- BatchedOutputs.BuildPath: stated for fragments with a finite chain of parents; the loop does not end for others. Reading the Bazel query output, thread pools and the managed dictionary are not modelled beyond their order of completion.
- IdleTimer: full shutdown and the firing of the timer are not modelled; identifiers are not assumed to be new.
- PluginOrder: whether a declaration is valid is taken as given; running the plugins is not modelled.
- Indexer scheduling, file watching, subprocesses, routing, telemetry, configuration and the editor extension: input, output and wiring.
- Capability merging, plugin validation, type mappers, target masks and file copying: each is decided by one branch or one library call at a time, and nothing else in the model depends on it.
