# Verified model of the telescope data-handling system

The system takes exposures from the detector controllers, drives them through a pipeline of
processes, and writes them to multi-extension FITS files. This project models its hard parts in
Dafny 4.11 and proves what they are for. `dafny verify dfyconfig.toml` checks everything.

**The exposure pipeline.** The Supervisor queues exposures in a ring of 512 slots and drives one at
a time through barriers over N node pairs (an SMC manager and a picture feed each) and one Data
Capture Agent (DCA). It keeps three counters and never looks at who replied. `Pipeline.dfy` is the
whole system as a state machine whose channels are FIFO per sender; `PipelineInvariant.dfy` proves
the invariant that every step keeps; `PipelineTheorems.dfy` draws the conclusions for every
interleaving: order, mutual exclusion, barriers, causality, progress. `ProcQueue.dfy` refines the
ring to a sequence, and `Supervisor.dfy` refines the handlers, with their counters and the ring
updated in place, to the functions the state machine uses.

**The keyword database and FITS headers.** `Kwdb.dfy` is the database as the program has it: an
item table with hash threads and an insertion-order list linked by indices, and a string arena
overwritten in place. `KwdbModel.dfy` says when the links and the arena stand for a sequence of
entries, and `KwdbThreads.dfy` what the threads visit when a renaming has left strays on them, live
or deleted: exactly when lookups stay right. `FitsCard.dfy`, `FitsCardIO.dfy`, `FitsFile.dfy` and
`FitsRoundTrip.dfy` are the card printer and scanner and the trip of whole headers, and
`FitsColumns.dfy` says of both what stands in which of the 80 columns. `DsimHeader.dfy` writes and
reads headers of a mapped image file, `ReservedHeader.dfy` is what such a header says of its image.

**Image files and pixels.** `Dsim.dfy` lays out the file, hands out i/o regions and addresses
pixels. `Pixels.dfy` and `PixelData.dfy` scatter pixel streams over images, and `Amplifiers.dfy`
follows a detector readout end to end, from splitting the amplifiers to the images it fills.
`Transcode.dfy` converts byte orders and unsigned pixels, `Contexts.dfy` is the table of readouts.

**Smaller parts.** `VmCache.dfy` is the list of cached file segments on linked heap nodes.
`Raster.dfy` has the flips and transpositions. `Text.dfy`, `Arithmetic.dfy` and `Options.dfy` are shared.

## What the code does against what is said of it

- `hash` (mosdca/kwdb.c:1167) never moves its pointer: the hash depends on the first letter alone.
  It still agrees with the case-insensitive comparison.
- `kwdb_RenameEntry` (mosdca/kwdb.c:628-632) keeps a stale thread link when the thread of the new
  name is empty. What that leads to are strays: entries of other threads, or what was deleted and
  left its name in its slot. Lookups stay right as long as no deleted stray has a name of the thread
  that visits it. `RenameServes` and `AddServes` are the exact conditions under which a renaming and
  an insertion keep it so, for any strays; a deletion always does. For a renaming to an empty thread
  the condition is that the old link ends and leads to nothing deleted that has a name of that
  thread. Histories: `StrayLeft` and `StaleLinkUnnoticed` (harmless), `RenamedStrayMakesCircle`,
  `ReusedSlotMakesCircle` and `NamelessLinkIsStale` (not).
- Eight columns that are not printable set the keyword to `"END     "` (mosdca/kwdb.c:798-805),
  which the comparison with `"END"` does not recognise: the card is read as an entry, although the
  comment says that reading stops (`StopsAtEnd`, `BinaryCard`, `MissingEnd`).
- A text card is entered with the comment of the card before it (mosdca/kwdb.c:870-872).
- `dsim_WriteHeader` is said to ignore copies of reserved keywords (mosdca/dsim.c:672-674); it
  deletes one copy for each reserved card (`StrippedCount`, `CopySurvives`).
- `BITPIX` is eight times the bytes of a pixel for all types (mosdca/dsim.c:1110). FITS declares real
  numbers with negative codes, and bytes as unsigned: the code is right exactly for unsigned bytes and
  for integers of more than one byte (`WhenBitpixDeclares`).
- `fd = ds_open(...) < 0` (mosdca/dsim.c:648, 750) is always 0 on success. It works because no
  other slot is in use; that is an invariant here.
- The i/o region test of `WritePixelData` lets a stream pass whose last line is one line above the
  image (`WholeLinesAccepted` against `WholeLinesFit`, with the instance `OneLineTooMany`). For any
  stream the last pixel decides whether it fits (`LastPixelDecides`).
- Moving a segment to the head of the cache (mosdca/vmcache.c:560-576, 736-749) leaves the recorded
  tail pointing at it if it was the last one. Segments are then freed out of order exactly when
  room is needed and an unreferenced segment is behind that tail (`OrderIsKept`,
  `NewestFreedFirst`).
- `pqInit` does not initialise slot 511 (super/supQueue.c:52), `pqSetStat` searches 511 slots, and
  `pqGetStat` finds nothing on a full ring.
- A second context for a sequence number is not refused, and then the context found depends on
  which one was used last (`CacheIsInvisible`, `TwoAnswers`).

## Model

| member | source | states |
|---|---|---|
| `ProcQueue.Ring.PqInit` | super/supQueue.c:47-63 | From any node contents the ring of 512 slots is linked and empty; slot 511 is not written, so the ring is well formed afterwards if and only if that slot was free before (a zeroed global) |
| `ProcQueue.Ring.PqAdd` | super/supQueue.c:69-110 | The entry goes to the end of the sequence that the ring stands for; a full ring refuses it; the ring stays well formed if and only if the ID is not 0, the mark of a free slot |
| `ProcQueue.Ring.PqNext` | super/supQueue.c:115-154 | The exposure ID of the head if it is ready, else 0; nothing changes |
| `ProcQueue.Ring.PqSetStat` | super/supQueue.c:159-207 | The 511-step search in the ring sets the status of the entry it finds in the sequence; DONE removes the head, whichever entry was found; only the ID 0 can harm the ring, exactly when a free slot is reached and is not made available |
| `ProcQueue.Ring.PqGetStat` | super/supQueue.c:212-225 | The status of the entry, 0 if there is none; on a full ring the loop ends before it begins |
| `ProcQueue.StatusIsSet` | super/supQueue.c:184-201 | Entry by entry: the first entry of the ID among 511 gets the status, for DONE the front entry then leaves, all others are as before; an ID that is not among them changes nothing |
| `ProcQueue.StatusIsRead` | super/supQueue.c:212-225 | The status read is that of the first entry of the ID; on a full ring and for an ID that is not queued it is 0 |
| `ProcQueue.SearchIsComplete` | super/supQueue.c:184-201 | With at most 511 entries the search of the whole ring finds an ID if and only if it is live; with 512 it misses exactly the newest one |
| `ProcQueue.DoneRemovesTheHead` | super/supQueue.c:184-201 | DONE removes the entry it names if and only if that entry is the head |
| `ProcQueue.FullRingHidesEntries` | super/supQueue.c:184-224 | On a full ring the newest entry cannot be given a status, and no status can be asked for |
| `ProcQueue.Ring.PqDataWaiting` | super/supQueue.c:230-237 | Whether the queue has a ready head |
| `Supervisor.Super.SupProcNext` | super/supClient.c:581-633 | The start gate and what it broadcasts: the ready head becomes active, the sequence number grows, the count of finished nodes is taken down, never below 0; no other entry changes |
| `Supervisor.Super.DcaDone` | super/supIO.c:365-393 | "dca_done": the exposure is marked done and the SMC managers are told to finish it |
| `Supervisor.Super.CleanDone` | super/supIO.c:523-540 | "clean done": the status is set if the ID is found, and the count of finished nodes grows |
| `Supervisor.Super.PanOpenExp` | super/supPanHandler.c:269-279 | An open by the trigger host puts the exposure at the end of the queue with the status START and resets the count of closes |
| `Supervisor.Super.PanCloseExp` | super/supPanHandler.c:334-345 | A close by the trigger host, or the second close since then, gives the entry of that ID the status READY whatever it was, and changes no other entry |
| `PipelineInvariant.StepInv` | super/supIO.c:365-568 | Every step of every process keeps the invariant that ties counters, queue, channels and the stage of the exposure in flight together |
| `PipelineTheorems.OrderlyLog` | super/supIO.c:365-568 | In every reachable state what the Supervisor did so far is a beginning of: for each exposure in the order of queueing, started, announced, handed to the picture feeds after all N replies, ended after all N transfers, removed, reopened after all N cleanings |
| `PipelineTheorems.OneExposureAtATime` | super/supClient.c:596-630 | Between two starts the first exposure has been completely cleaned up; starts follow the order of the queue and their sequence numbers grow |
| `PipelineTheorems.BarriersAndCausality` | super/supIO.c:426-568 | The picture feeds are started only after all N SMC replies, right after the DCA was told of the same exposure under the same number; a readout is ended only after all N transfers of the number the feeds were given |
| `PipelineTheorems.NamedExposures` | super/supQueue.c:184-201 | A "dca_done" always names the head of the queue, so the unconditional pop removes that exposure; a "clean done" names an exposure that is no longer queued |
| `PipelineTheorems.ReadoutIsOpen` | mosdca/mosdca.c:546-574 | An EndReadout finds its readout open and the exposure ID of the head set; at most one readout is open |
| `PipelineTheorems.CountersReset` | super/supClient.c:600-629 | The gate is open if and only if no exposure is in flight, and then both counters are 0 |
| `PipelineTheorems.LateCloseIsHarmless` | super/supPanHandler.c:334-345 | A late close by any host, which may make the active head ready again, does not let a poll start it a second time |
| `PipelineTheorems.InternalStepWork` | smcmgr/mbusMsgHandler.c:139-187 | Every step of a peer or of a Supervisor handler makes the measure of what is left to do for the exposure smaller |
| `PipelineTheorems.ExternalStepWork` | super/supPanHandler.c:269-345 | Polls and PAN messages do not add to that measure while an exposure is in flight |
| `PipelineTheorems.SomethingCanMove` | pxf/mbusMsgHandler.c:127-162 | While an exposure is in flight some process can take a step without the operator |
| `PipelineTheorems.EveryExposureCompletes` | super/supIO.c:523-540 | From every reachable state internal steps, no more than the measure, lead to an open gate |
| `PipelineTheorems.EveryRunReopens` | super/supClient.c:596-630 | Every run from a reachable state with as many internal steps as the measure says passes through an open gate, whatever polls and PAN messages come between |
| `PipelineTheorems.ReadyHeadStarts` | super/supClient.c:600-630 | With the gate open the next poll starts a ready head under the next number |
| `PipelineTheorems.CloseStarts` | super/supPanHandler.c:334-345 | End to end: with the gate open, a close of the head that counts makes it READY, and the next poll starts that exposure under the next number, logs it and tells all nodes |
| `PipelineTheorems.OpenWaits` | super/supPanHandler.c:269-345 | An exposure that is open is not started by any poll, nor after a first close by another host |
| `PipelineTheorems.ReusedIdStalls` | super/supIO.c:523-533 | Why a new ID must differ from the one that is being cleaned up: otherwise the "clean done" hides the entry from every poll |
| `Text.StrEq` | mosdca/kwdb.c:1176-1197 | The loop says whether two names are the same up to case |
| `Text.SameNameIs` | mosdca/kwdb.c:1176-1197 | Names are the same if and only if they are as long and each character is the same or the same of the 26 letters |
| `Text.Hash` | mosdca/kwdb.c:1160-1171 | The loop computes the weighted sum of the first character alone, as its pointer never moves |
| `Text.HashIs` | mosdca/kwdb.c:1160-1171 | The hash in numbers: 2578 times the code of the first letter, made small, modulo 797 |
| `Text.SameNameSameHash` | mosdca/kwdb.c:1160-1197 | Names that compare as equal are on the same thread |
| `Kwdb.Database.constructor` | mosdca/kwdb.c:174-217 | A new database is well formed and empty, and its name can be read back |
| `Kwdb.Database.AddStr` | mosdca/kwdb.c:1129-1155 | The string is stored, with its terminator, in characters that belonged to nobody; nobody loses a character |
| `Kwdb.Database.AddEntry` | mosdca/kwdb.c:263-320 | The entry is last in the list and takes the next slot. It is first of its name in lookups and no other lookup changes, if and only if that slot is not visited by the thread of its name and leads no other thread to something deleted that has a name of that one; if its own thread still visits the slot, a search that finds nothing never ends. It looks at no thread, so the links it sets are stated for any state of the threads |
| `Kwdb.Database.Lookup` | mosdca/kwdb.c:325-344 | Whatever the threads are like, a search that ends finds the instance-th item it meets, deleted or not, in whose slot that name is stored, or 0. While the threads are in service that is the instance-th entry of the name |
| `Kwdb.Database.FoundIsLookedUp` | mosdca/kwdb.c:325-344 | While the threads are in service every search ends, and what it meets are the entries of the name on its own thread, never strays |
| `Kwdb.Database.FoundIsComplete` | mosdca/kwdb.c:325-344 | Lookups find every live entry of the name and nothing else, strays on the thread or not |
| `Kwdb.Database.FoundIsMostRecentFirst` | mosdca/kwdb.c:325-344 | While the threads keep the newest entry first, the matches are the entries of that name from the most recently added to the oldest: entry pointers decrease |
| `Kwdb.Database.GetField` | mosdca/kwdb.c:350-365 | The string of the first match, or none; each of the three calls returns its own string |
| `Kwdb.Database.SetField` | mosdca/kwdb.c:370-395 | Only that field of the first match changes, the other three strings are as before, whether the string was overwritten in place or appended; list, threads and all lookups stay |
| `Kwdb.Database.SetAndGet` | mosdca/kwdb.c:370-492 | A string that was set is the string that is read |
| `Kwdb.Database.AddAndGet` | mosdca/kwdb.c:263-492 | Value, type and comment of a new entry are read back under its name |
| `Kwdb.Database.GetEntry` | mosdca/kwdb.c:671-696 | The four strings of a live entry; nothing for a pointer out of range |
| `Kwdb.Database.Next` | mosdca/kwdb.c:521-529 | The entry after a live entry in list order, or 0 |
| `Kwdb.Database.DeleteEntry` | mosdca/kwdb.c:536-587 | The entry is gone from the list and from lookups, and all other matches stay in their order, even if another thread still leads to it through a link of its own; that is so exactly when it was lent, and then something deleted is visited; -1 for a pointer out of range |
| `Kwdb.Database.RenameEntry` | mosdca/kwdb.c:594-638 | The entry keeps its place and its other strings. It becomes the first match of its new name and no other lookup changes if and only if either its new thread is empty and its old link ends and leads to nothing deleted that has a name of that thread, or the thread does not lead back to it and has nothing deleted with a name of another thread that visits the entry; otherwise some lookup does not end or finds something else than the live entries of its name, and which of the two is told by `RenameEnds`. A tidy database stays tidy exactly when the new thread holds other entries or the entry had no link |
| `Kwdb.Database.TidyRenameServes` | mosdca/kwdb.c:612-635 | In a tidy database every named entry can be given any name, so lookups right after any such renaming are right, and can be deleted |
| `Kwdb.Database.OwnThreadOnly` | mosdca/kwdb.c:612-635 | With live strays about, that still holds for a named entry that no other thread visits |
| `Kwdb.StrayLeft` | mosdca/kwdb.c:626-635 | Two entries on one thread, the newer one renamed to a name whose thread is empty: the older one becomes a stray of that thread, and lookups are still right |
| `Kwdb.RenamedStrayMakesCircle` | mosdca/kwdb.c:626-635 | If that stray is renamed to the thread that visits it, the links close a circle: a lookup of a name that nobody has never ends |
| `Kwdb.ReusedSlotMakesCircle` | mosdca/kwdb.c:278-318 | If both are deleted, the stray last, lookups are still right; the next entry of that thread takes the slot that is still visited and links to itself |
| `Kwdb.NamelessLinkIsStale` | mosdca/kwdb.c:626-635 | An entry that lost its name keeps its link. Named again for the same thread after what that leads to was deleted, it makes a lookup of the deleted name return the deleted entry |
| `Kwdb.StaleLinkUnnoticed` | mosdca/kwdb.c:626-635 | Named again for another thread it leads that to the deleted entry, and all lookups are right |
| `KwdbThreads.WalkFinds` | mosdca/kwdb.c:325-344 | Strays on a thread, live or deleted, never match what is looked up there |
| `KwdbThreads.ServesAnswers` | mosdca/kwdb.c:325-344 | While the threads are in service every lookup of every name ends and finds the live entries of that name and nothing else, which is what an operation that ends service breaks for some name |
| `KwdbThreads.EndsOrNot` | mosdca/kwdb.c:338-342 | The links from an item come to an end, or a search that finds nothing goes round for ever |
| `KwdbThreads.ServesLinked` | mosdca/kwdb.c:309-315 | A new entry in any slot, visited still or not: what every thread visits then, and that its lookups are right if and only if the condition of `AddEntry` holds |
| `KwdbThreads.ServesMoved` | mosdca/kwdb.c:626-635 | Why a renaming keeps lookups right under that condition: what every thread visits afterwards, strays included |
| `KwdbThreads.StuckMoved` | mosdca/kwdb.c:626-635 | Otherwise some lookup is wrong: the links run in a circle, or a thread finds something deleted under its stored name |
| `FitsCardIO.FormatCard` | mosdca/kwdb.c:1042-1094 | The printing loops fill the 80 columns: keyword, equals sign, value to the right or in quotes, slash and comment stand where `CardShows` says |
| `FitsColumns.CardShows` | mosdca/kwdb.c:1042-1094 | Column by column, for every entry: the keyword in the first eight; "=" and a blank; a number that ends in column 29, or starts in 10 if it is longer than twenty, or a string with its quotes in columns 10 and 19 or further right; then a blank, a slash, a blank and the comment as far as the card goes; blanks elsewhere; text from column 8 on |
| `FitsColumns.OneCardShows` | mosdca/kwdb.c:1042-1094 | No other card shows the entry |
| `FitsColumns.SlashColumn` | mosdca/kwdb.c:1080-1087 | For values of at most twenty columns the slash is in column 31 between two blanks, and the comment starts in column 33 |
| `FitsCardIO.ScanCard` | mosdca/kwdb.c:789-868 | The scanning loops find keyword, type, value and comment as those functions say |
| `FitsColumns.ReadsPlain` | mosdca/kwdb.c:811-868 | What any value card without quotes is read as, by columns: at most 21 columns of white space, the value up to a blank or slash, the comment behind blanks and slashes up to a newline without trailing blanks; logical exactly for T, F, t and f |
| `FitsColumns.ReadsQuoted` | mosdca/kwdb.c:817-868 | With a quote: the value up to the next quote or the end of the card, a string |
| `FitsColumns.ReadsText` | mosdca/kwdb.c:838-860 | Cards named COMMENT or HISTORY, and those without "=" in column 8, are text from column 8 on |
| `FitsColumns.EndCardIs` | mosdca/kwdb.c:792-805 | The card that ends a header: END in any case, a blank, and printable columns up to the eighth |
| `FitsCard.CardRoundTrip` | mosdca/kwdb.c:789-1094 | Reading the card of a well-formed entry gives the entry back, strings padded to eight characters, text cards with the comment read before |
| `FitsCard.PrintAgain` | mosdca/kwdb.c:1042-1094 | Printing what was read gives the same card |
| `FitsCard.StopsAtEnd` | mosdca/kwdb.c:789-807 | Reading stops at a card if and only if its first eight columns are printable and its keyword is END |
| `FitsCard.BinaryIsRead` | mosdca/kwdb.c:798-805 | A card with an unprintable keyword does not stop it: it is read as an entry named "END     " |
| `FitsCard.BinaryCard` | mosdca/kwdb.c:798-805 | An instance: a card with one unprintable column |
| `FitsFile.WhereReadingStops` | mosdca/kwdb.c:783-807 | How many cards are read: up to the first END card, the limit or the end of the file, and nothing else ends it |
| `FitsFile.ReadInOrder` | mosdca/kwdb.c:785-874 | Entry i is what card i of the file is read as, with the comment of the entry before |
| `FitsFile.MissingEnd` | mosdca/kwdb.c:783-807 | If END is missing, every card to the end of the file is read as an entry, binary data included |
| `FitsFile.MappedFile.Open` | mosdca/dsim.c:1246-1261 | The first free slot, or -1 if none is |
| `FitsFile.MappedFile.Read` | mosdca/dsim.c:1271-1296 | What is left of the file from the position on, at most the number asked for |
| `FitsFile.MappedFile.Write` | mosdca/dsim.c:1301-1326 | The part that fits is stored at the position, every other byte stays |
| `FitsFile.ReadFITS` | mosdca/kwdb.c:772-889 | The entries of the cards up to END, the end of the file or the limit are appended to the list, and blank text entries at its end are dropped |
| `FitsFile.WriteFITS` | mosdca/kwdb.c:1024-1102 | One card per entry in list order, each showing its entry in 80 bytes, and every other byte as before; or -1 when the file is too short |
| `FitsRoundTrip.HeaderRoundTrip` | mosdca/kwdb.c:772-1102 | The cards of any list of well-formed entries, then END, then anything, are read back as those entries |
| `FitsRoundTrip.ComesBack` | mosdca/kwdb.c:772-872 | Names and types come back as they were, values up to the padding of strings, comments for cards with values |
| `FitsRoundTrip.RewriteIsIdentical` | mosdca/kwdb.c:772-1102 | Writing what was read reproduces the cards if and only if the header does not end in blank text entries; only those are dropped |
| `FitsRoundTrip.BlankFillIsDropped` | mosdca/kwdb.c:876-886 | Blank cards that fill a header up before END leave no trace in what is read |
| `DsimHeader.ReadHeader` | mosdca/dsim.c:622-662 | With no slot in use, the descriptor that is always 0 is the one that was opened: the header is read and no slot stays in use |
| `DsimHeader.DeleteReserved` | mosdca/dsim.c:742-747 | Of every name as many of the entries that lookups meet first are deleted as there are reserved cards of that name (and END); the others stay as they are and in order; while the threads keep the newest first, those are the last ones of the list |
| `DsimHeader.StrippedCount` | mosdca/dsim.c:742-747 | How many entries of a name survive: the code deletes one for each reserved card, so a keyword that is in the database more often is still copied |
| `DsimHeader.DoomedCount` | mosdca/dsim.c:742-747 | How many names are taken away: one for each reserved entry of that name, and one END |
| `DsimHeader.CopySurvives` | mosdca/dsim.c:742-747 | An instance: two copies of one reserved keyword, of which the older one is still written |
| `DsimHeader.WriteHeader` | mosdca/dsim.c:709-784 | Exactly the entries that copy reserved keywords are deleted: of each name as many as there are reserved cards of it, and one END. If those that are left and END fit, the header area behind the reserved cards holds exactly them and every other byte of the file is unchanged; otherwise -1 and an unchanged file; no slot stays in use |
| `DsimHeader.HeaderFilled` | mosdca/dsim.c:756-776 | What the new header shows card by card: entries in order, blanks, END in the last slot; reserved cards and the rest of the file as before |
| `DsimHeader.HeaderInBytes` | mosdca/dsim.c:756-776 | The same in bytes of the file: the card at 80 times (reserved + i) shows entry i, then blanks, and the last card is END and 77 blanks |
| `DsimHeader.WrittenHeaderReadsBack` | mosdca/dsim.c:622-784 | Reading a written header gives the reserved entries followed by the written ones |
| `DsimHeader.LaidHeaderInFile` | mosdca/dsim.c:1046-1155 | In a file that was laid out every header has room for its reserved cards and END and lies in the file |
| `ReservedHeader.ReserveKeywords` | mosdca/dsim.c:1104-1137 | The database of the reserved keywords of an image holds these entries in this order |
| `ReservedHeader.ReservedNames` | mosdca/dsim.c:1107-1137 | Their names in order, with BSCALE 1 and BZERO 32768 exactly for unsigned short |
| `ReservedHeader.BitpixIs` | mosdca/dsim.c:1110 | BITPIX of an image that was laid out: 8, 16, 32 or 64 by its type, 16 for unsigned short |
| `ReservedHeader.WhenBitpixDeclares` | mosdca/dsim.c:1110-1111 | That code is the one FITS has for the pixels if and only if they are unsigned bytes or integers of more than one byte |
| `ReservedHeader.DecimalBack` | mosdca/dsim.c:1353-1362 | The decimal digits of a number stand for it |
| `ReservedHeader.GeometryIsRead` | mosdca/dsim.c:1107-1137 | From the file: the reserved cards are read back and say the bits of a pixel, the number of axes and the length of each |
| `ReservedHeader.UShortInFile` | mosdca/dsim.c:1398-1420 | An unsigned short pixel is at its address in the two bytes that BITPIX says, the high byte first, shifted by 32768 |
| `Dsim.DSImage.Configure` | mosdca/dsim.c:983-1191 | The layout for any list of images, in bytes: each image starts where the one before ends, with its cards, pixels and extend area rounded up to 2880 bytes and 1, 2, 4 or 8 bytes to a pixel as its type says. It fails exactly for an image with axes but no pixel type or when the file cannot be mapped, and a file without images stays unconfigured |
| `Dsim.LaidInBytes` | mosdca/dsim.c:1046-1102 | The layout of one image in numbers: pixel sizes for all eight types, header and pixel offsets, the size of the extension, axis lengths with the missing ones 1 |
| `Dsim.OneMoreAxis` | mosdca/dsim.c:1088-1092 | The number of pixels is the product of the axes |
| `Dsim.AddressIs` | mosdca/dsim.c:953-975 | The address of pixel (i, j, k): the first axis varies fastest |
| `Dsim.LayoutTiles` | mosdca/dsim.c:1004-1102 | All offsets are multiples of 2880, extensions follow each other, and their sizes add up to the file size |
| `Dsim.ExtensionsDisjoint` | mosdca/dsim.c:1072-1102 | No byte belongs to two extensions |
| `Dsim.PixelsDisjoint` | mosdca/dsim.c:953-975 | Pixel addresses lie in the pixel area of their image, different coordinates address disjoint bytes, and a 2D address is that of plane 0 |
| `Dsim.ImagesApart` | mosdca/dsim.c:1072-1183 | The pixel areas of two images of a mapped file are disjoint and inside the file |
| `Dsim.DSImage.StartIO` | mosdca/dsim.c:853-920 | The first free region descriptor describes the region, or the table grows to twice its size and at least four; -1 exactly when the image does not exist or the region is outside it; other descriptors stay |
| `Pixels.WritePixels` | mosdca/mosdca.c:1912-1988 | In all four directions the image holds the pixels of the stream, in order, at the places that are written out in numbers, and nothing else has changed; -1 and no change when the step along the lines is 0 |
| `Pixels.ScatteredIs` | mosdca/mosdca.c:1912-1988 | Every pixel is where the formula says, and nothing else has changed |
| `Pixels.StreamLands` | mosdca/mosdca.c:1932-1984 | The places in columns and rows of the image, from the two origins, steps and axis lengths alone, for columns upwards and downwards and lines to the right and to the left |
| `Pixels.PlacesDiffer` | mosdca/mosdca.c:1937-1984 | The places visited are in the image and all different |
| `Pixels.LastPixelDecides` | mosdca/mosdca.c:1937-1984 | The last pixel decides: in all four directions and for any step a stream stays inside the image if and only if the line of its last pixel does and the walk gets there |
| `Pixels.RoomForOne` | mosdca/mosdca.c:1940-1984 | A whole line has room for a pixel exactly when the step is not longer than the line; otherwise the loop would not get on |
| `Pixels.UnitSteps` | mosdca/mosdca.c:1961-1971 | With unit steps along lines the stream is one contiguous copy |
| `PixelData.Context.WritePixelData` | mosdca/mosdca.c:1750-1904 | Streams are written one after the other or counted as errors; status, counters and the i/o regions in use are as they should be |
| `PixelData.StreamWritten` | mosdca/mosdca.c:1877-1889 | An accepted stream changes its image only, and every pixel of it lands where its coordinates and steps say |
| `PixelData.AcceptedIs` | mosdca/mosdca.c:1793-1866 | When the checks let a stream pass, for all images and all streams: good parameters, and across the lines room for the lines that all steps multiply to, with one line too many let through |
| `PixelData.WholeLinesAccepted` | mosdca/mosdca.c:1832-1866 | When a stream of whole lines passes the region test: its last line may be one line above the image |
| `PixelData.WholeLinesFit` | mosdca/mosdca.c:1961-1971 | When such a stream stays inside the image: one line less than the region test lets through |
| `PixelData.OneLineTooMany` | mosdca/mosdca.c:1832-1866 | An instance: eight pixels for the top line of a 4 x 4 image are accepted and do not fit |
| `PixelData.CountedFromFirstPixel` | mosdca/dsim.c:953-960 | The pixel counted in the image is the one the address function gives |
| `Amplifiers.AmpLeft` | pxf/pxfDCA.c:255-275 | The raster of the left amplifier, pixel by pixel: of each line the left half and the first of the two overscans behind the halves |
| `Amplifiers.AmpRight` | pxf/pxfDCA.c:277-297 | The raster of the right amplifier: the right half and the second overscan |
| `Amplifiers.LeftIs` | pxf/pxfDCA.c:255-275 | Where each pixel of the left raster is in the input, in numbers |
| `Amplifiers.RightIs` | pxf/pxfDCA.c:277-297 | The same for the right raster |
| `Amplifiers.SplitAndJoin` | pxf/pxfDCA.c:255-297 | Interleaving the two rasters gives back every input pixel once, in its place |
| `Amplifiers.ChunkFits` | pxf/pxfDCA.c:380-435 | Every chunk passes the checks of the receiver and stays inside its image |
| `Amplifiers.SendPage` | pxf/pxfDCA.c:300-456 | End to end: whatever the two images held, the first one holds the left and the second one the right half of the detector afterwards, pixel by pixel and with their overscans, without an i/o error, and interleaving them gives the input |
| `Contexts.CacheIsInvisible` | mosdca/mosdca.c:2027-2043 | Remembering the context used last changes no answer if and only if no sequence number has two contexts |
| `Contexts.TwoAnswers` | mosdca/mosdca.c:1999-2043 | An instance: a number set twice is answered with the second context, and with the first one once another context was used |
| `Contexts.ContextTable.SetContext` | mosdca/mosdca.c:1999-2022 | The first free slot, -1 exactly for number 0 or with all eight in use; numbers stay unique if and only if the number was not in use |
| `Contexts.ContextTable.GetContext` | mosdca/mosdca.c:2027-2043 | The context of the number, or none |
| `Contexts.ContextTable.FreeContext` | mosdca/mosdca.c:2047-2075 | The first context of the number is free again and no longer remembered |
| `VmCache.LinkedDistinct` | mosdca/vmcache.c:537-552 | A list with mirrored links has no cycle |
| `VmCache.Cache.ReserveSpace` | mosdca/vmcache.c:762-807 | From the recorded tail towards the head unreferenced segments are freed until more than the request is free, by an unsigned difference; links, tail and the byte account stay right |
| `VmCache.Cache.ReferencedStay` | mosdca/vmcache.c:776-804 | No referenced segment is freed |
| `VmCache.LeastRecentlyUsedFirst` | mosdca/vmcache.c:776-804 | A list is freed from its end: the front part stays, behind it only referenced segments stay, the last one freed was needed, and in the end there is room or nothing more to free |
| `VmCache.Cache.OrderIsKept` | mosdca/vmcache.c:762-807 | Segments are freed in that order if and only if there was room already or no unreferenced segment is behind the recorded tail |
| `VmCache.NewestFreedFirst` | mosdca/vmcache.c:560-576 | An instance: after the older of two segments was used again and both were released, the one used last is freed, and the other one stays however much is asked for |
| `VmCache.Cache.CacheRegion` | mosdca/vmcache.c:461-584 | The region is widened to whole pages. If the first segment of the file with the first byte of them also has the last one it moves to the head with one more reference; if not, the region is refused; if no segment has that byte, as behind the end of a segment, room is made and a new segment is first |
| `VmCache.PagesAre` | mosdca/vmcache.c:480-489 | The pages in numbers: from a multiple of the page size to the end of the page of the last byte |
| `VmCache.CoverIs` | mosdca/vmcache.c:493-509 | The segment found is the first one of that file whose offsets include the byte; its end is not included |
| `VmCache.StartIs` | mosdca/vmcache.c:627-632 | The segment found by the other operations is the first one of that file that starts at the page |
| `VmCache.RoomIs` | mosdca/vmcache.c:776-791 | What is free is the difference modulo the range of unsigned numbers |
| `VmCache.Cache.Uncache` | mosdca/vmcache.c:642-686 | One reference less, never below 0; without references the segment is freed if asked for or if the cache is disabled |
| `VmCache.Cache.UncacheRegion` | mosdca/vmcache.c:597-637 | The same for the first segment of the file at that page, with the status of the unmapping; all other counts stay |
| `VmCache.Cache.RefreshRegion` | mosdca/vmcache.c:692-752 | The segment moves to the head; the recorded tail pointer stays, so a tail that was last stays last if and only if it was not the segment that moved |
| `Transcode.Bswap2` | mosdca/dsim.c:1510-1535 | The bytes of every pair are exchanged, an odd last byte is copied; in place or not |
| `Transcode.EncodeUShort` | mosdca/dsim.c:1398-1420 | Whatever the order of the host, every two bytes of the output are, high byte first, the number of the two bytes of the input plus 32768 modulo 65536 |
| `Transcode.DecodeUShort` | mosdca/dsim.c:1425-1447 | The inverse conversion in bytes, to the order asked for |
| `Transcode.DecodeUndoesEncode` | mosdca/dsim.c:1398-1447 | Decoding undoes encoding for every buffer of even length; with different orders outside the bytes of each pixel are exchanged |
| `Transcode.FileHoldsPixels` | mosdca/dsim.c:1392-1398 | BZERO plus the signed number in the file is the pixel |
| `Transcode.FileBytes` | mosdca/dsim.c:1398-1420 | The conversion in bytes |
| `Transcode.PixelBytes` | mosdca/dsim.c:1425-1447 | And back, in bytes |
| `Transcode.EncodeInt` | mosdca/dsim.c:1451-1470 | Every four bytes are turned around on a host with the low byte first, and stay as they are on others |
| `Transcode.StoredBytes` | mosdca/dsim.c:1451-1470 | Byte by byte: which byte of the input each byte of the output is |
| `Transcode.FileOrder` | mosdca/dsim.c:1451-1470 | Host integers end up with the high byte first, whatever the order of the host |
| `Raster.FlipXAxis` | smcmgr/rotate.c:126-158 | The loops compute the flip of the columns |
| `Raster.FlipYAxis` | smcmgr/rotate.c:162-194 | The loops compute the flip of the rows |
| `Raster.TransposeSecond` | smcmgr/rotate.c:198-233 | The loops compute the transposition along the second diagonal |
| `Raster.TransposeMain` | smcmgr/rotate.c:237-273 | The loops compute the transposition along the main diagonal (one- and four-byte pixels) |
| `Raster.AppliedMoves` | smcmgr/rotate.c:126-273 | Every operation pixel by pixel, in numbers: which input pixel each output pixel is |
| `Raster.UndoesItself` | smcmgr/rotate.c:126-273 | Every operation undoes itself, the transpositions with the dimensions exchanged |
| `Raster.SecondDiagonal` | smcmgr/rotate.c:198-273 | The second transposition is the first followed by both flips |
| `Raster.FlipsCommute` | smcmgr/rotate.c:126-194 | The order of the two flips does not matter |

The rows for the Supervisor's handlers and for the loops that print and scan cards state that the
imperative code equals a function; what that function is worth is stated by the rows that follow.
The handlers that only count and send (`ImageType`, `DcaTransDone`, `SmcDone`) are proved equal to
their functions in the same way.

## Left out

- Processes outside the pipeline: sockets, PVM, the message bus, Tcl, the GUI, image display. They appear as messages, parameters or a file of characters.
- Messages that only update displays or monitors ("segList", "imname", "keywmon", status replies, "process pxf done") are not in the channels.
- The model of the pipeline assumes that no message is lost or duplicated, that N is fixed and one SMC manager holds the page with the image type, and that the operator does not change the sequence number during a run.
- New exposure IDs are taken to be positive and different from those in the queue and from the one in flight; `ReusedIdStalls` shows why. Exposure IDs are integers in units of 1e-6, in which equality within the tolerance of `smcEqualExpID` (not part of this model) is equality.
- The build without a trigger host, where every other open and close counts (super/supPanHandler.c:273, 338), is not modelled for closes.
- `superProcNext` (super/supPanHandler.c:457), a second starter with a different gate that nothing shown calls.
- `kwdb_CopyEntry`, `kwdb_UpdateFITS`, `dsim_Locate`, `dsim_Open`, `dsim_Close`, `dsim_Set` and `dsim_Get` apart from the axis lengths.
- Allocation failure and the addresses that `realloc` may change; characters outside ASCII, which in a name can make the hash negative and the program index outside its table.
- Kwdb.Database.AddStr: strings are shorter than one growth step of the arena, which is all the room that one growth makes.
- Kwdb.Database.GetEntry: pointers are live or out of range; the program does not notice a deleted one and reads what is left in its slot.
- Kwdb.Database.DeleteEntry: pointers are live or out of range; with a deleted one the program counts down once more and may redirect links again. After an operation that ended service no further deletion or renaming is described, only insertion and lookups.
- FitsCard.CardRoundTrip: for well-formed entries only: names without blanks that are not END, values that end where the reader looks, comments that do not start with a blank or a slash, lines of at most 80 columns. The comment buffer that the program leaves uninitialised is a parameter.
- Kwdb.Database.AddEntry: the name is ASCII.
- Kwdb.Database.Lookup: for searches that end. Once links run in a circle (`Endless`) the program still finds the instances that it meets and does not return for others; the former is not stated.
- Kwdb.Database.RenameEntry: pointers are live or out of range and names are ASCII; the order of later matches after a renaming is that of the thread, not that of insertion.
- FitsFile.ReadFITS: no thread of the database visits a slot that is not in use (`Roomy`), as in every tidy one; what entering into such a slot does is stated for one entry by `AddEntry`.
- ReservedHeader.GeometryIsRead: for types and names of at most 50 printable characters without a quote, which fit their cards, and for numbers that are C integers.
- FitsColumns.ReadsPlain: for cards without NUL characters, as are `ReadsQuoted` and `ReadsText`; a NUL would end the string.
- DsimHeader.WriteHeader: the file is configured and mapped; header writes to the real file during configuration are not modelled; the reserved keywords are built by `ReserveKeywords`.
- Dsim.DSImage.Configure: for files that are created; axis lengths, extend areas and header sizes are not negative; integer overflow of the pixel count is left out, and the call that builds the reserved keywords of each image is modelled by itself (`ReserveKeywords`).
- Dsim.DSImage.StartIO: descriptors are named by their index; the move of the descriptor table when it grows is not modelled.
- Pixels.WritePixels: the pixels of an image are an array counted from its first pixel (`CountedFromFirstPixel`); the program does not check that a stream stays inside the image and the block, and the model demands it of the last pixel.
- PixelData.WholeLinesFit: for streams of whole lines that go up with unit steps, as does `WholeLinesAccepted`; `LastPixelDecides` is for all.
- PixelData.Context.WritePixelData: accepted streams must fit (`Sound`: the last pixel in the image, the first and the last one in the block); where the others would be written is not modelled.
- Amplifiers.SendPage: the message that carries a chunk, its checks for the sequence number, the synchronisation after every sixteenth chunk and the conversion on arrival are left out.
- VmCache.Cache.CacheRegion: the returned address is not modelled (on the refresh path the program adds to an uninitialised one); a failed `mmap` is taken to give no address, while the program tests for 0 where `mmap` gives -1 (mosdca/vmcache.c:520) and would link a segment at that address; left out are also locking, read-ahead and `madvise`; overlaps with a segment that starts later are not detected by the program.
- VmCache.Cache.ReserveSpace: the unsigned difference wraps around once, as it does unless more is cached than the machine can address.
- Raster.TransposeMain: two-byte pixels (smcmgr/rotate.c:256-261) are left out; their loop counts down and reads one row too far. The buffers that `rotate` keeps between calls are left out.
- `DecodeInt` is empty; `host_swap2` is the parameter `host`.
