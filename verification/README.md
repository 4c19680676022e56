# A verified model of the hotel backend's self-contained cores

The repository is a multi-tenant hotel backend. This Dafny project models the
parts of it that carry their own logic, and proves what those parts are for:

- `Bytes`, `Utf8`, `ZipArchive`: the ZIP writer and reader, byte by byte. The
  reader gives back what was added exactly when the end signature does not recur
  among the counts and sizes behind it.
- `ImageTypes`, `PngSanitizer`, `JpegSanitizer`, `WebpSanitizer`,
  `ImageSanitizer`: the metadata strippers. Their output is the kept pieces in
  order; stripping again changes nothing exactly when the pieces of the file
  settle its size, which each module states on the input.
  `PngFormat`, `JpegFormat` and `WebpFormat` print files the way the standards
  lay them out, and show that on those the strippers remove the metadata and
  nothing else, through the whole operation with its limits.
- `QueryGuard`: the per-connection query chain as a machine whose reactions may
  interleave freely: one query at a time, in order, none lost, and none held up
  by calls that keep coming in.
- `RefreshTokens`: token rotation, reuse detection and log-out, with any number
  of presentations interleaved between read, claim and revocation.
- `PropertyScope`: the query rewrite, its meaning, and non-interference for
  programs that choose each operation from the replies so far.
- `TenantTransactions`, `FanOut`, `ClientCache`: tenant transactions as programs
  of reads, writes and locks whose statements, checks and commits interleave with
  each other and with changes of gate and routing; the fan-out over shared and
  dedicated databases; and the bounded cache of their clients.
- `AddressFilter`: the IPv6 reader and the address classifier, against the
  128-bit numbers that addresses stand for.
- `Calendar`, `LagosTime`, `Easter`: dates, date ranges, hotel nights, Easter.
- `MoneyWords`, `AuditCsv`, `CashNotes`: amounts in words with a reader, the CSV
  export with an RFC 4180 reader, and the greedy note breakdown.
- `Text`, `Wrappers`: string operations and result types they share.

A class stands where the source updates an object in place, a method with a loop
where the source loops, and each is proved equal to a function (`Spec`, `Next`,
`Run`, `Archive`, `Group`, ...) whose properties are then proved as lemmas about
all inputs or all runs. `dafny verify dfyconfig.toml` checks the project.

## Findings

Where a law turned out narrower than the code's documentation suggests, the
model follows the code, a lemma names the input, and another says exactly when
the law holds.

- An archive whose trailer contains the end signature cannot be read back
  (`ZipArchive.UnreadableArchive`), because the reader takes the last occurrence.
- A PNG whose last header chunk declares fewer than four bytes, a JPEG that ends
  in a bare marker without a scan or whose frame segment is shorter than seven,
  and a WebP whose image chunk is too short for its size fields take part of
  their size from what stands behind; where that is dropped, the second pass
  reads another size, or refuses the file. `HeaderIntact` and `SizeSettled` say
  when, and `ImageSanitizer.ShortPngIsRefusedLater`,
  `JpegSanitizer.HangingMarkerIsLost` and `WebpSanitizer.ShortHeaderFails` are
  inputs.
- The documentation of the property scope says that every create must carry a
  property id in scope. The check looks at a scalar `propertyId` only; the column
  is required, so data without one is refused unless it connects its property as
  a relation, and that may be any property
  (`PropertyScope.CreateCanConnectForeign`). Neither is the data of an update
  checked: it moves every row it changes out of scope when it sets a property out
  of scope. `PropertyScope.HiddenRowsStay` counts both, and is exact.
- A transaction reads the mark of its tenant before it marks its key and commits,
  so one that was checked before the mark commits behind it
  (`TenantTransactions.LateCommit`). A marked tenant's data stays as it is exactly
  when no transaction past its check has anything left to change
  (`TenantTransactions.MarkedTenantIsFrozen`). A cutover drains the database
  (src/modules/dedicated-db/provisioning.service.ts:422-423), so
  `TenantTransactions.DrainedSiteIsFrozen` applies to it; a rollback leaves a
  dedicated database, whose gate goes on serving, after 1.5 seconds (lines
  527-528) and so relies on that condition.
- `dateRange(from, '9999-12-31')` does not end, and an export up to that date
  throws (`LagosTime.DateRangeEnds`, `AuditCsv.ExportBody`).
- A client that was just opened can be closed by its own eviction, when the
  other clients are in use (`ClientCache.OpenedClientSurvives`). If that client
  then fails to connect, it takes a newer client of the same key out of the map,
  even one in use (`ClientCache.StaleFailureDropsClientInUse`).
- From ten to the seventeenth kobo on, amounts in words no longer tell amounts
  apart (`MoneyWords.WordsTellAmountsApart`).
- The leading apostrophe of the CSV guard is not reversible: `=a` and `'=a`
  export alike (`AuditCsv.GuardsAlike` says which pairs do).

## Assumptions

- `ZipArchive.Codec` stands for deflate and CRC-32; the round trip assumes that
  inflating undoes deflating. Strings are sequences of Unicode scalar values.
- `QueryGuard`: promise reactions may run in any order after their promise has
  settled, which allows more runs than the microtask queue does.
- `RefreshTokens`: reading a token, claiming it together with issuing its
  successor, and revoking a family are each atomic. That is stronger than READ
  COMMITTED, where the statement of a log-out could miss a token that a rotation
  has issued but not yet committed.
- `TenantTransactions`: under READ COMMITTED a statement sees the committed rows
  and those of its own transaction, and a row that was written or locked is held
  until the transaction ends; each statement is one step, on one row. The database
  assigns a transaction id at the first write or row lock. The update that marks
  the key takes effect with the commit. What the gate answers, and what the
  routing says, is left to steps of their own.
- `PropertyScope`: the properties that data names exist, and Prisma refuses data
  that names none, names one in both ways, or connects one in a `createMany`.
- `FanOut`: the routing does not change during a call, tables list their rows in
  the order the queries ask for, and stored tenant ids are lower case.
- `AddressFilter`: `isIP` accepts the written forms of section 2.2 of RFC 4291,
  with an optional zone; a block list compares leading bits.
- `Calendar`: the engine reads `YYYY-MM-DD`, with a day up to 31 running over
  into the next month, and the signed six-digit year with a month, which is what
  cutting an extended ISO text to ten characters leaves.
- `AuditCsv`: the trail is read in `createdAt` order, and time does not run
  backwards; ISO texts of instants and JSON texts of metadata are given.
- JavaScript numbers are taken as exact; integers are, up to 2^53.

## Model

| member | source | states |
|---|---|---|
| ZipArchive.ZipWriter.constructor | src/common/utils/zip.ts:8-12 | a new writer is consistent and holds no entry |
| ZipArchive.ZipWriter.Add | src/common/utils/zip.ts:14-58 | an entry is appended at the running offset, with its central record pointing at its local header; a field too large for its width leaves the writer as it was; beyond the size limit the entry is recorded and the call still fails |
| ZipArchive.ZipWriter.ToBuffer | src/common/utils/zip.ts:60-72 | it succeeds if and only if the end record can hold the count and the sizes, that is up to sixteen and thirty-two bits; the buffer is then local entries, central directory and end record of exactly the entries added, and a range error otherwise |
| ZipArchive.ClosesInNumbers | src/common/utils/zip.ts:60-70 | the fields of the end record read back as count, directory size and offset if and only if these are below 2^16, 2^32 and 2^32 |
| ZipArchive.FitsItsFields | src/common/utils/zip.ts:21-49 | an entry is accepted if and only if the bytes of its two headers read back as its lengths, its offset and its date |
| ZipArchive.DosStampUnpacks | src/common/utils/zip.ts:75-81 | month, day, hour, minute, the year from 1980 on and the seconds to two can be read out of the DOS stamp |
| ZipArchive.DosDate | src/common/utils/zip.ts:75-81 | the date fits its 16-bit field exactly up to the year 2107 |
| ZipArchive.LocalFields | src/common/utils/zip.ts:21-32 | every field of a local header is at its offset, APPNOTE section 4.3.7 |
| ZipArchive.CentralFields | src/common/utils/zip.ts:34-51 | every field of a central record is at its offset, APPNOTE section 4.3.12 |
| ZipArchive.EndFields | src/common/utils/zip.ts:61-70 | every field of the end record is at its offset, APPNOTE section 4.3.16 |
| ZipArchive.EntryPlaces | src/common/utils/zip.ts:51-55 | each entry's bytes lie in the archive where its recorded offset and the directory say |
| ZipArchive.LastSignature | src/common/utils/zip.ts:86 | the last occurrence of the end signature, or -1 if there is none |
| ZipArchive.ReadZip | src/common/utils/zip.ts:84-106 | the loop over the central directory computes `Read`, with every failing read and inflation |
| ZipArchive.NotAZipExactly | src/common/utils/zip.ts:86-87 | a file is refused as no archive if and only if it holds no end signature |
| ZipArchive.ReadsForeignEntry | src/common/utils/zip.ts:91-103 | in archives of any program an entry is found behind the name, extra and comment fields that are skipped, and data that is not deflated is taken as it is |
| ZipArchive.ReadsOneEntry | src/common/utils/zip.ts:91-103 | one round of the reader recovers the name and content of the entry its record points at |
| ZipArchive.ReadsEntriesBack | src/common/utils/zip.ts:90-104 | from any record on, the reader recovers the remaining entries, a later one of the same name replacing an earlier |
| ZipArchive.EndRecordFound | src/common/utils/zip.ts:86 | the reader finds the true end record exactly when the signature does not recur in the fields behind it |
| ZipArchive.RoundTrip | src/common/utils/zip.ts:14-106 | for every list of accepted entries the reader returns exactly the added names and contents, last one winning, unless the end signature recurs in the trailer, when it fails |
| ZipArchive.SmallArchivesReadBack | src/common/utils/zip.ts:14-106 | under plain limits on count, directory size and offset every archive can be written and reads back |
| ZipArchive.UnreadableArchive | src/common/utils/zip.ts:69-87 | an accepted archive that the reader cannot read |
| ZipArchive.UnreadableArchiveExists | src/common/utils/zip.ts:69-87 | there is one: a lossless codec and an entry that it holds for |
| Utf8.DecodesEncoded | src/common/utils/zip.ts:16-97 | reading the bytes of a name as UTF-8 gives the name back |
| Utf8.EncodesAsTabled | src/common/utils/zip.ts:16-16 | every character is written with the marks and bits that the table of RFC 3629, section 3, gives it |
| PngSanitizer.Sanitize | src/common/utils/image-sanitize.ts:36-60 | the chunk loop computes `Spec`: kept chunks, dimensions of the last header, refusals and reads past the end |
| PngSanitizer.KeepsChunksInOrder | src/common/utils/image-sanitize.ts:42-57 | the file is a list of chunks ending with the first end chunk, and the output is exactly the kept kinds among them, in order |
| PngSanitizer.WalksAgain | src/common/utils/image-sanitize.ts:42-59 | walking what was kept, behind any prefix, keeps all of it and finds the same header chunk |
| PngSanitizer.HeaderFollowed | src/common/utils/image-sanitize.ts:42-57 | in the file the last header chunk is followed by the chunks behind it, in what is kept by those of them that are kept |
| PngFormat.StripsExactlyMetadata | src/common/utils/image-sanitize.ts:33-60 | of every file printed from a list of chunks the output is the print of the chunks whose type spells one of the eleven names, with the size of the last header chunk; without a header or with a zero side it is refused |
| PngFormat.PixelsSurviveTextDoesNot | src/common/utils/image-sanitize.ts:33-57 | the data of all IDAT, PLTE and tRNS chunks is kept byte for byte, and no text, EXIF or time chunk is |
| PngFormat.SanitizedWhole | src/common/utils/image-sanitize.ts:33-158 | the whole operation on a printed PNG file: it hands out the file without its metadata if and only if both sides are within the limits |
| PngFormat.ChunkReads | src/common/utils/image-sanitize.ts:43-50 | length, type and size of a printed chunk (PNG specification, sections 5.3 and 11.2.1) are read back where the loop reads them |
| PngSanitizer.SanitizesAgain | src/common/utils/image-sanitize.ts:36-60 | the output is no longer than the input and sanitises to itself, with the same size, if and only if the last header chunk of the input declares at least four bytes or the bytes it lacks are the same in the chunk behind it and in the next kept chunk |
| PngSanitizer.LongHeadersAreIntact | src/common/utils/image-sanitize.ts:47-50 | a last header chunk of at least four declared bytes is such a header |
| PngSanitizer.ShortHeaderChanges | src/common/utils/image-sanitize.ts:47-50 | an accepted file of 256 by 256 pixels whose second pass reads 256 by 0 |
| JpegSanitizer.Sanitize | src/common/utils/image-sanitize.ts:63-94 | the segment loop computes `Spec`: kept segments, dimensions of the last frame header, refusals and reads past the end |
| JpegSanitizer.KeepsSegmentsInOrder | src/common/utils/image-sanitize.ts:68-91 | the file is its pieces and then a scan or at most three stray bytes, the output exactly the kept pieces in order and the scan untouched |
| JpegSanitizer.FrameFollowed | src/common/utils/image-sanitize.ts:68-91 | in the file the last frame header is followed by the pieces behind it, in what is kept by those of them that are kept |
| JpegFormat.StripsExactlyMetadata | src/common/utils/image-sanitize.ts:62-94 | of every file printed from markers, segments and a scan the output is the print without the segments of the fifteen markers APP1 to APP13, APP15 and COM, the scan untouched, with the size of the last frame header |
| JpegFormat.MarkerTables | src/common/utils/image-sanitize.ts:71-85 | the ranges of the loop are the bare markers, the frame markers and the metadata markers of ITU-T T.81, table B.1, one by one |
| JpegFormat.SanitizedWhole | src/common/utils/image-sanitize.ts:62-158 | the whole operation on a printed JPEG file, as for PNG |
| JpegFormat.SegmentReads | src/common/utils/image-sanitize.ts:76-82 | marker, length, height and width of a printed segment (ITU-T T.81, B.1.1.4 and B.2.2) are read back where the loop reads them |
| JpegSanitizer.SanitizesAgain | src/common/utils/image-sanitize.ts:63-94 | the output sanitises to itself with the same size if and only if the input has a scan or something kept behind its last bare marker, and its last frame segment has length at least seven or the size bytes it lacks are the same in what stands behind it and in what is kept of that |
| JpegSanitizer.LongHeadersAreIntact | src/common/utils/image-sanitize.ts:79-90 | a file that reaches its scan with a last frame segment of length at least seven meets that condition |
| JpegSanitizer.HangingMarkerIsLost | src/common/utils/image-sanitize.ts:68-75 | an accepted file without a scan that loses its last marker on the second pass |
| WebpSanitizer.Sanitize | src/common/utils/image-sanitize.ts:97-131 | the chunk loop computes `Spec`: kept chunks, dimensions, rewritten RIFF size, refusals and reads past the end |
| WebpSanitizer.ClearFlags | src/common/utils/image-sanitize.ts:108-110 | clears the EXIF and XMP bits of the flag byte and no other |
| WebpSanitizer.KeepsChunksInOrder | src/common/utils/image-sanitize.ts:102-123 | the file is a list of chunks with at most seven stray bytes, the output exactly those that are not metadata, in order and with their padding, VP8X flags cleared |
| WebpSanitizer.FirstPass | src/common/utils/image-sanitize.ts:102-123 | the size that is reported is the one read off the list of chunks |
| WebpSanitizer.SecondPass | src/common/utils/image-sanitize.ts:102-123 | a walk over kept chunks keeps all of them and reads the size off their list, or fails where a field runs out of it |
| WebpFormat.StripsExactlyMetadata | src/common/utils/image-sanitize.ts:96-131 | of every file printed from a list of chunks the output is the file printed from that list without the chunks named EXIF and XMP and without their flags, with the canvas of the extended header or the size of the first image chunk whose width is not zero |
| WebpFormat.SanitizedWhole | src/common/utils/image-sanitize.ts:96-158 | the whole operation on a printed WebP file, as for PNG |
| WebpFormat.PieceMeasures | src/common/utils/image-sanitize.ts:108-120 | the size fields of a printed chunk (RFC 9649, sections 2.5 to 2.7) are read back where the loop reads them |
| WebpSanitizer.SanitizesAgain | src/common/utils/image-sanitize.ts:97-131 | the output is accepted again with the same size and body if and only if the chunks without the metadata are read to have the size the chunks of the file have; that is so with a VP8X chunk, and when every size field read lies inside its chunk; where a field runs out of the output it is refused |
| WebpSanitizer.SimpleFilesSettle | src/common/utils/image-sanitize.ts:113-120 | with exactly one image chunk and no VP8X the second pass is stable if and only if its size fields, where they reach behind it, are the same in what is kept; fields that run past the end of that are refused |
| WebpSanitizer.ShortHeaderFails | src/common/utils/image-sanitize.ts:113-115 | an accepted file whose output is refused |
| ImageSanitizer.SanitizeIco | src/common/utils/image-sanitize.ts:133-148 | the directory loop computes the largest width and height, or the truncation refusal |
| ImageSanitizer.IcoReportsLargest | src/common/utils/image-sanitize.ts:133-154 | from any entry on, an icon is accepted if and only if every image lies inside the file; it reports the largest width and height, 0 standing for 256, and the body is the file itself |
| ImageSanitizer.IcoAccepted | src/common/utils/image-sanitize.ts:133-148 | the same of the whole icon, with as many entries as its header says |
| ImageSanitizer.SanitizeImage | src/common/utils/image-sanitize.ts:150-158 | the limits, the sniffed kind and the sanitiser of that kind decide the result or the refusal |
| ImageSanitizer.SniffsSignature | src/common/utils/image-sanitize.ts:25-31 | the kind found is the one whose signature bytes the file has, and no file has two |
| ImageSanitizer.AcceptedExactly | src/common/utils/image-sanitize.ts:150-158 | a file is accepted if and only if it is within the byte limit, of an allowed kind, parses as that kind, and both its sides are at most the largest and, where there is one, at least the smallest side allowed |
| ImageSanitizer.UnknownRefused | src/common/utils/image-sanitize.ts:152-153 | a file without any of the signatures is refused |
| ImageSanitizer.SanitizesAgain | src/common/utils/image-sanitize.ts:25-158 | for every accepted image a second pass under the same options gives the same kind, size and body and strips nothing, if and only if the input settles its size |
| ImageSanitizer.ShortPngIsRefusedLater | src/common/utils/image-sanitize.ts:150-158 | a file of 300 bytes that any caller who takes PNG images of 256 by 256 pixels accepts, and whose output the same caller refuses |
| QueryGuard.StepKeepsInvariant | src/common/pg-concurrency-guard.ts:71-86 | every step keeps the chain ordered, consistent and tracked by TAIL |
| QueryGuard.RunKeepsInvariant | src/common/pg-concurrency-guard.ts:71-86 | so does every run, whatever the interleaving |
| QueryGuard.AtMostOneActive | src/common/pg-concurrency-guard.ts:77-79 | in every reachable state at most one guarded query runs on the client |
| QueryGuard.ReceivedInOrder | src/common/pg-concurrency-guard.ts:77-79 | the driver receives queries in submission order, each once, and only after the one before has settled, however it ended |
| QueryGuard.AbsentTailNothingOutstanding | src/common/pg-concurrency-guard.ts:78-86 | without a TAIL every query has settled |
| QueryGuard.CleanupDropsOnlyFinishedTails | src/common/pg-concurrency-guard.ts:84-86 | clean-up never drops the TAIL of a query that has not settled |
| QueryGuard.StepsUseUpWork | src/common/pg-concurrency-guard.ts:77-86 | every step but a new call uses up a bounded amount of work |
| QueryGuard.MovesUseUpFront | src/common/pg-concurrency-guard.ts:77-86 | while a query is not over, settlements and reactions use up work of the queries up to it, and calls add none to them |
| QueryGuard.NeverStuck | src/common/pg-concurrency-guard.ts:77-86 | while a query is not over, a running one can settle or a reaction can run |
| QueryGuard.EverySubmittedQueryStarts | src/common/pg-concurrency-guard.ts:71-86 | on a client that keeps being called, a query has started and settled once more settlements and reactions have happened than the queries up to it need |
| QueryGuard.WaitIsBounded | src/common/pg-concurrency-guard.ts:71-86 | four of them for each query up to it are enough |
| QueryGuard.QuietRunsEndSettled | src/common/pg-concurrency-guard.ts:71-86 | once calls stop the run is short, and when nothing more can happen every submitted query has been received and settled and TAIL is gone |
| QueryGuard.GuardedClient.GuardedQuery | src/common/pg-concurrency-guard.ts:71-88 | in serialise mode a call is started or chained on TAIL and becomes TAIL, and one that starts finds every other query settled; other modes and styles leave the chain alone; throw mode refuses on a busy client |
| QueryGuard.GuardedClient.Run | src/common/pg-concurrency-guard.ts:76-78 | a chained query goes to the driver, and no other runs then |
| QueryGuard.GuardedClient.RelaySettlement | src/common/pg-concurrency-guard.ts:79-82 | however a query settled, the one chained on it can start |
| QueryGuard.GuardedClient.ClearTail | src/common/pg-concurrency-guard.ts:84-86 | the slot is cleared exactly by the last query |
| RefreshTokens.StepKeepsInvariant | src/modules/auth/auth.service.ts:233-329 | every atomic step of every presentation keeps families chained and outcomes accounted for |
| RefreshTokens.RunKeepsInvariant | src/modules/auth/auth.service.ts:233-329 | so does every interleaved run |
| RefreshTokens.FamiliesAreChains | src/modules/auth/auth.service.ts:271-289 | in every reachable state the tokens of a family, in order of issue, are one chain of successors, each rotated but the last, so at most one is unrevoked |
| RefreshTokens.DeadFamiliesStayDead | src/modules/auth/auth.service.ts:452-462 | once all tokens of a family are revoked, no run ever makes one unrevoked or issues another to it |
| RefreshTokens.RevocationKills | src/modules/auth/auth.service.ts:249-284 | a reuse, a lost claim, an inactive user and a log-out leave every token of the family revoked |
| RefreshTokens.AtMostOneIssued | src/modules/auth/auth.service.ts:269-290 | of any number of presentations of one token at most one obtains a new token |
| RefreshTokens.ReusedOnlyAfterRevocation | src/modules/auth/auth.service.ts:275-300 | a presentation is reported as reuse only when its family is wholly revoked |
| RefreshTokens.LostRaceKillsFamily | src/modules/auth/auth.service.ts:243-300 | over any run, once a token is rotated every presentation of it that has not claimed yet or comes later can only be reported as reuse: its own steps lead to the revocation and to that report, and when it is reported the family is wholly revoked |
| RefreshTokens.ReadDecides | src/modules/auth/auth.service.ts:243-267 | the read goes on to the claim if and only if the token is unrevoked and expires later; a rotated token is a reuse, any other is invalid |
| RefreshTokens.ClaimDecides | src/modules/auth/auth.service.ts:269-290 | the claim issues a token if and only if its own is still unrevoked and the user active: one of the same user and family, with the expiry given |
| RefreshTokens.RevocationTouchesFamily | src/modules/auth/auth.service.ts:452-462 | a revocation and a log-out mark the unrevoked tokens of the one family with their reason and change nothing else |
| RefreshTokens.ExpiredOrInactiveNeverIssued | src/modules/auth/auth.service.ts:265-284 | over any run, a presentation that read its token expired or claimed it with the user inactive never obtains a token |
| RefreshTokens.IssuedWasEarned | src/modules/auth/auth.service.ts:243-290 | in every reachable state, a presentation that obtained a token read its own unrevoked and not expired, later claimed it unrevoked with the user active, and got one of the same user and family with the expiry of that claim |
| RefreshTokens.AuthStore.RevokeFamilyOf | src/modules/auth/auth.service.ts:452-462 | token by token: the unrevoked ones of the family get the reason, all others stay; none of the family is left unrevoked, and the number of those that were is returned |
| RefreshTokens.AuthStore.SignInUser | src/modules/auth/auth.service.ts:223-223 | issues the first token of a new family |
| RefreshTokens.AuthStore.Logout | src/modules/auth/auth.service.ts:312-329 | revokes the unrevoked tokens of the family as logged out and no others, and is audited exactly when that revoked something |
| RefreshTokens.AuthStore.Refresh | src/modules/auth/auth.service.ts:233-309 | one uninterrupted presentation: a token is issued if and only if its own is unrevoked, not expired, and the user active; it is reuse if and only if it was rotated; with the whole new table in each case |
| RefreshTokens.AloneAnswers | src/modules/auth/auth.service.ts:243-291 | the same of the state machine |
| RefreshTokens.AloneIsARun | src/modules/auth/auth.service.ts:243-291 | such a presentation is one of the runs the theorems speak of |
| PropertyScope.WithProperties | src/common/property-scope.ts:68-74 | the scope filters by the given ids; the current property stays if it is one of them, and is the first of them otherwise |
| PropertyScope.FilteredExactly | src/common/property-scope.ts:51-56 | a transaction is filtered if and only if the scope is of its tenant, in whatever letters, and lists properties |
| PropertyScope.RewriteMeaning | src/common/property-scope.ts:143-147 | the rewritten query holds on a row exactly when the original does and the row's property is in scope, for any AND entry and any number of ids |
| PropertyScope.RewriteReaches | src/common/property-scope.ts:143-147 | the rewritten query selects what the original selects among the rows in scope |
| PropertyScope.CheckCreate | src/common/property-scope.ts:119-125 | finds the first row whose scalar property id is out of scope |
| PropertyScope.Offence | src/common/property-scope.ts:119-125 | there is none exactly when every row has a scalar id in scope or no scalar id |
| PropertyScope.ReplaceAllVisible | src/common/property-scope.ts:143-149 | an update or delete of many under the filter acts on the rows in scope as if there were no others, and keeps the hidden ones |
| PropertyScope.ReplaceFirstVisible | src/common/property-scope.ts:143-149 | the same for an update or delete of one row |
| PropertyScope.ExecuteSeesOnlyScope | src/common/property-scope.ts:135-152 | reply and effect of any operation depend on the rows in scope only, and every hidden row is kept |
| PropertyScope.ExecuteActsInScope | src/common/property-scope.ts:119-152 | an operation is refused without effect if its data names a scalar id out of scope; otherwise its reply, and what it leaves in scope, are what the operation asked for gives on a table of the rows in scope alone |
| PropertyScope.RepliesFromScope | src/common/property-scope.ts:143-149 | reads and deletes hand out rows in scope only |
| PropertyScope.HiddenRowsStay | src/common/property-scope.ts:135-152 | the rows out of scope stay as they are and none joins them if and only if the operation neither sets a property out of scope on a row it reaches nor creates a row connected to one; otherwise just the rows it changes or creates join them |
| PropertyScope.UpdateCanMoveRowOut | src/common/property-scope.ts:143-149 | on any table an update that matches a row in scope and sets an id out of scope puts rows out of scope |
| PropertyScope.CreateCanConnectForeign | src/common/property-scope.ts:119-125 | on any table a create that connects a property out of scope adds its row there, where the same scalar id is refused |
| PropertyScope.NonInterference | src/common/property-scope.ts:131-155 | two tables that agree in scope cannot be told apart by any adaptive program, and still agree in scope afterwards |
| PropertyScope.HiddenRowsSurvive | src/common/property-scope.ts:131-155 | over any run no row out of scope is changed or deleted |
| PropertyScope.NoForeignRowCreated | src/common/property-scope.ts:131-155 | over any run, the rows out of scope stay and none joins them if and only if no operation the program comes to is such an update or create |
| TenantTransactions.DbService.TenantTransaction | src/prisma/db.service.ts:104-147 | one call with nothing in between: the database the routing names, the gate, the callback, the mark, and then refused, rolled back, or committed with its key marked; a moved tenant makes the router reload |
| TenantTransactions.DbService.ControlTransaction | src/prisma/db.service.ts:153-170 | the same on the shared database, without gate, mark and key |
| TenantTransactions.BeginsWhereServed | src/prisma/db.service.ts:104-112 | a transaction runs on the database of its tenant's dedicated and active or rolling-back route, and on the shared one if and only if there is none: the database the fan-out reads that tenant from |
| TenantTransactions.BeginDecides | src/prisma/db.service.ts:104-127 | before its callback a call is refused for an id that is no UUID, told to retry in a second if its tenant has moved, with a reload of the routing, and begun with the gate of its own database otherwise |
| TenantTransactions.UuidGroups | src/prisma/db.service.ts:16-17 | five groups of 8, 4, 4, 4 and 12 characters are accepted as an id if and only if they are hexadecimal digits |
| TenantTransactions.UuidShape | src/prisma/db.service.ts:16-17 | every accepted id has that shape |
| Text.LowersCapitals | src/prisma/db.service.ts:108-108 | lower case moves the letters A to Z and nothing else |
| TenantTransactions.StatementActs | src/prisma/db.service.ts:121-128 | a statement is answered from its tenant's data in its own database, under the writes of its transaction; a write or lock holds its row |
| TenantTransactions.WaitsForHolders | src/prisma/db.service.ts:121-128 | a read is never held up; a write or lock waits if and only if another active transaction of the tenant in that database holds the row |
| TenantTransactions.CommitActs | src/prisma/db.service.ts:137-147 | a commit puts the writes, row by row, into its tenant's data in its own database, marks the key that its request has for this tenant if something was written, and changes nothing else |
| TenantTransactions.RunCallback | src/prisma/db.service.ts:128-128 | the loop over the statements of a callback gives its writes, locks, answers and result, or its failure |
| TenantTransactions.CheckDecides | src/prisma/db.service.ts:122-136 | a transaction gets past its check if and only if its callback returned and, if it wrote, the gate did not say read-only when it began, the registry does not have the tenant in a cutover or rollback at that moment, and no dry run is on; what it is answered otherwise; from then on it may commit or fail, and is not asked again |
| TenantTransactions.DryRunMirrorsRealRun | src/prisma/db.service.ts:129-135 | at its check a dry run comes to what the same call without its mark comes to, but that it is rolled back with the result exactly when it wrote |
| TenantTransactions.OnlyCommitsChange | src/prisma/db.service.ts:121-147 | a step changes the data or keys of a tenant in a database if and only if it is the commit of a transaction there that has something to change |
| TenantTransactions.StepKeepsConsistent | src/prisma/db.service.ts:104-147 | every step keeps locked rows apart, the history equal to the transactions that returned, and writes that are to be committed served and no dry run |
| TenantTransactions.RunKeepsAccount | src/prisma/db.service.ts:114-147 | over any run data and keys are accounted for by the commits |
| TenantTransactions.OnlyServedWritesCount | src/prisma/db.service.ts:114-147 | in every reachable state, however statements interleave, each site holds what the writes of its writing transactions make of it in the order of their commits; those are the ones that returned, each began while the gate served the tenant, and none is a dry run |
| TenantTransactions.KeyAppliedIffWritesCommitted | src/prisma/db.service.ts:137-144 | in every reachable state a key is applied if and only if it was at the start or some transaction under it committed writes |
| TenantTransactions.LockedRowsStay | src/prisma/db.service.ts:121-147 | no update is lost on a locked row: over any run it stays as it was committed until the transaction that holds it ends |
| TenantTransactions.DrainedSiteIsFrozen | src/prisma/db.service.ts:121-136 | once the gate of a site is closed and the transactions it served are over, its data and keys stay as they are while the gate stays closed, whatever the routers think |
| TenantTransactions.MarkedTenantIsFrozen | src/prisma/db.service.ts:129-147 | the data and keys of a marked tenant stay as they are for as long as it is marked if and only if no transaction that was past its check has anything left to change |
| TenantTransactions.LateCommit | src/prisma/db.service.ts:129-147 | a run from a fresh service in which a write that was checked before the mark is committed behind it |
| TenantTransactions.AloneIsARun | src/prisma/db.service.ts:104-147 | a call with nothing in between is one of the runs the theorems speak of |
| TenantTransactions.AloneActsAtHome | src/prisma/db.service.ts:104-147 | such a call runs its callback on its tenant's data in the database that serves it, and commits its writes there if it returns; every other data stays |
| TenantTransactions.ControlDryRun | src/prisma/db.service.ts:159-168 | a dry run changes nothing and gives the result of the real call, rolled back exactly when the call wrote |
| TenantTransactions.ControlDecides | src/prisma/db.service.ts:153-170 | which reply a control transaction gives, and that it changes the rows its callback wrote if and only if it returns |
| FanOut.RouteOf | src/prisma/tenant-db-router.ts:153-156 | the registered route of a tenant, and none only if there is none |
| FanOut.DedicatedExactly | src/prisma/tenant-db-router.ts:153-156 | the dedicated route of a tenant is the registered one in dedicated mode that is active or rolling back, whatever letters the id is written in |
| FanOut.ReadOnlyExactly | src/prisma/tenant-db-router.ts:158-162 | writes are refused if and only if the registry has the tenant in a cutover or a rollback |
| FanOut.SystemAll | src/prisma/db.service.ts:251-258 | the query runs on the shared database and then on each active dedicated one, with the target that names it |
| FanOut.SharedTargetSays | src/prisma/db.service.ts:203-207 | the shared target belongs to no tenant and lets through just the tenants that no dedicated database serves |
| FanOut.ActiveRoutes | src/prisma/tenant-db-router.ts:165-167 | the active routes are exactly those in dedicated mode that are active or rolling back, one per tenant |
| FanOut.FindOfTenant | src/prisma/db.service.ts:204-207 | a target's filter lets through all rows of a tenant or none |
| FanOut.DedicatedShare | src/prisma/db.service.ts:254-256 | over the dedicated databases a tenant's rows come from its own route, once, or not at all |
| FanOut.FanOutIsOneTable | src/prisma/db.service.ts:203-258 | the filtered fan-out gives each tenant's rows exactly once, from the dedicated database its active or rolling-back route names, else from the shared one, whatever stale rows that holds |
| FanOut.PropertiesOf | src/prisma/db.service.ts:268-276 | equals looking each tenant up in the database that serves it; an id asked for in capitals is answered with nothing |
| ClientCache.EvictIsLru | src/prisma/tenant-db-router.ts:238-247 | eviction goes down to the bound or until no idle client is left, and no further; it never removes a client in use, and always the least recently used |
| ClientCache.OpenedClientSurvives | src/prisma/tenant-db-router.ts:198-205 | a client just opened stays exactly when enough others are idle |
| ClientCache.StepKeepsInvariant | src/prisma/tenant-db-router.ts:185-247 | every step keeps one client per key and the count of running bodies; it takes a client in use out of the map if and only if an older client of its key fails to connect |
| ClientCache.FailureKeepsInvariant | src/prisma/tenant-db-router.ts:200-204 | after a failed connection the map holds exactly the clients of the other keys |
| ClientCache.RunKeepsInvariant | src/prisma/tenant-db-router.ts:185-247 | in every run each client's count equals the bodies running on it |
| ClientCache.InUseIsNeverEvicted | src/prisma/tenant-db-router.ts:185-247 | over any run a client that stays in use is in the map at the end if and only if no older client of its key failed meanwhile |
| ClientCache.StaleFailureDropsClientInUse | src/prisma/tenant-db-router.ts:200-205 | a run in which that happens |
| ClientCache.TenantDbRouter.EvictIdle | src/prisma/tenant-db-router.ts:238-247 | the sorting loop computes `Evict` |
| ClientCache.TenantDbRouter.ClientsFor | src/prisma/tenant-db-router.ts:185-206 | up to the wait: finds the client of the key and changes nothing, or opens one that is not connected yet and evicts |
| ClientCache.TenantDbRouter.Connected | src/prisma/tenant-db-router.ts:195-204 | the end of the wait: a client that cannot be reached takes its key out of the map |
| ClientCache.TenantDbRouter.HandOut | src/prisma/tenant-db-router.ts:207-209 | behind the wait the client counts as used now, and no other changes |
| ClientCache.TenantDbRouter.BeginUse | src/prisma/tenant-db-router.ts:215-215 | one more body runs on the client, and no eviction takes it from now on |
| ClientCache.TenantDbRouter.EndUse | src/prisma/tenant-db-router.ts:218-221 | one body fewer, used now; idle again exactly when no other runs |
| AddressFilter.ParsesEveryForm | src/common/net/safe-fetch.ts:100-118 | the reader recovers the eight groups from every written form of an address: full, shortened, with dotted tail, any letter case, with zone |
| AddressFilter.PrefixIsQuotient | src/common/net/safe-fetch.ts:65-98 | matching a prefix digit by digit is comparing the leading bits of the whole number |
| AddressFilter.CheckIsNumeric | src/common/net/safe-fetch.ts:65-98 | a list of subnets matches exactly when one of them agrees on the leading bits |
| AddressFilter.V4Classified | src/common/net/safe-fetch.ts:123-125 | an IPv4 address is blocked exactly when a rule agrees on the leading bits of its 32-bit number |
| AddressFilter.V4Ranges | src/common/net/safe-fetch.ts:65-84 | the IPv4 rules are these ranges of octets |
| AddressFilter.V6Ranges | src/common/net/safe-fetch.ts:86-98 | the IPv6 rules are these ranges of groups |
| AddressFilter.EveryFormClassified | src/common/net/safe-fetch.ts:123-135 | whatever its written form, an IPv6 address is blocked exactly when the prefix test on its 128-bit number, with the embedded IPv4 address where there is one, says so |
| AddressFilter.BlockedIffReserved | src/common/net/safe-fetch.ts:65-135 | an IPv4 address is blocked if and only if its octets lie in a reserved range, an IPv6 address, however written, if and only if its groups do or those of the IPv4 address it maps, translates or tunnels to; anything else is blocked |
| AddressFilter.FormsAgree | src/common/net/safe-fetch.ts:101-135 | two ways of writing one address are never told apart |
| AddressFilter.EmbeddingsAgree | src/common/net/safe-fetch.ts:129-132 | an IPv4 address is blocked exactly when its IPv4-mapped, NAT64 and 6to4 addresses are |
| Calendar.DateOfDay | src/common/time/lagos.ts:12-14 | the calendar date of a day number is a real Gregorian date with that number |
| Calendar.DayOfDate | src/common/time/lagos.ts:12-14 | and the other way round |
| Calendar.OrderOfDays | src/common/time/lagos.ts:52-56 | earlier dates have smaller numbers |
| Calendar.ShowsAndParses | src/common/time/lagos.ts:21-25 | a real four-digit date is shown and read back as itself |
| Calendar.TextOrderIsDayOrder | src/common/time/lagos.ts:52-56 | on four-digit dates comparing texts is comparing days |
| LagosTime.IsoDatesAreRealDates | src/common/time/lagos.ts:21-25 | `isIsoDate` accepts exactly the real Gregorian dates of four-digit years |
| LagosTime.AddDaysLaws | src/common/time/lagos.ts:39-49 | `diffDays` undoes `addDays`, and adding days composes |
| LagosTime.DiffDaysLeadsBack | src/common/time/lagos.ts:39-49 | adding the difference of two dates leads from one to the other |
| LagosTime.DateRange | src/common/time/lagos.ts:51-56 | on any texts for which it ends, the loop visits the rounds before its guard fails or a date cannot be computed; between ISO dates just the range |
| LagosTime.RangeIsVisited | src/common/time/lagos.ts:51-56 | where the loop over two ISO dates ends, it has visited just the dates of the range |
| LagosTime.RangeIsEveryDay | src/common/time/lagos.ts:51-56 | a range has max(0, difference + 1) dates, the i-th being `from` plus i days, strictly increasing as texts |
| LagosTime.RangeToLastDateNeverEnds | src/common/time/lagos.ts:54-54 | up to 9999-12-31 the guard holds after any number of rounds |
| LagosTime.DateRangeEnds | src/common/time/lagos.ts:51-56 | the loop ends if and only if `to` is not 9999-12-31 |
| LagosTime.DateOfDateTime | src/common/time/lagos.ts:12-32 | the Lagos date of the instant of a date and time is that date |
| LagosTime.LagosIsUtcPlusOne | src/common/time/lagos.ts:12-14 | the date of an instant is that of its day in UTC+1 |
| LagosTime.DateTimeIsInstant | src/common/time/lagos.ts:28-32 | the instant of a date and time is so many days and minutes after 1970, less one hour |
| LagosTime.TimesAreMinutes | src/common/time/lagos.ts:28-32 | a time of day from 00:00 to 23:59 counts its minutes |
| LagosTime.OtherTextsAreMidnight | src/common/time/lagos.ts:30-30 | any other text counts as midnight |
| LagosTime.NightsBetweenExactly | src/common/time/lagos.ts:69-71 | the nights are the days between the two Lagos dates, and never less than one |
| LagosTime.OverlapsExactly | src/common/time/lagos.ts:93-100 | two spans overlap if and only if an instant lies in both, the start included and the end not |
| LagosTime.StayTouchesItsNights | src/common/time/lagos.ts:81-100 | when check-out is not after check-in, a stay overlaps the window of a night exactly when the night is from arrival on and before departure |
| LagosTime.NightRuleExactly | src/common/time/lagos.ts:81-100 | that rule holds for all stays and nights if and only if check-out is not after check-in |
| LagosTime.NightsAreCounted | src/common/time/lagos.ts:69-100 | the nights a stay touches are the dates from arrival to the day before departure, and `nightsBetween` is their number |
| Easter.OperandsAreNatural | prisma/seed-data/growth.ts:45-49 | no operand of the remainders is negative |
| Easter.CorrectionIsSmall | prisma/seed-data/growth.ts:50-52 | m is 0 or 1, and h + l - 7m lies from 0 to 34 |
| Easter.MoonIsFullMoon | prisma/seed-data/growth.ts:46-50 | h, with its two exceptions, is the ecclesiastical full moon the epact gives |
| Easter.WeekdayOfMarch22 | prisma/seed-data/growth.ts:47-49 | l counts the days from the full moon to Sunday |
| Easter.EasterIsASundayInRange | prisma/seed-data/growth.ts:38-54 | for every year the result is a real Sunday from 22 March to 25 April |
| Easter.EasterFollowsFullMoon | prisma/seed-data/growth.ts:37-54 | for every year it is the first Sunday after the ecclesiastical full moon |
| Easter.EasterTextIsIsoDate | prisma/seed-data/growth.ts:51-53 | for four-digit years the text is that date, and an ISO date |
| MoneyWords.BelowThousand | src/common/utils/money-words.ts:9-19 | the words of a group of three digits |
| MoneyWords.GroupPhrase | src/common/utils/money-words.ts:9-19 | the wording of a group of hundreds, tens and units |
| MoneyWords.IntegerWords | src/common/utils/money-words.ts:21-32 | the dividing loop joins the scaled groups, highest first, leaving out those that are zero |
| MoneyWords.AmountInWords | src/common/utils/money-words.ts:35-44 | the sentence of an amount, truncated to whole kobo, from which a reader recovers every amount below ten to the seventeenth kobo |
| MoneyWords.AmountPhrase | src/common/utils/money-words.ts:21-44 | the wording of an amount of thousands, naira and kobo, and of one that is owed |
| MoneyWords.TruncCuts | src/common/utils/money-words.ts:36-36 | the part of a kobo is cut off towards zero |
| MoneyWords.GroupsRead | src/common/utils/money-words.ts:21-32 | reading the groups of a number adds up to the number while scale words last |
| MoneyWords.AmountsReadBack | src/common/utils/money-words.ts:34-44 | the reader recovers sign, naira and whole kobo |
| MoneyWords.AmountsAlike | src/common/utils/money-words.ts:34-44 | two amounts share their words if and only if they have the same sign and the same whole kobo |
| MoneyWords.WordsTellAmountsApart | src/common/utils/money-words.ts:7-44 | no two whole amounts below a bound share their words if and only if the bound is at most ten to the seventeenth |
| MoneyWords.PastTheScales | src/common/utils/money-words.ts:7-29 | a thousand trillion times h naira reads like h naira |
| AuditCsv.Guard | src/modules/audit/audit.service.ts:79-81 | a cell that starts with =, +, -, @, a tab or a carriage return is put behind an apostrophe, every other is kept; so no guarded cell starts like a formula |
| AuditCsv.QuotedExactly | src/modules/audit/audit.service.ts:79-82 | a cell is quoted if and only if it holds a quotation mark, a comma or a line break |
| AuditCsv.GuardsAlike | src/modules/audit/audit.service.ts:79-81 | two cells are guarded alike exactly when they are equal or one is the other, a formula, behind an apostrophe |
| AuditCsv.CellReads | src/modules/audit/audit.service.ts:79-82 | an RFC 4180 reader takes an exported cell, quoted or not, back to the guarded text and stops behind it |
| AuditCsv.LineReads | src/modules/audit/audit.service.ts:217-224 | and a line back to its cells |
| AuditCsv.BodyReadsBack | src/modules/audit/audit.service.ts:216-225 | and a body back to its rows, whatever text the cells hold |
| AuditCsv.BodiesAlike | src/modules/audit/audit.service.ts:216-225 | two bodies are equal exactly when every cell is guarded alike |
| AuditCsv.WindowIsDates | src/modules/audit/audit.service.ts:170-175 | the instants between the two starts of day are those whose Lagos date lies in the range |
| AuditCsv.ColumnsHold | src/modules/audit/audit.service.ts:216-222 | which field of a row stands in which named column; the user id comes before the platform user id |
| AuditCsv.FirstRowsExactly | src/modules/audit/audit.service.ts:202-202 | the rows taken are the first hundred thousand, in order |
| AuditCsv.ExportBody | src/modules/audit/audit.service.ts:198-225 | a bad or long range is refused; otherwise a reader of the body sees the column names and then the guarded cells of the first hundred thousand rows of those dates |
| AuditCsv.AuditTrail.Export | src/modules/audit/audit.service.ts:198-225 | the same, and the export is recorded in the trail behind the rows it takes, with their number; a refused one leaves the trail as it was |
| AuditCsv.RecordSays | src/modules/audit/audit.service.ts:203-211 | actor, action, entity type and metadata of that entry |
| AuditCsv.ExportsAreExported | src/modules/audit/audit.service.ts:203-211 | a later export of the day shows the entry an earlier one left |
| CashNotes.Denominations | prisma/seed-data/operations.ts:1137-1145 | the counts are worth the kobo up to less than five naira, and for every natural amount no breakdown of that worth has fewer notes |
| CashNotes.Conserves | prisma/seed-data/operations.ts:1140-1143 | counts times notes plus the remainder is the amount |
| CashNotes.OneNoteMore | prisma/seed-data/operations.ts:1140-1140 | one more note of any kind raises the number of notes greedy needs by at most one |
| CashNotes.NoBreakdownIsShorter | prisma/seed-data/operations.ts:1140-1140 | no breakdown has fewer notes than greedy needs for its value |
| CashNotes.GreedyIsOptimal | prisma/seed-data/operations.ts:1136-1145 | greedy uses the fewest notes |

## Left out

- AddressFilter.IsBlockedAddress: strings that are neither form are blocked outright; what `parseInt` would make of them (signs, blanks, a `0x` prefix) is never reached and not modelled.
- CashNotes.Denominations: the text keys of the result are left out, the counts are listed in note order.
- LagosTime.DateRange: of the texts the engine's date reader takes, only the two ISO forms are modelled; any other counts as no date.
- QueryGuard.GuardedClient.GuardedQuery: a change of mode while queries are chained, and callback-style or stream queries, which go straight to the driver.
- ClientCache.TenantDbRouter.ClientsFor: `release`, which takes a database's clients out of the map whether they are in use or not.
- AuditCsv.AuditTrail.Export: the names that support sessions and API keys add to the recorded actor, the hooks, and the JSON branch.
- Utf8.Decode: a malformed sequence gives one replacement character a byte, where the platform may give fewer; the writer never makes one.
- The `AndReturn` and `OrThrow` variants, nested writes, aggregates other than counts, unique-constraint errors and row-level security in the property scope; models and operations outside its lists pass unchanged.
- Several instances of the service with routers of their own, statements over many rows at once, and unique constraints between transactions; a deadlock is one of the failures that may end a transaction.
- `locate`, `findAcross`, `publicForSlug` and the public contexts of the database service: loops over the same targets, with the same filters.
- The cryptography, sign-up, single sign-on, password and lock-out rules of the auth service, and its audit entries.
- The other audit queries.
- The rest of `lagos.ts` (human texts, billable hours, clock times), of the seed data, and of `safe-fetch.ts` (DNS, redirects, size and time limits).
- HTTP, Redis, Prisma and PostgreSQL themselves, the SQL body of the gate, and all controllers, modules and configuration.
- The pricing, tax, loyalty, ledger and provisioning rules, the permission catalogue, and small string helpers.
