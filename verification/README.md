# Verification of a file-sharing server and its browser client

A Dafny model of three parts of the program, with proofs about them.

**Uploads, server and browser.** Tables with their key, unique and cascade constraints, the local
storage directories, and the handlers that start, fill, complete, abort and delete uploads and
files (`Tables`, `Storage`, `Handlers`, `Chunks`). `Lifecycle` proves what every handler keeps and what
holds after every run, and `Inits` what is left of it when other requests come between the steps of an
init; `Cleanup` and `Reconcile` treat the periodic clean-up, alone and interleaved
with completions; `Quota` the download counter under concurrent edits, and `Publication` what a request
asks for against what is published and served. The browser side is the
connection pool with the life of a chunk upload in it (`NetSlots`) and the scheduler (`Pump`);
`Pools` puts several schedulers over one pool, and `Transfers` joins a scheduler with the server.

**The QR encoder.** Field arithmetic (`Gf256`, `FieldProduct`, `Polynomials`), check words (`ReedSolomon`), bit layout
(`Bits`, `Codewords`), block interleaving (`Interleaving`), format and version words (`Bch`), the
zig-zag (`ZigZag`), the function patterns (`Matrix`, `Patterns`), the penalty that chooses the mask
(`Penalty`), the round trip from bytes to a finished symbol and back (`Symbol`), and the symbol as the
standard describes it to a reader (`Receiver`).

**Two limiters.** The fixed-window rate limiter (`RateLimit`) and the login lockout (`Login`).

Code that changes state is a class or a method over arrays, proved equal to a specification function
of the state before; the theorems are about those functions. Handlers are atomic steps. What they
take from outside (random ids and slugs, clocks, password checks, the answers of the object store)
is a parameter, and so are the failures of the calls that change something (creating, stretching,
writing, renaming and removing files, writing rows), of the one lookup whose failure is passed over, and
the object store being switched off while rows still name it. The specification functions say what each
leaves behind. The content theorems hold for all of these failures but those that break the link between
rows and files: zeros left by a failing init that do not fit the upload under its slug, a failed
rollback, a failed row deletion after the object's, and a file's slug that was not looked up. `Lifecycle`
names them in `Honest` and proves for each that it is exactly what breaks the invariant. File contents
are sequences of bytes, times are integers, and 64-bit wrap-around is written out where sizes are added.

Where the code does not do what its comments, its tests or the standard it names ask, the model
follows the code, and a lemma says exactly when it does:

- the check words divide by the standard's generator only for n % 255 <= 1
  (`ReedSolomon.StandardExactlyWhen`);
- the format word is right only for masks 0 and 2 (`Bch.FormatWordCorrectWhen`);
- the alignment patterns centred on row or column 6 are missing from version 7 on
  (`Patterns.AlignmentsStandExactlyWhen`);
- the third rule of the penalty never fires (`Penalty.ThirdRuleNeverFires`, `Patterns.EverySymbolHasPattern`);
- an init that cannot stretch the upload file it has emptied, or is refused and cannot remove the one it
  has stretched, leaves zeros under its slug; under the slug of an upload in progress this ends in a
  published object that is not the source (`Lifecycle.ZerosKeepExactlyWhen`,
  `Lifecycle.HalfDoneInitPublishesZeros`, `Lifecycle.RefusedInitPublishesZeros`), and between the rename
  and the metadata write of a completion it lets a repeated completion overwrite the object
  (`Reconcile.StepKeepsPublished`, `Reconcile.ReopenedIsOverwritten`);
- a file's slug that is generated again, or requested while its lookup fails, lets a completion overwrite
  that file (`Lifecycle.InitKeepsSlugsApartExactlyWhen`, `Lifecycle.StaleSlugOverwrites`);
- even without a failing call two inits under one slug do harm when other requests come between their
  steps (`Inits.TouchKeepsExactlyWhen`, `Inits.InsertKeepsExactlyWhen`, `Inits.SlugRaceOverwrites`,
  `Inits.TouchRacePublishesZeros`);
- aborting an upload between its rename and its metadata write takes the row that protects the object from
  the clean-up (`Reconcile.StepDoomsExactlyWhen`, `Reconcile.AbortedIsLost`);
- with the object store switched off, one dead file or stale upload in it stops the clean-up for good
  (`Cleanup.ComesThroughExactlyWhen`, `Cleanup.StoppedStaysStopped`);
- an edit can undo a setting it does not mention
  (`Quota.EditLeavesOmittedExactlyWhen`, `Quota.CrossingEditUndoesQuota`);
- the number of chunks of an enormous file is negative where the 64-bit sum overflows
  (`Chunks.AutoChunkCount`, `Chunks.ChunkCountIsGeometry`).

The fixed window lets through almost twice its limit in one window length, and
`RateLimit.BoundIsAttained` shows the bound is reached.

`dafny verify dfyconfig.toml` checks the project.

## Model

| member | source | states |
|---|---|---|
| `Gf256.Tables.FillPowers` | web/static/qr.js:16-21 | the first table loop leaves EXP[i] = x^i and LOG[x^i] = i for the 255 powers of x modulo x^8+x^4+x^3+x^2+1 |
| `Gf256.Tables.constructor` | web/static/qr.js:14-22 | the finished tables are valid: 512 entries of EXP repeat with period 255 and LOG inverts EXP on every non-zero byte |
| `Gf256.AlphaOnto` | web/static/qr.js:16-21 | every non-zero byte is one of the 255 powers, so no entry of LOG a product needs stays unset |
| `Gf256.Tables.Multiply` | web/static/qr.js:24 | log/antilog multiplication is the carry-less product modulo 0x11d, for all pairs of bytes |
| `FieldProduct.TimesIsProduct` | web/static/qr.js:20-24 | and it is schoolbook multiplication: multiply without carries in whole numbers, divide by 0x11d |
| `FieldProduct.AlphaIsPower` | web/static/qr.js:16-21 | the i-th power, which is entry i of the table, is the remainder of 2^i without carries by 0x11d |
| `Gf256.TimesAssociates` | web/static/qr.js:24 | that product is associative |
| `Gf256.TimesCommutes` | web/static/qr.js:24 | and commutative |
| `Gf256.TimesNonZero` | web/static/qr.js:24 | and has no zero divisors |
| `ReedSolomon.Generator` | web/static/qr.js:58-64 | the generator list is, low to high, the coefficients of the product of (x + x^i), i < n |
| `ReedSolomon.FactorProductRoots` | web/static/qr.js:58-64 | that product vanishes at exactly those n powers of x |
| `ReedSolomon.Turn` | web/static/qr.js:66-71 | one turn of the register in place: feed, shift, subtract the multiple of the divisor |
| `ReedSolomon.Remainder` | web/static/qr.js:58-73 | the whole loop computes the residue of the words for the divisor 1, generator[1], ..., generator[n] |
| `ReedSolomon.RemainderIsDivision` | web/static/qr.js:65-72 | a register is the result if and only if words followed by it are a multiple of the divisor: the loop is polynomial division, for every word list and length |
| `ReedSolomon.ResidueLinear` | web/static/qr.js:65-72 | the check words of a sum are the sum of the check words |
| `ReedSolomon.DivisorDiffers` | web/static/qr.js:62-70 | for 2 <= n <= 254 the divisor is not the product of the factors, because the list is low to high |
| `ReedSolomon.DivisorAgreesExactlyWhen` | web/static/qr.js:62-70 | the divisor is the generator polynomial if and only if n % 255 <= 1, since 255 further factors multiply by x^255 + 1 |
| `ReedSolomon.StandardExactlyWhen` | web/static/qr.js:62-70 | every list of a given positive number of words, followed by its check words, is a multiple of the generator polynomial, as ISO/IEC 18004:2015 section 7.5 asks, if and only if n % 255 <= 1, for every n and every number of words |
| `Codewords.PushPayload` | web/static/qr.js:38-45 | mode, length field and bytes as bits, most significant bit first |
| `Codewords.Terminate` | web/static/qr.js:46-47 | terminator and alignment loops together append exactly four zero bits although the loop bound shrinks |
| `Codewords.Assemble` | web/static/qr.js:48-53 | the words are the bits in groups of eight: their bit stream is the input |
| `Codewords.DataCodewords` | web/static/qr.js:35-56 | refused exactly when the bytes do not fit; otherwise exactly capacity words that lay out the bytes, padded with 0xec and 0x11 in turn |
| `Codewords.LengthFits` | web/static/qr.js:36-44 | whenever the bytes fit, the length field holds their number without truncation, versions 1 to 10 |
| `Codewords.DecodeInvertsLayout` | web/static/qr.js:35-56 | decoding any layout of a byte string gives the byte string back |
| `Interleaving.Weave` | web/static/qr.js:85-87 | the two nested loops emit the columns of rows of unequal length |
| `Interleaving.RowsOfColumns` | web/static/qr.js:85-87 | reading each row from its computed positions recovers every row, with more text behind |
| `Interleaving.ColumnsPermute` | web/static/qr.js:85-87 | the output has the elements of all rows, none lost, none twice |
| `Interleaving.Interleave` | web/static/qr.js:75-89 | the loops over any block table produce the interleaved data and check words of the cut input |
| `Interleaving.InterleaveInverse` | web/static/qr.js:75-89 | for any sane block table, de-interleaving recovers every block, its check words, and the input |
| `Bch.Bch` | web/static/qr.js:25-32 | the loop terminates, the value strictly decreasing, with the remainder over GF(2) |
| `Bch.ReducedIsSmaller` | web/static/qr.js:28-30 | one reduction strictly decreases the value |
| `Bch.RemainderIsCongruent` | web/static/qr.js:25-32 | the result is below the polynomial in degree and differs from the data by a multiple of it |
| `Bch.VersionWordIsMultiple` | web/static/qr.js:112 | the version word is a multiple of 0x1f25 |
| `Bch.FormatWordIsMultiple` | web/static/qr.js:104 | without its mask 0x5412 the standard's format word is a multiple of 0x537 with level L and the mask on top |
| `Bch.FormatWordCorrectWhen` | web/static/qr.js:104 | the format word, whose mask binds only to its check bits, is the word of ISO/IEC 18004:2015 section 7.9 if and only if the mask is 0 or 2 |
| `ZigZag.PathIsComplete` | web/static/qr.js:122-133 | the zig-zag visits every cell outside column 6 exactly once, for every odd size |
| `ZigZag.PathIsStandard` | web/static/qr.js:122-133 | pairs of columns from the right, up and down in turn, the right cell first: each cell is at the place section 7.7.3 of ISO/IEC 18004:2015 gives it |
| `ZigZag.PlaceData` | web/static/qr.js:119-133 | the loop writes exactly the open cells, in path order, bit by bit, whatever function pattern is there |
| `ZigZag.MaskIsStandard` | web/static/qr.js:121 | the eight masks invert under the conditions of section 7.8.2 of that standard |
| `ZigZag.FreeCells` | web/static/qr.js:126 | the cells written are exactly the open ones on the path, each once |
| `ZigZag.ReadBackPlaced` | web/static/qr.js:126-129 | reading in the same order, unmasked by the conditions of the standard, gives the bits of the words, then zeros |
| `Matrix.PaintAlignments` | web/static/qr.js:100-103 | an alignment pattern is painted only around a centre that is still unset |
| `Matrix.SetFormat` | web/static/qr.js:104-109 | both copies of the format bits are written in the order of the source |
| `Matrix.SetVersion` | web/static/qr.js:111-118 | both copies of the version bits, from version 7 on |
| `Matrix.MakeMatrix` | web/static/qr.js:91-135 | the symbol is the function pattern with the data bits placed on its open cells |
| `Patterns.CentreStandsExactlyWhen` | web/static/qr.js:99-103 | a centre of the table that no finder covers carries its whole 5x5 pattern, for every mask, if and only if it is not on row or column 6 |
| `Patterns.AlignmentsStandExactlyWhen` | web/static/qr.js:98-103 | all alignment patterns stand if and only if the version is below 7 |
| `Patterns.VersionSevenLacksOne` | web/static/qr.js:99-103 | in version 7 the pattern centred on (6, 22) is missing |
| `Patterns.ReadersAgreeExactlyWhen` | web/static/qr.js:98-128 | a reader that has all alignment patterns in place takes the same cells for data if and only if the version is below 7 |
| `Patterns.PatternsStandInSymbol` | web/static/qr.js:91-134 | finders with separators, timing lines and painted alignment patterns keep their colours in every finished symbol, whatever the data |
| `Symbol.RoomForWords` | web/static/qr.js:8-13 | in versions 1 to 10 the open cells have room for all words of the block table |
| `Symbol.DataCellsAreOpen` | web/static/qr.js:122-128 | the data cells are exactly the cells the function pattern leaves open |
| `Symbol.DataCellsIgnoreMask` | web/static/qr.js:104-128 | they are the same cells in the same order for every mask, so unmasking and reading can be done apart |
| `Symbol.SymbolIsComplete` | web/static/qr.js:91-135 | no cell stays unset and no function module is overwritten |
| `Symbol.WordsStandInSymbol` | web/static/qr.js:104-118 | both copies of format and version word stand in the finished symbol whatever the data |
| `Symbol.SymbolReadsBack` | web/static/qr.js:35-135 | scanning any symbol, undoing the standard's mask, interleaving and layout, gives the bytes it was made from |
| `Receiver.DataModule` | web/static/qr.js:119-133 | a data module is dark exactly when its bit, words in order and most significant bit first, differs from the standard's condition for the mask |
| `Receiver.FindersStand` | web/static/qr.js:94-97 | the three finders are the picture of the standard, cell by cell |
| `Receiver.SeparatorsStand` | web/static/qr.js:94-97 | light separators on their inner sides |
| `Receiver.TimingStands` | web/static/qr.js:98 | timing lines dark on even places |
| `Receiver.AlignmentStands` | web/static/qr.js:99-102 | every painted alignment pattern is the picture of the standard |
| `Receiver.DarkModuleStands` | web/static/qr.js:110 | the module right of the lower finder's separator is dark |
| `Receiver.FormatReadsBack` | web/static/qr.js:104-109 | read at the fifteen places of each copy the format word is the encoder's |
| `Receiver.VersionReadsBack` | web/static/qr.js:111-118 | read at the eighteen places of each copy the version word is the encoder's |
| `Receiver.TablesAreListed` | web/static/qr.js:8-12 | the block table has the words, blocks, check words and byte capacities of the standard at level L |
| `Receiver.CentresAreSpaced` | web/static/qr.js:13 | alignment centres are 6, the seventh cell from the end, and from version 7 on the middle |
| `Penalty.Penalty` | web/static/qr.js:137-159 | the loops compute the sum of the scores of all runs, blocks, matching texts and the balance of the whole square |
| `Penalty.OneCellMore` | web/static/qr.js:141-147 | counting a fifth cell of a run 3 and each later one 1 gives every maximal run of at least five its length less two |
| `Penalty.BalanceCountsSteps` | web/static/qr.js:156-158 | the last rule scores ten for every full five per cent by which the share of dark cells differs from one half |
| `Penalty.ThirdRuleNeverFires` | web/static/qr.js:150-155 | no seven cells ever give the text the third rule compares with, because joining puts no commas in it |
| `Penalty.TotalIsIntendedExactlyWhen` | web/static/qr.js:150-158 | so the penalty is the one with that rule as meant if and only if the pattern is nowhere in the square |
| `Patterns.EverySymbolHasPattern` | web/static/qr.js:137-170 | and in every finished symbol it is at least 720 too low, since the finders have the pattern nine times across and nine times down |
| `Symbol.Render` | web/static/qr.js:161-174 | the smallest version that fits, and of the eight masks the first whose finished symbol has the least penalty; the symbol reads back as the bytes; refused exactly when no version fits |
| `Chunks.AutoChunkSizeIsLeast` | internal/server/handlers_upload.go:40-44 | up to 6080 MiB the least whole number of MiB, at least 5, needing at most 64 chunks; beyond that 95 MiB |
| `Chunks.AutoChunkSizeMonotone` | internal/server/handlers_upload.go:40-44 | a larger file never gets smaller chunks |
| `Chunks.AutoChunkSizeOverflow` | internal/server/handlers_upload.go:40-44 | among 64-bit sizes the sum overflows exactly above 2^63 - 64, and then 5 MiB comes out |
| `Chunks.AutoChunkCount` | internal/server/handlers_upload.go:116-126 | for every positive 64-bit size: at most 64 automatic chunks if and only if the size is at most 64 times 95 MiB or the sum overflows |
| `Chunks.ChunkCountIsGeometry` | internal/server/handlers_upload.go:126 | the stored count is the ceiling quotient unless the 64-bit sum overflows, and then it is negative |
| `Chunks.RangesAgree` | internal/server/handlers_upload.go:264-267 | server length and browser slice agree on every chunk, the last one not empty, the ranges adjacent |
| `Chunks.OneChunkPerByte` | web/static/app-upload.js:177-187 | every byte lies in exactly one chunk |
| `Chunks.LoadedIsPrefix` | web/static/app-upload.js:138-141 | the chunk lengths add up to the file size |
| `Storage.Local.Init` | internal/storage/local.go:29-36 | creates or empties the upload file, then stretches it with zeros; when that fails the file stays behind empty |
| `Storage.Local.PutChunk` | internal/storage/local.go:38-52 | whatever arrived is written at the offset even when the call fails |
| `Storage.Local.Complete` | internal/storage/local.go:54-56 | renames over whatever is there |
| `Storage.Local.ListKeys` | internal/storage/local.go:87-101 | exactly the finished keys |
| `Tables.Store.CreateUpload` | internal/store/store.go:420-428 | refused exactly when the id or the slug is taken among uploads |
| `Tables.Store.ListParts` | internal/store/store.go:476-482 | all parts of the upload, ascending by index |
| `Tables.Store.FinalizeUpload` | internal/store/store.go:203-225 | row, upload and parts change together or not at all; refused exactly when a file has the slug |
| `Tables.Store.DeleteExpiredPastes` | internal/store/paste.go:70-77 | exactly the pastes past their expiry go |
| `Tables.Store.TryIncrementDownloads` | internal/store/store.go:290-299 | counts exactly when the row exists and has a slot left |
| `Tables.Store.UpdateFile` | internal/store/store.go:275-279 | writes three columns and never the counter |
| `Tables.Store.KnownObjectSlugs` | internal/store/store.go:303-318 | exactly the slugs of files and uploads |
| `Tables.Store.ListExpiredFiles` | internal/store/store.go:258-264 | exactly the expired rows |
| `Tables.Store.ListExhaustedFiles` | internal/store/store.go:266-273 | exactly the rows with a used-up quota |
| `Tables.Store.ListStaleUploads` | internal/store/store.go:446-453 | exactly the uploads created before the cutoff |
| `Handlers.Server.HandleUploadInit` | internal/server/handlers_upload.go:48-154 | every refusal in its order, a failing slug lookup refusing nothing; a refused row removes the upload file again unless that fails, a file that cannot be stretched is left behind empty |
| `Handlers.Server.HandleUploadChunk` | internal/server/handlers_upload.go:255-284 | bounds, exact length, a panic when the object store has been switched off, write, then the part row; a failed write may leave any prefix |
| `Handlers.Server.HandleChunkETag` | internal/server/handlers_upload.go:224-253 | a trimmed, non-empty etag for an in-range index of an object-store upload, refused when the store has been switched off |
| `Handlers.TrimmedOfQuotes` | internal/server/handlers_upload.go:241 | exactly the quotes at both ends of an etag go |
| `Handlers.Server.CollectEtags` | internal/server/handlers_upload.go:301-308 | succeeds exactly when the indexes are 0, 1, 2, ... and then keeps each etag in place |
| `Handlers.Server.HandleUploadComplete` | internal/server/handlers_upload.go:286-348 | accepts exactly full uploads, hands chunk i its latest etag at position i, and finalizes, rolls back or reports the conflict; panics before any change without a backend |
| `Handlers.Server.HandleUploadAbort` | internal/server/handlers_upload.go:350-363 | upload file, row and parts go; the row goes even when the file cannot be removed, and stays when its own deletion fails or there is no backend |
| `Handlers.NothingWithoutStore` | internal/server/handlers_upload.go:224-358 | once the object store is off no request about an upload in it changes anything, each with its own answer |
| `Handlers.NoDeletionWithoutStore` | internal/server/handlers_files.go:127-133 | nor does a deletion of a file in it |
| `Handlers.PartListComplete` | internal/server/handlers_upload.go:296-308 | the two tests accept exactly when every index has a part |
| `Handlers.FullPartList` | internal/server/handlers_upload.go:291-308 | as many in-range parts as chunks forces part i to position i |
| `Handlers.Server.DeleteFile` | internal/server/handlers_files.go:127-133 | object first, row second; a failing or missing object store keeps the row |
| `Handlers.Server.HandleFileBatchDelete` | internal/server/handlers_files.go:135-179 | the state is that of deleting the ids one by one, up to the first whose backend is missing; the answer lists exactly the ids deleted, each once, and exactly those whose lookup or deletion failed |
| `Publication.BadExactlyWhenInvalid` | internal/server/handlers_upload.go:62-98 | bad are exactly the requests outside the limits: a name of 1 to 512, a positive size, at most ten years and 10^9 downloads, a known store, a slug of 3 to 64 letters, digits, hyphens and underscores |
| `Publication.FullExactlyWhen` | internal/server/handlers_upload.go:100-109 | too large are exactly the valid local uploads under a free slug that would leave less than a gibibyte of a known free space, where the 64-bit sum does not overflow |
| `Publication.RowIsRequested` | internal/server/handlers_upload.go:111-137 | the upload row of an accepted init holds, field by field, what was asked for |
| `Publication.ChunkAcceptedExactlyWhen` | internal/server/handlers_upload.go:255-284 | a chunk is accepted exactly when its index is one of the upload, exactly its bytes are announced and arrive, the upload file is there and nothing fails |
| `Publication.ETagAcceptedExactlyWhen` | internal/server/handlers_upload.go:224-253 | an etag exactly for a chunk of an upload in a store that is on, when something besides quotes is left |
| `Publication.AbortTakes` | internal/server/handlers_upload.go:350-363 | an abort takes the row with its parts and the upload file, each unless that fails, and nothing else |
| `Publication.CompletedExactlyWhen` | internal/server/handlers_upload.go:286-340 | a completion is accepted exactly when every part is recorded, the upload file is there, no file has the slug and nothing fails |
| `Publication.PublishedAsRequested` | internal/server/handlers_upload.go:314-347 | from an accepted init over any other requests to its completion: the one new row has the name, size, slug, store, password hash and quota asked for, counter 0, and expires the time asked for after the completion |
| `Publication.LimitsHold` | internal/server/handlers_download.go:22-187 | such a file is served only with its password, only until it expires, and from the start at most as often as asked for |
| `Lifecycle.ChunkKeepsReceived` | internal/storage/local.go:44-51 | writing any prefix of a chunk spoils nothing received; writing all of it completes the chunk |
| `Lifecycle.ChunkStaysInside` | internal/server/handlers_upload.go:264-274 | whatever a chunk request sends, only the bytes of its own chunk change |
| `Lifecycle.AllReceived` | internal/server/handlers_upload.go:291-308 | with every part recorded the upload file is the source |
| `Lifecycle.StepKeeps` | internal/server/handlers_upload.go:48-363 | every honest step keeps rows, slugs, upload files and finished objects consistent |
| `Lifecycle.ZerosKeepExactlyWhen` | internal/server/handlers_upload.go:131-140 | a file of n zeros left under a slug keeps them good if and only if for its local upload, if any, n is at most the size and every recorded byte lies below n and is zero; always without such an upload, and exactly for n up to the size while nothing is recorded |
| `Lifecycle.EmptyingKeepsExactlyWhen` | internal/storage/local.go:29-36 | an upload file left empty keeps the upload files good if and only if no local upload under its slug has a recorded chunk |
| `Lifecycle.HalfDoneInitPublishesZeros` | internal/server/handlers_upload.go:100-137 | an init of 2^63 - 1 bytes with no byte free empties the file under the slug of any local upload; the missing chunks and the completion then succeed and zeros are published in place of the recorded chunks |
| `Lifecycle.RefusedInitPublishesZeros` | internal/server/handlers_upload.go:131-145 | so they do after a refused init of any size whose file cannot be removed, and at least that many bytes are published |
| `Lifecycle.PublishedIsSourceExactlyWhen` | internal/server/handlers_upload.go:286-313 | what is published then is the source if and only if it is as long and every chunk not sent again is all zeros |
| `Lifecycle.InitKeepsExactlyWhen` | internal/server/handlers_upload.go:86-154 | an init keeps the invariant if and only if it is not accepted under the slug of a file and leaves no zeros that do not fit |
| `Lifecycle.CompleteKeepsExactlyWhen` | internal/server/handlers_upload.go:310-346 | a completion breaks it exactly when its rollback fails |
| `Lifecycle.DeleteKeepsExactlyWhen` | internal/server/handlers_files.go:127-133 | a deletion breaks it exactly when the object goes and the row cannot |
| `Lifecycle.ContentIsSource` | internal/server/handlers_upload.go:255-347 | after any honest run, that is one without those failures, every local object is byte for byte its source, objects and local rows correspond one to one, lengths agree |
| `Lifecycle.CompletionIsSafe` | internal/server/handlers_upload.go:310-346 | a completion never conflicts, never writes over an owned object, and publishes exactly the source |
| `Lifecycle.MissingChunkIsDead` | internal/server/handlers_upload.go:302-306 | the per-index test never fires in a reachable state |
| `Lifecycle.BytesNeverChange` | internal/server/handlers_upload.go:286-348 | a file present before and after a run has the same bytes |
| `Lifecycle.UploadCanFinish` | web/static/app-upload.js:167-287 | from any good state an interrupted upload is finished by sending, in any order, any list of chunks that includes the missing ones, and completing: the published object is the source |
| `Transfers.ResolvedMeansComplete` | web/static/app-upload.js:216-291 | browser and server together: when the scheduler resolves, in any run among other requests, every part is recorded, and completing succeeds exactly if the upload file is still there and then publishes the source |
| `Lifecycle.FirstUploadIsPublished` | internal/server/handlers_upload.go:48-348 | on the empty server such a run exists from init to publication |
| `Lifecycle.InitKeepsSlugsApartExactlyWhen` | internal/server/handlers_upload.go:86-98 | a successful init keeps slugs unique across uploads and files if and only if the chosen slug is no file's; a requested slug never is when its lookup answers |
| `Lifecycle.StaleSlugOverwrites` | internal/server/handlers_upload.go:310-340 | with a slug that is a file's, generated or let through by a failing lookup, init, one chunk and complete replace that file's bytes before the conflict is reported |
| `Inits.StepsAreInit` | internal/server/handlers_upload.go:48-154 | tests, upload file and row with nothing in between are the handler |
| `Inits.TouchKeepsExactlyWhen` | internal/server/handlers_upload.go:131-135 | with other requests in between, the file step keeps the invariant if and only if its zeros fit the local upload under the slug |
| `Inits.InsertKeepsExactlyWhen` | internal/server/handlers_upload.go:137-140 | and the row step if and only if it is refused, or no file has the slug and the upload file is not too long |
| `Inits.UnusedSlugIsHonest` | internal/server/handlers_upload.go:48-140 | an init under a slug that neither a file nor an upload has meets both conditions |
| `Inits.ContentIsSource` | internal/server/handlers_upload.go:48-347 | in every interleaving of init steps with whole requests that meets these two conditions every local object is its source |
| `Inits.SlugRaceOverwrites` | internal/server/handlers_upload.go:91-140 | an upload that completes between the slug test and the upload file of a second init under its slug has its published object overwritten by that one |
| `Inits.TouchRacePublishesZeros` | internal/server/handlers_upload.go:131-137 | an upload that goes on between the file and the row of a second init under its slug publishes zeros, although no call fails |
| `Cleanup.Cleanup` | internal/server/cleanup.go:18-68 | the five passes in order with every failing call skipped over, no error reported exactly when no call failed; stops in a pass exactly when that meets a row without a backend |
| `Cleanup.ReconcileLocalOrphans` | internal/server/cleanup.go:84-112 | lists first, reads known slugs second, deletes exactly the unknown objects |
| `Cleanup.CleanupIsSafe` | internal/server/cleanup.go:18-112 | whatever fails, live files keep row and object, young uploads keep row, parts and upload file, live pastes stay, nothing appears or is rewritten |
| `Cleanup.ErrorFreeIsExact` | internal/server/cleanup.go:18-112 | a clean-up that comes through without errors, from any state of tables and disk: exactly the expired and exhausted files, the uploads older than 72 hours and the expired pastes are gone, and every object has a row |
| `Cleanup.ObjectsLeftExactly` | internal/server/cleanup.go:84-112 | exactly which objects remain, so an object renamed just before a crash stays while its upload row does and goes with it |
| `Cleanup.CleanupIsIdempotent` | internal/server/cleanup.go:18-112 | cleaning again with the same clock changes nothing |
| `Cleanup.CleanupKeepsInv` | internal/server/cleanup.go:18-112 | a clean-up without errors keeps the states of the lifecycle good |
| `Cleanup.ComesThroughExactlyWhen` | internal/server/cleanup.go:18-77 | when the queries answer, a clean-up comes through if and only if every dead file and every stale upload still has its backend |
| `Cleanup.StoppingIsSafe` | internal/server/cleanup.go:18-77 | one that stops takes nothing from live files, young uploads and pastes |
| `Cleanup.StoppedStaysStopped` | internal/server/cleanup.go:18-77 | and every later one stops too as long as the backend is missing |
| `Reconcile.StepProtects` | internal/server/cleanup.go:84-112 | every interleaved step that does not abort or delete under the slug keeps it safe from the deletion pass, and keeps its object exactly unless the step rolls a failed metadata write back |
| `Reconcile.PublishedUploadIsNeverLost` | internal/server/cleanup.go:84-112 | an upload with a row before the known slugs are read keeps its bytes from its rename on, under any interleaving of steps that neither abort, delete or roll it back nor leave zeros under its slug |
| `Reconcile.StepKeepsPublished` | internal/server/handlers_upload.go:310-346 | of the steps that neither abort nor delete it, exactly a rollback and a failing init that leaves zeros under its slug disturb a published object |
| `Reconcile.ReopenedIsOverwritten` | internal/server/handlers_upload.go:100-137 | every such init between rename and finalize lets a repeated completion rename its zeros over the object |
| `Reconcile.BothKindsReopen` | internal/server/handlers_upload.go:131-140 | both kinds of such an init exist for every upload with a slug that can be requested |
| `Reconcile.StepDoomsExactlyWhen` | internal/server/cleanup.go:89-108 | of all steps, aborts among them, exactly reading the known slugs while the listed slug has no row puts its object on the list to be deleted |
| `Reconcile.ObjectSurvivesAborts` | internal/server/handlers_upload.go:350-363 | so in runs without that, a rollback or a deletion of its file, the object stays even when its upload is aborted between rename and metadata write |
| `Reconcile.AbortedIsLost` | internal/server/handlers_upload.go:310-363 | an abort there followed by one clean-up pass ends in a file row without an object |
| `Reconcile.LateRowIsLost` | internal/server/cleanup.go:96-108 | and only those: any listed key without a row at that moment can lose a later upload |
| `Reconcile.ReadingKnownFirstLoses` | internal/server/cleanup.go:89-99 | in the opposite order an upload started and finished in between would be deleted |
| `Reconcile.AloneIsDropOrphans` | internal/server/cleanup.go:84-112 | without interleaving the steps are the sequential reconciliation |
| `Reconcile.RenameThenFinalizeIsComplete` | internal/server/handlers_upload.go:310-346 | without interleaving rename and finalize are the completion handler |
| `Quota.LookupShared` | internal/server/handlers_download.go:22-42 | finds the row of the slug and refuses exactly after expiry or with the quota used up |
| `Quota.HandleDownloadBytes` | internal/server/handlers_download.go:165-188 | serves exactly the permitted live files with a slot left unless counting or opening fails, and counts exactly the permitted requests with no range or one from byte 0 on, also when the object then cannot be opened |
| `Quota.QuotaLimitsTransfers` | internal/server/handlers_download.go:165-188 | over every sequence of requests for a file with quota m > 0 at most m are served from the start |
| `Quota.FirstOnesAreServed` | internal/server/handlers_download.go:165-188 | and of clean ones exactly the first m |
| `Quota.HandleFileUpdate` | internal/server/handlers_files.go:48-93 | validates, hashes and writes expiry, password and quota; the counter stays; a failing call changes nothing |
| `Quota.OthersAreNotCounted` | internal/server/handlers_download.go:165-188 | all other requests leave the row as it is, and a permitted one that continues a transfer is served |
| `Quota.EditIsRequested` | internal/server/handlers_files.go:61-90 | an edit writes each setting mentioned, the expiry counted from now, and leaves everything else |
| `Quota.CountersAreExact` | internal/store/store.go:275-299 | in every interleaving of lookups, increments, edits and deletions the counter is the number of grants, every grant was below the quota in force, and the three quota tests agree |
| `Quota.FixedQuotaHolds` | internal/server/handlers_download.go:166-187 | a quota m > 0 that no edit changes gives at most m grants |
| `Quota.TestsAgreeExactlyWhen` | internal/store/store.go:266-299 | increment and exhausted query agree on a row if and only if its quota is not negative or its counter is below it |
| `Quota.EditLeavesOmittedExactlyWhen` | internal/server/handlers_files.go:48-93 | over any run between its read and its write, an edit leaves an omitted setting alone if and only if the last edit of the file that landed in between, if any, wrote the value that was read |
| `Quota.UndisturbedEditLeavesOmitted` | internal/server/handlers_files.go:48-93 | so it does when no other edit of the file lands in between |
| `Quota.CrossingEditUndoesQuota` | internal/server/handlers_files.go:61-90 | a password edit can undo a quota set meanwhile |
| `RateLimit.RateLimiter.Allow` | internal/server/ratelimit.go:32-55 | the method with its sweeping loop is the request function |
| `RateLimit.SweepIsInvisible` | internal/server/ratelimit.go:37-46 | it answers as a limiter that never removes an entry, for every history with a non-decreasing clock |
| `RateLimit.WindowBound` | internal/server/ratelimit.go:32-55 | any half-open interval of one window length holds at most 2 limit - 1 allowed requests of a key |
| `RateLimit.FewAreAllowed` | internal/server/ratelimit.go:32-55 | a key with fewer allowed requests than the limit within the last window length is let through |
| `RateLimit.BoundIsAttained` | internal/server/ratelimit.go:32-55 | and some history reaches that bound, for every limit and window of at least two ticks |
| `Login.Manager.Login` | internal/auth/auth.go:132-163 | attempts during a lock change nothing; a failure counts and locks; a success resets the count, drops exactly the sessions past their expiry and adds one |
| `Login.Manager.Valid` | internal/auth/auth.go:169-172 | a token is good exactly while its session is there and not expired |
| `Login.SessionLasts` | internal/auth/auth.go:157-163 | a session stays with its expiry through every run before it expires in which it is not logged out |
| `Login.TokenIsGoodForThirtyDays` | internal/auth/auth.go:157-172 | so a token is good for thirty days from its login, and nothing prolongs it |
| `Login.LogoutIsFinal` | internal/auth/auth.go:165-172 | after a logout it is never good again |
| `Login.Manager.UpdateCredentials` | internal/auth/auth.go:91-96 | new credentials do not lift a lock |
| `Login.LockTimeIsCappedDoubling` | internal/auth/auth.go:148-151 | the lock after k failures is min(2 s times 2^(k-5), 5 min) for every k, without 64-bit overflow |
| `Login.GuessesAreLogins` | internal/auth/auth.go:135-156 | the guesses of the two theorems below are the logins with wrong credentials: same lock, and locked out exactly when unchecked |
| `Login.GuessingIsSlow` | internal/auth/auth.go:135-156 | n >= 13 consecutive failed checks take at least 512 + 300 (n - 13) seconds, from any state |
| `Login.LockedGuessesChangeNothing` | internal/auth/auth.go:139-141 | attempts rejected by the lock leave no trace |
| `NetSlots.Slots.AcquireSlot` | web/static/app-upload.js:17-20 | takes a free slot or queues at the end |
| `NetSlots.Slots.ReleaseSlot` | web/static/app-upload.js:21-25 | hands the slot to the first waiter or gives it back |
| `NetSlots.StepKeeps` | web/static/app-upload.js:177-214 | every way through an attempt keeps: holders equal used, waiting means full, grants in order of request, grants equal releases plus holders |
| `NetSlots.SlotsComeBack` | web/static/app-upload.js:10-27 | over whole runs: never more holders than slots, first come first served, at most three slots a task and exactly three for one that fails, and all slots back when the tasks have ended |
| `NetSlots.NeverStuck` | web/static/app-upload.js:177-214 | while a task has not ended some task can go on |
| `NetSlots.StepWorks` | web/static/app-upload.js:180-212 | every step uses up work, so all tasks end |
| `Pump.ProgressStartsRight` | web/static/app-upload.js:139-141 | the progress starts with the bytes the server has; with those of the missing chunks it is the file |
| `Pump.Scheduler.RunPump` | web/static/app-upload.js:237-249 | the pump loop |
| `Pump.FirstTargetIsNearest` | web/static/app-upload.js:173-175 | three threads without a choice, otherwise the nearest number the pool has |
| `Pump.Scheduler.OnSettled` | web/static/app-upload.js:241-246 | an ended upload: failure noted, settle or pump on |
| `Pump.Scheduler.OnTick` | web/static/app-upload.js:262-280 | the hill-climbing timer |
| `Pump.TickDoes` | web/static/app-upload.js:262-280 | what a tick does in each case: a thread added and started, kept, or taken back, or nothing |
| `Pump.Scheduler.OnChunkError` | web/static/app-upload.js:257-261 | a chunk error halves the threads, ends a probe and sets a hold of 20 seconds |
| `Pump.ErrorsHalve` | web/static/app-upload.js:257-261 | any number of chunk errors halves the threads as often, down to one |
| `Pump.RoundedTestAgrees` | web/static/app-upload.js:268-273 | for every base rate below 2^46 bytes a tick the comparison with the rounded product by 0.95 answers as the exact one |
| `Pump.Scheduler.OnAbort` | web/static/app-upload.js:230-234 | cancelling |
| `Pump.AbortDoes` | web/static/app-upload.js:230-234 | cancelling starts nothing more, keeps the first failure, and settles at once if nothing is in flight |
| `Pump.StepKeeps` | web/static/app-upload.js:216-286 | every callback keeps the scheduler sound and every settled upload brings it nearer its end |
| `Pump.PumpIsCorrect` | web/static/app-upload.js:167-286 | over every run: threads within the pool, each missing chunk started at most once, never stalled, settled exactly once with nothing in flight, resolved only with every chunk done and the progress at the file size |
| `Pump.SuccessesResolve` | web/static/app-upload.js:241-246 | while nothing has failed, one success for every chunk left makes the promise resolve |
| `Pools.NeverStuck` | web/static/app-upload.js:10-27 | several schedulers over one pool: while one has not settled something can go on without tick or cancellation |
| `Pools.AllSettleAndSlotsComeBack` | web/static/app-upload.js:10-286 | for any number of schedulers that have just begun over one pool, in every run: only so many moves are made, one can be made until all have settled, each settles at most once, and when all have settled every slot is back |
| `Pump.FailedProbeIsTakenBack` | web/static/app-upload.js:262-280 | a thread that did not help by the next tick is taken back and none is tried for 30 seconds |
| `Pump.HoldIsRespected` | web/static/app-upload.js:257-280 | no thread is added while a hold lasts, whatever else happens; only a chunk error may replace a longer hold by its own 20 seconds |

## Left out

- ReedSolomon.Generator: takes at most 512 check words, the length of the table it indexes; the block tables ask for at most 30.
- ReedSolomon.Remainder: takes at most 512 check words, as it calls the generator loop.
- Bch.RemainderIsCongruent: says that some shifted copies of the polynomial add up to the difference, without saying which.
- Symbol.Render: drawing the chosen symbol on the canvas is not modelled.
- Handlers.Server.HandleUploadInit: one atomic step; Inits treats its tests, its upload file and its row as separate steps.
- Handlers.Server.HandleUploadChunk: a chunk write is one step that may stop after any prefix; two writes of the same chunk interleaved byte by byte, or a write still going on while its file is renamed, are not modelled.
- Lifecycle.StepKeeps: leaves out zeros that do not fit, a failed rollback, a failed row deletion after the object's and a file's slug that was not looked up, because each breaks the invariant, as the lemmas with ExactlyWhen in their names prove; the handlers model them, and the clean-up theorems start from the states they leave.
- Lifecycle.ContentIsSource: leaves out the same failures, and covers local storage only; objects in the object store are foreign, only the etags handed to it are modelled.
- Inits.ContentIsSource: interleaves the steps of inits with whole requests; the two steps of a completion are interleaved in Reconcile, not here.
- Reconcile.StepProtects: leaves out deleting the file of the slug, which is meant to take the object, and aborting its upload, which takes only the row; Reconcile.StepDoomsExactlyWhen says of every step, aborts included, when it puts the object at risk.
- Reconcile.PublishedUploadIsNeverLost: leaves out runs that abort, roll back or reopen the slug; Reconcile.StepKeepsPublished and Reconcile.AbortedIsLost prove that these disturb it.
- Pump.Scheduler.OnTick: compares rates with exact fractions instead of the floating-point factor 0.95; Pump.RoundedTestAgrees proves that the answers are the same below 2^46 bytes a tick.
- Pools.AllSettleAndSlotsComeBack: the schedulers are there from the start; one that joins later is not modelled.
- NetSlots.SlotsComeBack: the falling back from direct upload to relaying inside one attempt is part of the attempt's outcome.
- Login.Manager.Login: the comparison of user name and password is a parameter, and so is the token.
- Floating-point logarithms in the QR code are whole binary logarithms here; they agree on the numbers below 2^31 that occur.
- Reads that fail and end their handler before anything changes are not modelled; those whose failure is passed over are: the slug lookup, the free-space query, and the queries and lookups of clean-up and batch deletion.
- A database call that reports a failure is taken to have changed nothing, and a rename that reports one to have left both names alone.
- HTTP, JSON, cookies, templates, routing, settings, pastes, previews, client addresses, theme and toasts: plumbing without deep invariants.
- Object-store calls, presigning, hashing, signatures and random generation: foreign or abstract.
