# A verified model of the storage, agent and registry cores

The project models six parts of the application and proves what they promise:

- **Encrypted storage** (`app/core/storage.py`): the chunked, seekable envelope in both versions, the
  single-blob envelope and its oldest form, the range reader, the pull reader and the writer it feeds, the jobs
  that upgrade, move, verify and migrate objects, and the seekable view over a remote object.
- **HTTP bodies** (`app/core/responses.py`): whole and ranged responses over the three storage forms.
- **The cascade engine** (`app/core/agent/engine.py`): one turn of the agent as a run against an arbitrary model,
  backend, network and clock, with the download loop behind its fetch tool (`app/core/remote_fetch.py`).
- **The rate gate** (`app/core/ytdlp_pipeline.py`): the shared gate script, the cooldown and the waiting loop.
- **The residency cache** (`app/voice/residency.py`): least-recently-used eviction under a lock.
- **The module registry and packages** (`app/core/modules.py`, `app/core/packages_router.py`): the capability
  conflict pass with the lookups that rely on it, and the package container.

`dafny verify dfyconfig.toml` checks everything.

## Files

| file | content |
|---|---|
| `ByteStrings.dfy` | slices as Python takes them, big-endian numbers, pieces of a stream |
| `Aead.dfy` | the symbolic cipher |
| `Envelope.dfy` | magics, headers, associated data, what the writers store |
| `ChunkReader.dfy` | the range reader; total-or-error; authentic objects |
| `SealedObjects.dfy` | range reads of honest objects refine slicing |
| `Tamper.dfy` | what a reader yields of objects anybody may have written |
| `RangeReader.dfy` | the pull reader class and the v2 writer |
| `Storage.dfy` | save, verify, upgrade and re-encrypt over a store that may misbehave |
| `Migration.dfy`, `MigrationRuns.dfy` | one migration pass; passes one after another |
| `S3Stream.dfy` | the windowed remote stream refines a flat file |
| `Responses.dfy` | generators and the range endpoint |
| `References.dfy`, `RemoteFetch.dfy`, `CascadeEngine.dfy`, `EngineRuns.dfy` | reference lists, the download loop, the turn, and its guarantees over whole runs |
| `RateGate.dfy`, `Residency.dfy`, `Capabilities.dfy`, `Packages.dfy` | the four smaller protocols |

## How things are modelled

- **Bytes and paths.** A path is its UTF-8 bytes. A stored object is a sequence of cells; a cell is a raw byte or
  byte number i of a ciphertext.
- **The cipher is symbolic.** A ciphertext is |plaintext| + 16 cells that remember key, nonce, associated data and
  plaintext, and it opens exactly when all of these match (tag and nonce sizes: section 5.2 of RFC 5116). The
  value of a ciphertext byte read as a number is not modelled and reads as 0; an object that carries one where a
  header is read behaves like the object that carries that value as a raw byte. SHA-256 is taken for the bytes it
  was fed. Random nonces are parameters. That the writers' 8 random bytes do not repeat is the hypothesis `Fresh`;
  that nobody forges a ciphertext is `Unforged`, and `Tamper.SplicingIsUnforged` shows that every cutting and
  reordering of honest objects meets it.
- **Generators** are the pieces they hand over and how they end: `Yield(pieces, Done | Raised(error))`.
- **Errors** are `Result` values. An integer that does not fit `to_bytes` is the error `Overflow`.
- **Chunk size** is any positive number up to 64 MiB for the reader, and the constant 1 MiB for the writer.
- **A store that may misbehave.** What a save leaves behind is a parameter: `Faithful`, `Corrupt(kept)` with
  arbitrary `kept`, `Refuse`, or `Broken(kept)`, which raises although it has stored something.
- **Migration.** `listing` is the sorted list of `.enc` files; `Pass` holds the keys, the limit, the nonces, the
  clock and what outside writers do to a file behind its being read, before the re-check and after it.
- **The engine.** Everything outside (the tool catalog, the model's replies, the backend, the network, the clock,
  argument validation, the progress hook) is a function of the step index in `World`. Each of them may also raise
  something the engine does not catch, so a statement for every `World` covers that too. The variables of `run` are
  the record `Turn`, with a log of what each finished step did; an exception that leaves `run` is the ending
  `Raised`, which holds what the interrupted step had done. Whether a record keeps to its length limits is a bit of
  the reply, since texts are not modelled.
- **Downloads** are body bytes that the reading loop takes, in reads of at most 64 KiB. What a server sends and
  nobody reads is not counted as a download.
- **The rate gate** works in whole milliseconds; `Server` keeps a ghost trace of every step of every client.
- **The residency cache** keeps a ghost trace of touches. `Lookup` and `Adopt` are the two lock-held steps, so
  `Valid()` after each of them covers every interleaving of callers.
- **The package index** is any codec with parse(json(index)) == Some(index), at the one index concerned.

## Where the code departs from what it says, and exact conditions

1. `reencrypt_to_path` says a move is read back and compared. A plain object is compared by size only
   (storage.py:568-574), and with target and source the same path it is compared with itself.
   `Storage.MoveIsVerified` gives the exact condition on what the method accepts, `Storage.Backend.ReencryptToPath`
   that it accepts exactly that, and `Storage.UnnoticedMove` and `Storage.UnnoticedMoveOntoItself` are runs of it.
2. The writer takes `length` on trust (storage.py:374-375): a wrong one is stored without an error. A longer
   stream then reads back cut, a shorter one fails (`SealedObjects.DeclaredLength`).
3. The v1 header's length is nobody's promise (storage.py:42-47); `SealedObjects.V1LengthEdit` says exactly which
   edits go unnoticed, and `Tamper.V2HeaderIsBound` that in v2 none does.
4. After its generator has raised, a second `read` of the pull reader takes what is left for the whole
   (storage.py:71-75): `RangeReader.SecondReadHidesError`. No caller reads again.
5. The remote stream's comment says that windows are capped, and promises several bounded requests for "the rest of
   the file" (storage.py:102-104); the code makes one request as large as the read (storage.py:162).
   `S3Stream.RangeStream.Read` states exactly which request a read makes, `S3Stream.RequestExceedsExactly` that it
   exceeds the window exactly if the read returns more than the window, and `S3Stream.WindowsAreNotCapped` that
   reading the rest of any object larger than the window is a single request for all of it.
6. A suffix range `-n` is answered with the first n + 1 bytes (responses.py:223-225), not the last n as section
   14.1.2 of RFC 9110 has it (`Responses.SuffixRangeIsMisread`). A range whose last byte lies more than one before its
   first is answered with a negative Content-Length, and no other is (`Responses.ContentLengthExactly`);
   `Responses.ReversedRange` is one.
7. `_can_keep_working` is documented to close a turn after two steps in a row that learned nothing
   (engine.py:321-325). One such step, other than the first, is enough (`EngineRuns.ClosesExactly`), as in the turn of
   `EngineRuns.OneIdleStepCloses`, which has never had two in a row.
8. The byte budget of a turn counts pages that were handed over, not what was downloaded. A page without an announced
   length is only found too long when up to its limit and one read more has been taken (remote_fetch.py:162-172); a
   connection may break, or 30 seconds may pass, behind any part of a page; and the record of a page may not
   validate (a summary over 300 characters, engine.py:492-499). All of that is counted nowhere (engine.py:257-258,
   411-419). `EngineRuns.FetchBudget` says exactly when nothing is lost and bounds what can be,
   `EngineRuns.TameNetworkKeepsBudget` gives a condition on the servers alone, and `EngineRuns.DownloadsCanOverrun`
   has two turns that overrun, one of which reaches the bound.
9. A turn may end in an exception and without a result. The engine catches ValueError, LookupError and RuntimeError
   around a call (engine.py:411) and AgentUnavailableError around the model (engine.py:188). The TimeoutError of a
   page that stalls (fetch.py:133-143), a payload of the wrong JSON type, a catalog that cannot be had
   (engine.py:153), a queued call without a name or arguments (engine.py:180-185), or any other exception of the
   model get through. `EngineRuns.RaisesExactly` says exactly when a turn raises, `EngineRuns.TurnsThatRaise` has five
   such turns, and `EngineRuns.EveryTurnEndsWell` promises a result exactly otherwise.
10. The gate's key lives max(4 * interval, 1000) ms, so two grants are an interval apart exactly if the later
    interval is no longer than that (`RateGate.SpacingIsExact`). Here a key is gone at the millisecond in which it
    expires; on a server that keeps it through that millisecond the bound is one millisecond larger.
11. The conflict pass does not compare the integrations of one module with each other (modules.py:213-243). The
    contract table is functional exactly if no surviving module contradicts itself
    (`Capabilities.ContractsAgreeExactly`), hence whenever no installed module does
    (`Capabilities.ConsistentModulesAgree`); `Capabilities.TornModuleSurvives` is a module that does and survives.
12. An object of the oldest form carries no mark, so it opens exactly if its random nonce does not begin like one
    (storage.py:302-303, 441-444): `Storage.LegacyOpensExactly`.
13. The migration's re-check is there so that it does not clobber new bytes or resurrect deleted ones
    (storage.py:1041-1043). That holds for whatever others do before it (`MigrationRuns.OutsideWriteSurvives`); what
    they do between it and the replacement is lost (`MigrationRuns.LateWriteIsLost`).
14. The read-back of a moved single blob opens what was kept as a blob, without asking what a reader would take it for
    (storage.py:561-566). `Storage.AcceptedMoveOpens` says exactly when a later reader agrees; `Storage.MisreadMove` is
    a kept object on which it does not, for which a store would have to hold a fitting ciphertext.

## Model

| member | source | states |
|---|---|---|
| Aead.OpenSealed | app/core/storage.py:773-790 | A fresh ciphertext opens to its plaintext wherever its key stands among the candidates. |
| Aead.OpenForeign | app/core/storage.py:773-790 | Under another nonce or other associated data, or without the key, no candidate opens it. |
| Aead.OpenedWasSealed | app/core/storage.py:773-790 | Whatever opens was sealed, as it stands, under one of the candidates. |
| Envelope.V2AadInjective | app/core/storage.py:795-824 | The associated data of a v2 chunk determines path, file nonce, length, count, chunk size and index, although the path is of variable length between fixed-width fields. |
| Envelope.V1AadInjective | app/core/storage.py:792-793 | The same for v1: path, file nonce and index. |
| Envelope.BlobAadInjective | app/core/storage.py:275-277 | The associated data of a single blob determines its path. |
| Envelope.AadsDisjoint | app/core/storage.py:792-824 | The associated data of a v2 chunk, a v1 chunk and a blob never coincide. |
| Envelope.HeaderV2Parses | app/core/storage.py:698-703 | The reader parses out of a v2 header exactly the nonce and sizes the writer put in. |
| Envelope.HeaderV1Parses | app/core/storage.py:676-691 | The same for the v1 header. |
| Envelope.HeaderAcceptedExactly | app/core/storage.py:704-708 | A v2 header is accepted exactly with a chunk size of 1 byte to 64 MiB and as many chunks as the length fills. |
| Envelope.BlobOpens | app/core/storage.py:279-319 | An encrypted payload decrypts to its plaintext under any candidate list with the key, and is recognised as a blob. |
| Envelope.PayloadSize | app/core/storage.py:302-319 | What a single blob opens to is shorter than the stored object by exactly magic, nonce and tag. |
| ChunkReader.ReadChunks | app/core/storage.py:723-771 | The reader's loop terminates on any object, although position can go down, and yields exactly what the recursive walk over the slots yields. |
| ChunkReader.WalkTotal | app/core/storage.py:737-771 | A walk that completes, from any state of the loop, has covered the range as far as the header's length reaches, and no more than the range. |
| ChunkReader.TotalOrError | app/core/storage.py:649-771 | For arbitrary v1 or v2 bytes, a completed read of a range inside the header's length yields exactly as many bytes as asked for. |
| ChunkReader.WalkErrors | app/core/storage.py:737-771 | From any state of the loop the only errors are truncation, a chunk that does not open and an index that does not fit. |
| ChunkReader.OpenErrors | app/core/storage.py:649-771 | No read ever ends in the error of the short-read checks. |
| ChunkReader.SizeIsLength | app/core/storage.py:581-592 | The size taken from the header alone is the length of what opens. |
| ChunkReader.WalkAuthentic | app/core/storage.py:737-771 | If every slot that opens holds the piece of one plaintext that belongs there, everything handed over, even before an error, is a prefix of the range. |
| SealedObjects.SealedSlot | app/core/storage.py:428-435 | The i-th slot of a written object is exactly the sealing of the i-th chunk, or empty behind the last. |
| SealedObjects.EncodedV2IsSealed | app/core/storage.py:409-436 | A written v2 object parses to the frame it was written with and holds the chunks of its stream. |
| SealedObjects.EncodedV1IsSealed | app/core/storage.py:672-692 | The same for objects of the first version. |
| SealedObjects.WrittenInMebibytes | app/core/storage.py:412-427 | A written v2 object says 1 MiB chunks, its declared length and the chunk count in a header of 33 bytes. |
| SealedObjects.WalkSealed | app/core/storage.py:742-771 | A walk over a written object completes exactly if what it may read is there, and the only error is truncation. |
| SealedObjects.RangeRefinesSlicing | app/core/storage.py:649-771 | Sealing any plaintext with any chunk size and reading any start and length gives that slice, beyond the end and inside the short last chunk too. |
| SealedObjects.V1RangeRefinesSlicing | app/core/storage.py:672-692 | The same for v1 objects. |
| SealedObjects.DeclaredLength | app/core/storage.py:354-379 | A stream stored under any declared length reads back cut to it, or fails if it is too long; it reads back whole if and only if the length was true. |
| SealedObjects.V1LengthEdit | app/core/storage.py:42-47 | An edited v1 length goes unnoticed exactly if it does not exceed the plaintext, and then cuts it. |
| Tamper.V2SlotOrigin | app/core/storage.py:694-721 | A slot that opens in any object with a v2 header holds the chunk of that very number of the one honest write the header names. |
| Tamper.V1SlotOrigin | app/core/storage.py:672-692 | The same for v1, where the header names path and nonce only. |
| Tamper.TamperEvidence | app/core/storage.py:694-771 | For any stored bytes with a v2 header: everything yielded, even before an error, is a prefix of the asked slice of one honestly sealed plaintext of this path, nonce and sizes, and a completed read of a range that is not empty is that slice. |
| Tamper.V1TamperEvidence | app/core/storage.py:672-692 | The same for v1, without the promise for completed reads. |
| Tamper.BlobTamperEvidence | app/core/storage.py:288-319 | A blob that opens is one honest write for this path; in the oldest form, one honest write for any path. |
| Tamper.SplicingIsUnforged | app/core/storage.py:347-352 | Cutting honest objects up and mixing the pieces in any order is no forgery, so the three statements above cover it. |
| Tamper.V2HeaderIsBound | app/core/storage.py:42-51 | With any other nonce, sizes or path in front of an object's chunks, no read yields a byte or completes on a range that is not empty. |
| RangeReader.Reader.constructor | app/core/storage.py:63-68 | A new reader has the whole stream ahead of it and nothing handed over. |
| RangeReader.Reader.Read | app/core/storage.py:70-84 | Consecutive pieces, full-size unless the stream is exhausted; digest and count describe exactly the bytes handed over; an error comes out exactly when a read needs more than there is. |
| RangeReader.Reader.Drain | app/core/storage.py:501-503 | Reading to the end digests the whole stream, or fails exactly if the generator does. |
| RangeReader.SecondReadHidesError | app/core/storage.py:70-84 | For every generator that raises: a read of more than there is fails, and the next one returns what is left as the whole. |
| RangeReader.WriteSeekableV2 | app/core/storage.py:409-436 | One sealed chunk per full read: the writer stores exactly the v2 object of the whole stream, and fails exactly if a number does not fit or the stream raises. |
| Storage.UpgradedPathIsNew | app/core/storage.py:457-468 | The upgrade's target differs from its source, is injective in it and keeps the suffix. |
| Storage.UpgradedPathOf | app/core/storage.py:466-468 | The target of `x.enc` is `x.v2.enc`, of any other name `x` it is `x.v2`. |
| Storage.PrefixDecides | app/core/storage.py:576-579 | Nine bytes, the header and the whole object agree on which envelope an object is. |
| Storage.SizeAgrees | app/core/storage.py:833-846 | For every envelope that opens, the size reported without decrypting is the length of the plaintext. |
| Storage.SealThenOpen | app/core/storage.py:268-345 | Writing and opening again gives the plaintext back, in the single blob and both chunked forms. |
| Storage.LegacyOpensExactly | app/core/storage.py:302-319 | An object of the oldest form opens to its plaintext if and only if its nonce does not read as one of the magics. |
| Storage.KindDecides | app/core/storage.py:539-556 | An object is treated as plain exactly if it begins with none of the three magics, as a blob exactly with the blob magic; the job for an envelope reads what any reader of the object would. |
| Storage.EnvelopesHaveMagic | app/core/storage.py:286-286 | Everything the writers store but the oldest form begins with its magic. |
| Storage.ResealedOpens | app/core/storage.py:546-566 | What a move of an envelope gives its store opens at the new place and key to the same plaintext. |
| Storage.WrongKeyOpensNothing | app/core/storage.py:288-319 | An explicit key stands alone: what was sealed under another key does not open, even if that is one of the application's, under which it does. |
| Storage.MoveIsVerified | app/core/storage.py:508-574 | An accepted move carries the source's content whatever the store kept, if and only if the source is an envelope, or empty and not moved onto itself. |
| Storage.AcceptedMoveOpens | app/core/storage.py:539-567 | What an accepted move of an envelope leaves opens, as any reader opens it, to the source's plaintext, if and only if it is not that the source is a single blob and the kept object begins like a chunked one. |
| Storage.MisreadMove | app/core/storage.py:561-566 | One that does: the same plaintext in the oldest form, under a nonce that begins like a chunked object, is accepted. |
| Storage.PlainMoveCounterexample | app/core/storage.py:568-574 | The acceptance test of a plain move passes another byte of the same size, and on a move onto itself an object of any size. |
| Storage.Backend.Candidates | app/core/storage.py:310-312 | An explicit key is the only candidate; without one exactly the keys of the ring are; the key that writes is always among them. |
| Storage.Backend.Save | app/core/storage.py:946-960 | A save changes one name only: to what it was given, to anything else, not at all, or to anything with an error. |
| Storage.Backend.OpenReader | app/core/storage.py:91-92 | The pull reader over a stored object has the range reader's pieces and ending ahead of it. |
| Storage.Backend.SaveSeekable | app/core/storage.py:354-375 | A stream of known length that can be written is handed to the store as its v2 object under the write key; else nothing is. |
| Storage.Backend.CopySeekable | app/core/storage.py:489-495 | Copying succeeds exactly if the source opens, the length fits and the save returns; the store is given nothing else; the check for a short copy never fires. |
| Storage.Backend.ReadBack | app/core/storage.py:549-554 | The digest of the read-back is what the stored target opens to. |
| Storage.Backend.VerifyEncryptedObject | app/core/storage.py:594-647 | An object without a magic is reported as plain, with its size and no digest; any other with the size and digest of what it opens to, or the error if it does not. |
| Storage.Backend.UpgradeSeekableEnvelope | app/core/storage.py:470-506 | A path is returned for a v1 source and a returning save if and only if the source opens and fits and the kept target is v2 and opens to the same; source and all other objects are unchanged; the store is given exactly the v2 object of the plaintext; with a faithful store every v1 object that opens and fits is upgraded. |
| Storage.Backend.ReencryptToPath | app/core/storage.py:508-574 | With a save that returns it returns if and only if the kept target is acceptable; over a faithful store an object without a magic is copied as it is, and any other that opens (and fits) leaves a target that opens to the same plaintext under the target key alone, which without an explicit one is the application's; nothing but the target changes, and nothing when the source does not open. |
| Storage.Backend.MoveChunked | app/core/storage.py:543-555 | A chunked object is moved exactly if it opens, fits, the save returns and the kept target opens to the same; the store is given its v2 object at the new path. |
| Storage.Backend.MoveBlob | app/core/storage.py:556-567 | The same for a single blob. |
| Storage.Backend.MovePlain | app/core/storage.py:570-574 | Anything else is copied, and the copy accepted exactly by its size. |
| Storage.CheckAndMove | app/core/storage.py:594-647 | A run for every honest envelope of the three forms: the check reports its plaintext, and a move over a faithful store leaves an object that opens to it. |
| Storage.UnnoticedMove | app/core/storage.py:570-574 | A run for every plain object and every other object of its size: moved to another path and kept wrong by the store, the move returns. |
| Storage.UnnoticedMoveOntoItself | app/core/storage.py:570-574 | The same for a move onto itself and any object at all. |
| Migration.Classify | app/core/storage.py:889-914 | A key is returned if and only if the object is chunked and some candidate opens it. |
| Migration.LocalStorage.MigrateLegacyEncryptionBatch | app/core/storage.py:981-1075 | One pass leaves files, cache and counters exactly as visiting the listed files one by one does, from the remembered cache if the legacy keys are the same as before and from an empty one if not. |
| MigrationRuns.VisitAllAt | app/core/storage.py:992-1067 | In a pass every listed file fares as if it were visited alone, at some count of examined files. |
| MigrationRuns.ReplacementOpens | app/core/storage.py:1034-1040 | The replacement is current and opens to the same plaintext, under the application's present key alone. |
| MigrationRuns.PassProgress | app/core/storage.py:1019-1067 | Any pass examines as many candidates as it has room for and reports the rest as pending; if nobody writes to a listed file it leaves exactly those. |
| MigrationRuns.PassAccounting | app/core/storage.py:981-1075 | In any pass every listed file falls in exactly one of current, foreign, cached-skip, pending and examined, by what it was when the pass began. |
| MigrationRuns.PassExamined | app/core/storage.py:1027-1067 | The examined objects are the migrated ones and those newly remembered as unreadable, but for at most as many as others write to; in a quiet pass exactly. |
| MigrationRuns.PassSafety | app/core/storage.py:992-1067 | In any pass, for every file nobody else writes to: it opens to what it did before; only legacy objects a key opens are rewritten, and become current; unreadable ones are remembered untouched. |
| MigrationRuns.PassLeaves | app/core/storage.py:992-1067 | Any pass and any file: it is replaced exactly if it was a candidate with room that a key opens and the re-check finds its size and time unchanged, and then opens to what was read; else what the re-check finds stands there. |
| MigrationRuns.OutsideWriteSurvives | app/core/storage.py:1041-1049 | What another writer leaves or deletes before the re-check is what is there after the pass, if it shows in size or time. |
| MigrationRuns.LateWriteIsLost | app/core/storage.py:1044-1067 | Whatever others leave between re-check and replacement, for every object of the oldest form that opens only the replacement stands. |
| MigrationRuns.MigrateUnderNewKeys | app/core/storage.py:983-986 | A call of the job when the legacy keys have changed: examined and pending are all listed objects of the oldest form, whatever was remembered, and an unlimited pass migrates every one that a key opens now and nobody writes to. |
| MigrationRuns.SkippedExactly | app/core/storage.py:1019-1023 | The cache skips an object of the oldest form exactly while it has the size and time under which it was remembered. |
| MigrationRuns.HonestClassification | app/core/storage.py:905-917 | A chunked object of either version counts as current if its key is among the keys, and as foreign if it is not and the object holds anything. |
| MigrationRuns.RunProgress | app/core/storage.py:981-1075 | After k quiet passes with fixed legacy keys and limit L >= 1, exactly max(0, N - k * L) of N candidates are left, and reported as pending. |
| MigrationRuns.RunSafety | app/core/storage.py:981-1075 | Through any history of passes, with changing lists and other writers about, a file nobody else writes to opens to the same plaintext, and the cache never hides one that opens. |
| MigrationRuns.RunSettled | app/core/storage.py:1022-1026 | Once k * L covers the candidates, further passes change neither files nor cache. |
| MigrationRuns.RunComplete | app/core/storage.py:981-1075 | By then every listed object that some key opened has left the legacy form with its plaintext, whatever unreadable objects stand before it. |
| S3Stream.RangeStream.constructor | app/core/storage.py:109-117 | A new stream stands at 0, holds nothing and has made no request. |
| S3Stream.RangeStream.Size | app/core/storage.py:119-129 | The size is the object's, or the object is missing. |
| S3Stream.RangeStream.Seek | app/core/storage.py:140-153 | All three whences answer and move like a flat file, and cost no ranged request. |
| S3Stream.SeekMeans | app/core/storage.py:140-153 | Each whence on the length of the object, with its error, and a missing object. |
| S3Stream.LastBytes | app/core/storage.py:146-180 | Seeking n bytes before the end and reading the rest gives the last n bytes. |
| S3Stream.RangeStream.Fetch | app/core/storage.py:160-176 | The buffer becomes the part of the object from the position on, of exactly the larger of window and read as far as there is, and that is the one request made. |
| S3Stream.RangeStream.Read | app/core/storage.py:155-180 | A read answers like a flat file and moves by what it returned; it makes a request if and only if it starts inside the object and the buffer does not cover it, and exactly that one. |
| S3Stream.RangeStream.Cut | app/core/storage.py:177-180 | Once the buffer covers a read, what is cut out of it is that part of the object. |
| S3Stream.RequestExceedsExactly | app/core/storage.py:159-162 | A request is larger than the window if and only if its read returns more than the window. |
| S3Stream.WindowsAreNotCapped | app/core/storage.py:99-104 | Reading the rest of any object larger than the window is one request for all of it. |
| S3Stream.RangeStream.Replay | app/core/storage.py:95-183 | Every sequence of seeks and reads of any size gets the replies of a flat file, with exactly the requests they need, at most one each. |
| S3Stream.RangeStream.ReadSlot | app/core/storage.py:747-748 | Seeking to a chunk and reading it gives the slot the range reader works on. |
| S3Stream.FlatReadsJoin | app/core/storage.py:155-180 | Reading on by any size joins to the rest of the object. |
| Responses.BytesChunks | app/core/responses.py:15-18 | The pieces join to the data and are all full but the last. |
| Responses.PlainRange | app/core/responses.py:144-155 | The plain loop sends exactly the bytes from start to end that exist. |
| Responses.StreamRange | app/core/responses.py:113-155 | The range generator sends, in every branch, the range of what the object holds. |
| Responses.StreamWhole | app/core/responses.py:75-110 | The whole-file generator sends, in every branch, all of what the object holds. |
| Responses.ContentLengthIsHonest | app/core/responses.py:235-247 | For any stored object, a partial body that completes has max(0, Content-Length) bytes, those that Content-Range names. |
| Responses.ContentLengthExactly | app/core/responses.py:220-247 | It has Content-Length bytes, and that is not negative, if and only if the requested last byte is not more than one before the first. |
| Responses.ReversedRange | app/core/responses.py:221-241 | Bytes 5 to 3 of six bytes or more are answered with status 206, Content-Length -1 and no byte. |
| Responses.WholeLengthIsHonest | app/core/responses.py:250-259 | A whole body that completes has Content-Length bytes. |
| Responses.FormsAgree | app/core/responses.py:192-259 | Plain, single-blob, both chunked forms, and the oldest single blob unless its nonce reads as a magic, answer every range request with the same status, sizes and bytes. |
| Responses.WithoutPreflight | app/core/responses.py:91-142 | Reached without the opening before it, a generator sends the same bytes of a single blob or a v2 object, and raises if a blob does not open. |
| Responses.StatusExactly | app/core/responses.py:40-72 | 404 exactly without an object, 500 exactly if an encrypted object does not open (a chunked one: at its first byte), else 416, 206 or 200 by the range. |
| Responses.SuffixRangeIsMisread | app/core/responses.py:221-233 | A suffix range is answered with a prefix; right exactly if there are no more bytes than asked for. |
| References.MergeReferences | app/core/agent/engine.py:357-372 | The merge loop keeps the old list, appends each unknown item once in order, numbered on, and cuts at twenty. |
| References.MergeIsStable | app/core/agent/engine.py:362-372 | Merging keeps entry k as result:k, items distinct, at most twenty, the old list as a prefix, and loses a found item only when full. |
| References.MergeIsWellNamed | app/core/agent/engine.py:362-372 | Merging keeps any list that passes its validator within it and at its beginning, however the list was numbered. |
| References.MergeKeepsEntries | app/core/agent/engine.py:367-372 | Every appended entry is a found one, unchanged but for its number, and of two of one item the first. |
| References.FindStable | app/core/agent/engine.py:569-570 | result:k finds entry k and nothing else, and the same entry in every later list. |
| References.FindGrows | app/core/agent/engine.py:569-570 | A ref that finds an entry finds the same one in every list that grows out of this one. |
| RemoteFetch.FetchBytes | app/core/remote_fetch.py:153-173 | The reading loop takes and hands over what the recursive reading does: the size is checked behind each chunk. |
| RemoteFetch.FetchMeans | app/core/remote_fetch.py:153-173 | A page is handed over exactly if it is not turned down, broken or too long, and then whole; no download takes more than the limit and one read; it takes nothing exactly if turned down or empty. |
| CascadeEngine.Run | app/core/agent/engine.py:145-317 | The run stops at the first step that ends it or at the step limit, in the state the step function leads to from the start; a final answer or a question is returned as it is, with the records, the references and the action of the turn, and there is no result exactly if the turn raised. |
| EngineRuns.StepShape | app/core/agent/engine.py:170-285 | A step that goes on adds exactly one record, one progress entry and one event; one that ends the loop, by an exception too, changes only the ending and the queue. |
| EngineRuns.RunShape | app/core/agent/engine.py:170-285 | After n iterations a running turn has made exactly n steps, and no turn more. |
| EngineRuns.ClosingStepIsIdle | app/core/agent/engine.py:207-226 | A closing step reaches neither backend nor screen, leaves references, byte count and action, and learns nothing. |
| EngineRuns.ClosingIsAbsorbing | app/core/agent/engine.py:170-285 | Once a step of a run was closing every later one is, none has an effect, each finished one adds False, and the queue is dead, whatever the model replies. |
| EngineRuns.ClosesExactly | app/core/agent/engine.py:319-328 | A step is closing if and only if it is the fourth or later and some step from the second on has learned nothing. |
| EngineRuns.OneIdleStepCloses | app/core/agent/engine.py:320-328 | A valid turn that has found something, nothing, and something closes, though no two steps in a row were idle. |
| EngineRuns.NothingTwice | app/core/agent/engine.py:238-250 | No (tool, arguments) pair is executed twice in a run, not even by a step that raises. |
| EngineRuns.IntegrationDoes | app/core/agent/engine.py:390-410 | A call of an integration reaches that integration if its arguments are accepted, merges its hits, and learns something exactly if one of them is new and there is room; each failure leaves just its record. |
| EngineRuns.ReadDoes | app/core/agent/engine.py:421-477 | A read asks for the item its ref finds and learns something exactly if it has text; each failure leaves just its record. |
| EngineRuns.FetchDoes | app/core/agent/engine.py:479-510 | A fetch runs under what is left of the budget and eight bytes a character; only a page that fits is counted, and teaches something exactly if it has text. |
| EngineRuns.ActDoes | app/core/agent/engine.py:512-547 | An act succeeds exactly on a found item that opens, and plays if it is to be played; the first is what the client is told; it teaches nothing. |
| EngineRuns.RefusedDoes | app/core/agent/engine.py:207-249 | An unknown or withdrawn tool is recorded as an error, a repeated call as skipped, and nothing else changes. |
| EngineRuns.ExecutedExactly | app/core/agent/engine.py:219-263 | The turn counts as executed exactly its records that are not skipped repetitions. |
| EngineRuns.FetchBudget | app/core/agent/engine.py:479-510 | In every run counted bytes keep to the budget; downloads equal them if and only if every started fetch was tame (nothing arrived, or the whole page in time, within its limit and fitting its record), and exceed them by at most limit plus one read for each uncounted fetch. |
| EngineRuns.TameNetworkKeepsBudget | app/core/agent/engine.py:251-258 | If every server is tame at every limit, everything downloaded keeps to the budget in every run. |
| EngineRuns.DownloadsCanOverrun | app/core/agent/engine.py:487-510 | Two runs of two fetches: pages whose record does not fit download twice the budget, pages too long, whose records all fit, four times, which is all the bound allows; nothing is counted. |
| EngineRuns.ReferencesAndAct | app/core/agent/engine.py:259-278 | Through every run references only grow at their end within their validator, and numbered distinct ones stay so; the action told is the first successful act, on an item that still carries its ref, can be opened, and is playable if played. |
| EngineRuns.QueueBounded | app/core/agent/engine.py:192-197 | At most four calls are queued at any time. |
| EngineRuns.QueueTakes | app/core/agent/engine.py:178-197 | A step takes the front of the queue, or fills an empty one with the first four calls of the reply; a closing step leaves it. |
| EngineRuns.QueueInOrder | app/core/agent/engine.py:178-191 | While a turn goes on without closing, a queue is used up from its front, one call a step. |
| EngineRuns.EndingIsValid | app/core/agent/engine.py:200-206 | Every final answer and every question keeps to the bounds of its validator. |
| EngineRuns.RaisesExactly | app/core/agent/engine.py:176-191 | A turn raises if and only if the catalog fails, or a step it comes to has a malformed call at the front of a queue in use, or an exception of the model or the hook, or executes a call that meets an exception that is not caught. |
| EngineRuns.QueueStaysWellFormed | app/core/agent/engine.py:178-197 | In a world in which nothing escapes and no queued call is malformed, no run raises. |
| EngineRuns.TurnsThatRaise | app/core/agent/engine.py:411-411 | Five turns that raise on valid requests and replies: no catalog, a page that stalls, a stored item and a search result of the wrong shape, a nameless queued call. |
| EngineRuns.EveryTurnEndsWell | app/core/agent/engine.py:287-317 | A turn takes at most its step limit and has a result exactly unless the catalog fails or some step it comes to raises; always in a civil world. The result passes the validator, with exactly one of answer and question; refs attached by the engine and the client's ref resolve in the returned list. |
| EngineRuns.LastReplyIsTold | app/core/agent/engine.py:200-206 | If the last reply is an answer, the result has that answer and its refs, and if it names none, the item acted on, or the first three references if anything was executed; if it is a question, that question with its options. |
| EngineRuns.ResultTellsTheTurn | app/core/agent/engine.py:306-317 | Every result holds one record for each finished step, the references of the turn, and action and ref of the first successful act. |
| RateGate.LastIsLastGrant | app/core/ytdlp_pipeline.py:24-29 | After any interleaving the shared key holds the time of the last grant, and lives max(4 * its interval, 1000) ms from then. |
| RateGate.GrantExactly | app/core/ytdlp_pipeline.py:16-31 | A request is granted if and only if no cooldown is live and the last grant is an interval ago, or its key has expired. |
| RateGate.GrantsAreSpaced | app/core/ytdlp_pipeline.py:16-31 | In every interleaving a grant comes at least the later interval, or max(4 * interval of the last grant, 1000) ms if that is shorter, after any earlier grant. |
| RateGate.GrantsKeepTheirInterval | app/core/ytdlp_pipeline.py:23-29 | A grant keeps its whole interval to every earlier one, if that is at most four times the interval of each grant in between, or at most 1000 ms. |
| RateGate.OneIntervalIsKept | app/core/ytdlp_pipeline.py:23-29 | If all clients use one interval, any two grants are that interval apart, in every interleaving. |
| RateGate.SpacingIsExact | app/core/ytdlp_pipeline.py:23-29 | Two grants are always the later interval apart if and only if that is at most four times the first, or at most 1000 ms. |
| RateGate.CooldownHolds | app/core/ytdlp_pipeline.py:268-273 | A cooldown stays until its end if later ones are not shorter. |
| RateGate.CooldownIsLast | app/core/ytdlp_pipeline.py:268-273 | The cooldown is the last one opened, and ends just its seconds after that. |
| RateGate.GrantExactlyByTrace | app/core/ytdlp_pipeline.py:16-31 | A request is granted if and only if the last cooldown in the trace is over and the last grant is far enough away. |
| RateGate.NoGrantWhileCooling | app/core/ytdlp_pipeline.py:19-22 | No slot is granted to anybody while that cooldown is live. |
| RateGate.RetryExactly | app/core/ytdlp_pipeline.py:23-28 | The returned wait is exact: an undisturbed retry succeeds from then on, and not before unless the key expires first. |
| RateGate.Server.Eval | app/core/ytdlp_pipeline.py:249-255 | One evaluation is one step of the shared trace, and grants exactly when the trace says so. |
| RateGate.Server.OpenCooldown | app/core/ytdlp_pipeline.py:268-273 | Opening a cooldown is one step of the shared trace. |
| RateGate.Server.Sleep | app/core/ytdlp_pipeline.py:265-265 | The clock moves by the wait while others only add steps. |
| RateGate.Server.WaitForSlot | app/core/ytdlp_pipeline.py:240-265 | It returns exactly on a grant, fails exactly on a live cooldown with the seconds left, and needs at most one evaluation more than the disturbed ones and the first. |
| Residency.Residency.constructor | app/voice/residency.py:24-27 | The limit is at least one and nothing is resident. |
| Residency.Residency.Lookup | app/voice/residency.py:35-39 | A hit returns the engine and is a touch; a miss changes nothing; the residents stay those the touches demand. |
| Residency.Residency.Evict | app/voice/residency.py:51-53 | The loop leaves exactly the last `limit` keys with their engines. |
| Residency.Residency.Adopt | app/voice/residency.py:47-54 | The adopted key is resident with its engine, and the residents are the last `limit` distinct touched keys. |
| Residency.Residency.ReleaseAll | app/voice/residency.py:56-61 | Everything is released, in order, and nothing stays. |
| Residency.Residency.Use | app/voice/residency.py:33-45 | Undisturbed, a use is one touch, loads exactly if the key has no resident engine, and returns what is then resident. |
| Residency.UseAll | app/voice/residency.py:33-45 | One caller using one key after another causes exactly the loads that the trace says. |
| Residency.EvictionCommutes | app/voice/residency.py:47-54 | Evicting before a touch or after it leaves the same residents. |
| Residency.TouchResidents | app/voice/residency.py:35-54 | One touch of the residents is one touch of the whole history, cut to the limit. |
| Residency.ResidentsAreMostRecent | app/voice/residency.py:21-54 | The residents are the `limit` keys touched last, in the order of their last touch. |
| Residency.StackProperty | app/voice/residency.py:21-54 | Under a smaller limit the residents are the last of those under a larger one, so raising the limit never adds a load. |
| Capabilities.Registry.ValidateCapabilities | app/core/modules.py:170-243 | The loop marks as failed exactly the modules the pass over the tables fails, and changes nothing else. |
| Capabilities.PassOwns | app/core/modules.py:179-235 | After any number of modules the claim tables list exactly the claims of the survivors, each under the only survivor that makes it. |
| Capabilities.NoTwoOwners | app/core/modules.py:179-235 | No two surviving modules share a claim of any of the eight kinds. |
| Capabilities.ClaimsExactly | app/core/modules.py:183-199 | The claims of a module are exactly its declared fields, for each of the eight kinds. |
| Capabilities.SurvivorsShareNothing | app/core/modules.py:179-235 | No two surviving modules share a dashboard URL, namespace, prefix, entity type, integration id, action, policy id or credential scope. |
| Capabilities.PassMarks | app/core/modules.py:868-872 | The pass changes nothing of a record but its status, to failed, and only of a declared module that is active, disabled or failed. |
| Capabilities.PassAgrees | app/core/modules.py:213-243 | Every survivor agrees with the contract table if the survivors are consistent in themselves. |
| Capabilities.ContractsAgreeExactly | app/core/modules.py:213-243 | Survivors agree on every contract's schema if and only if no survivor contradicts itself. |
| Capabilities.ConsistentModulesAgree | app/core/modules.py:213-243 | If every installed module is consistent in itself, survivors agree on every contract. |
| Capabilities.TornModuleSurvives | app/core/modules.py:213-243 | A module that gives one contract two schemas survives, and the table is not functional. |
| Capabilities.FailsExactly | app/core/modules.py:179-243 | An installed module fails if and only if it clashes with a survivor before it; a failed one stands in nobody's way. |
| Capabilities.FailsExactlyIfConsistent | app/core/modules.py:179-243 | The same if every installed module is consistent in itself, which can be checked before the pass. |
| Capabilities.FailureHasCause | app/core/modules.py:201-233 | With no assumption: a module that fails clashes with a survivor before it, and one that shares a claim with a survivor before it fails. |
| Capabilities.FirstActive | app/core/modules.py:524-544 | First match finds an active module that makes the claim if there is one. |
| Capabilities.Registry.IntegrationProvider | app/core/modules.py:524-531 | It finds an active module with its integration of that id, if any has one. |
| Capabilities.Registry.BrowserPolicyOf | app/core/modules.py:536-544 | The same for browser policies by id. |
| Capabilities.Registry.BrowserPolicyForCredentialScope | app/core/modules.py:562-569 | The same for browser policies by credential scope. |
| Capabilities.LookupsAreUnique | app/core/modules.py:524-569 | On a validated registry of modules without repeats of their own, integrations and policies of one id are one entry of one module, and policies of one scope are of one module. |
| Capabilities.FirstMatchIsOnlyMatch | app/core/modules.py:524-569 | On a validated registry the first match is module i if and only if i is active and declares the entry. |
| Capabilities.Registry.PackageResolver | app/core/modules.py:464-485 | The chosen module is active, has a resolver and declares a prefix of the id; no declared matching prefix is longer, and of equally long ones it is the first in order; none is chosen exactly if none matches. |
| Capabilities.SortKeeps | app/core/modules.py:465-474 | Sorting by length keeps the pairs and puts the longest first, equally long ones in their order. |
| Capabilities.LongestPrefixIsOne | app/core/modules.py:464-485 | Two matching prefixes of one length are one prefix of one module, so the choice does not depend on the order. |
| Packages.KindsPartition | app/core/packages_router.py:25-32 | The packable and the standalone types are all the supported ones and exclude each other. |
| Packages.Normalize | app/core/packages_router.py:45-70 | It fails exactly if an entry fails its checks or two entries of one URL differ, else keeps the first of each in order. |
| Packages.CheckExactly | app/core/packages_router.py:49-62 | An entry passes exactly with a local URL, one of nine types, no negative size, and no digest but 64 lower-case hexadecimal digits. |
| Packages.DedupMeans | app/core/packages_router.py:45-70 | A normalized list has each URL once, loses no entry, and normalizing it again changes nothing. |
| Packages.DedupKeepsOrder | app/core/packages_router.py:63-69 | Entries keep their order: a list without repeats stays as it is, and later entries change nothing before them. |
| Packages.BuildNsp | app/core/packages_router.py:153-182 | The file is the contents, the index, the offset and the magic; it fails exactly if a resource cannot be fetched or the offset does not fit. |
| Packages.SlicesTile | app/core/packages_router.py:163-174 | The slices tile the contents in order without gaps and each holds its resource. |
| Packages.FooterOf | app/core/packages_router.py:176-177 | The footer of a written container leads to its index. |
| Packages.ContainerRoundTrip | app/core/packages_router.py:153-182 | Reading footer, index and slice gives every packed resource back. |
| Packages.HybridPartition | app/core/packages_router.py:255-278 | The hybrid manifest lists the standalone entries in order and behind them the container exactly if something is packed; its own and the packed entries are together exactly the originals, nothing sealed or binary is packed, and it is turned down exactly over a malformed id. |
| Packages.PackageIdExactly | app/core/packages_router.py:23-23 | A package id has 1 to 128 letters and digits, behind the first also underscores and hyphens. |
| Packages.ContainerIsNamed | app/core/packages_router.py:273-274 | The container is `/api/packages/<id>/nsp`, one for each package. |

## Left out

- Tamper.V1TamperEvidence: says nothing about completed reads, because the v1 length is not authenticated; `SealedObjects.V1LengthEdit` says what an edited length does.
- MigrationRuns.PassLeaves: other writers act on a file while the pass is at it; what they do to files it has still to read is part of the files it finds, except that a listed file deleted before it is opened, on which the pass ends with FileNotFoundError, is not modelled.
- MigrationRuns.RunProgress: quiet passes only, over a fixed list of files; an object that others keep writing to can be examined again and again.
- EngineRuns.EveryTurnEndsWell: says nothing about a turn that is cancelled from outside while it awaits.
- EngineRuns.ReferencesAndAct: numbering 1 to n and distinct items are kept if the request has them, which its own validator does not demand.
- EngineRuns.ClosingIsAbsorbing: assumes that the tools named `final` and `ask` stand for no integration, which the catalog guarantees (agent/catalog.py:90-123, 146-165).
- RateGate.Server.WaitForSlot: what other clients do during the sleeps is a finite list, after which nobody disturbs; against others who never stop the loop need not end.
- RateGate.NoGrantWhileCooling: a later, shorter cooldown overwrites a longer one, so only cooldowns that are not shortened are spoken of; the code's cooldowns all have one configured length.
- Packages.ContainerRoundTrip: for lists with distinct URLs, which normalization gives; the index is a list in writing order instead of a dictionary.
- CascadeEngine.Run: the loop is the code's, its body is a function on the record of the loop's variables; the awaits inside a step are not modelled.
- AES-GCM, SHA-256, key derivation and random bytes themselves.
- Streams of unknown length, which are spooled to disk to be counted (storage.py:386-407).
- File systems: temporary files, permissions, atomic replacement, path sanitising.
- The remote store's own migration pass, ETags (never set), errors other than absence, and objects that change while they are read.
- HTTP header text: the parsed range is the input, and anything that does not start with `bytes=` counts as absent; media types and caching headers.
- Worker threads and cancelled responses; a generator is only ever read to its end.
- In the engine: the scratchpad skeleton, the state shown to the model, summaries and texts, the list of failed tools, schema validation of integration arguments, trimming of the catalog.
- `reference_refs` of step records: numbered before the merge, they need not resolve (engine.py:401).
- Capabilities.LookupsAreUnique: assumes what the constructor of a module specification checks (module_types.py:472-491); two policies of one module may share a credential scope, and the first is found.
- In the registry: discovery and loading of modules, the check for duplicate migration tables that stops the start-up, error texts, health and settings.
- Releasing memory (`_release`) and the reason text of a cooldown.
- Error classification and cookies of the video pipeline; address checks, redirects and retries of a download.
- JSON text of the package index, streaming of the finished file, manifest fields besides the resources.
