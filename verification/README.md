# bincache, modelled and proved in Dafny

bincache is a Nix binary cache server. It receives uncompressed NARs, checks them against the hash in
the request target, compresses them, stores them under the hash of the compressed bytes, publishes
signed narinfo records for them, and serves both over keep-alive HTTP/1.1 connections. This project
models the parts of it whose correctness is not visible from reading one function, and proves what
they are for.

- **Never a lie.** `Protocol.dfy` is a step machine over a filesystem and a two-table index: any number
  of uploads and publishes in flight, a process crash between any two effects, boots that sweep the
  staging directory, and operator deletes and rotations while the server is down. `Safety.dfy` proves,
  for every run, that each row of both tables names an artifact that is on disk and is what the row
  says, down to the NAR it inflates to; that each record verifies under the key it was last written
  with; that what was once readable stays fetchable; that live uploads are isolated; and that
  reconciliation is exact. `Stepwise.dfy` proves that every call on the classes of `Disk.dfy`,
  `Index.dfy`, `Upload.dfy`, `Ingest.dfy` and `Maintain.dfy`, successful or failed, is a sequence of steps
  of that machine, so all of this holds of the store and the index they update. `Witness.dfy` exhibits
  runs that push, publish, delete and rotate, and `RowRun.dfy` says of which runs it is true that every
  record keeps its NAR row.
- **One spelling per value.** `Base32.dfy` proves that Nix's base32 loops are positional arithmetic on
  one number, for every width, and that the two directions are inverse.
- **Narinfo text.** `NarInfo*.dfy` and `Fingerprint.dfy` prove exactly which bodies are accepted and as
  which record, which records survive rendering and parsing, that rendering normalises every accepted
  body, and that the signed fingerprint identifies what it covers, references in ascending order.
  `Served.dfy` and `TextRun.dfy` carry that to the octets sent: over whole runs, a client that parses a
  narinfo it was served gets the stored record back.
- **Message boundaries.** `Http.dfy`, `Connection.dfy`, `Handler.dfy` and `Session.dfy` prove that on a
  stream of well-formed messages the heads handled are the messages' own, whatever the fragmentation,
  the cache's contents and its faults; and exactly which requests that is true of. A whole session, on
  any octets, is a sequence of protocol steps, so every request is answered from tables that are true of
  the disk (`Sessions.AnswersAreTrue`).
- **Every answer.** `Handler.dfy` and `Session.dfy` prove what is written back, octet for octet: the reply
  the tables and the disk decide to a request that is no push, and to a push what its verdict says. A ghost
  count of failures rules out refusing, or dropping the connection, for no reason. `SessionText.dfy`
  concludes that a record pushed over a connection is what the next request for it reads.
- **Ranges.** `Range.dfy` and `Stream.dfy` prove that the streaming loop sends the bytes a range asks
  for, no others, and that an interrupted download is completed by a resume.

Conventions. Text is one octet per character, so lengths are octet counts. SHA-256, zstd and ed25519 are
parameters (`Crypto.dfy`) with stated laws: decompressing the encoder's whole output gives back what it
was fed, its output only grows, and a signature verifies under its own key. Collision freedom is a
hypothesis of the whole-run results only, and only about contents that were committed in that run. I/O
may fail at any call, reads return any positive amount, and a failed write may have written any front
part of its bytes.

Results that differ from what one might expect:

- A 32-byte base32 value leaves one bit for its leading character, so only `0` and `1` are accepted. The
  comment at crates/bincache-core/src/base32.rs:156-157 allows sixteen characters; the model follows the
  code (`Base32.LeadingCharacter`).
- A narinfo whose CA ends in a carriage return is accepted, and rendering it loses that character
  (`NarInfoRoundTrip.CarriageReturnIsLost`). `RoundTripsExactlyWhenRenderable` and `RenderingNormalises`
  give the exact condition.
- "Every record has a NAR row" is not kept by a delete; `IndexTables.DeleteStrandsSiblings` says exactly
  when it is, and `RowRuns.RowsKeptExactly` of which runs it holds throughout. "Every record's artifact is
  on disk" is what holds always (`Safety.NeverALie`).
- `send`, `probe` and `stream` keep the connection without reading a body. `Outcomes.BodySafeExactly`
  gives the requests that are sure to leave the stream at a message boundary, and
  `Handlers.LeavesBodyExactly` says, given what the cache holds, which of the others do not;
  and `Sessions.BodyServedAsHead` shows their body being served as a request.
  `SessionInputs.InfoBodyServed` is a stream on which that happens, whatever the cache holds.
- A repeated `Content-Length` is no reason to refuse a head (`Http.AcceptedExactly`), and the last value
  wins (`Http.RepeatedLengthCounts`).
- A head longer than `HEAD_LEN_MAX` is accepted when all of it has already arrived; a head within the
  limit is never refused as too long (`Connections.Connection.Head`).
- Not every malformed `Range` is ignored, as the comment at crates/bincache-serve/src/range.rs:45-46 says:
  a first position at or past the end is refused before what follows it is read, so `bytes=9-x` on five
  octets is a 416 (`Ranges.JunkIsRefused`). `Ranges.IgnoredExactly` gives the whole family.
- A signing key whose name has a newline in it is taken, and nothing it signs reads back
  (`TextRuns.ResignedReadsBackExactly`).
- The staging counter has 64 bits. An upload is safe from a later one as long as it is not still writing
  when the counter comes back to its name; `Protocols.StageStep` needs exactly that, and
  `Protocols.WrappedNameTruncates` shows why. `Witnesses.CounterWraps` is a run that gets there.

## Model

| member | source | states |
|---|---|---|
| `Safety.NeverALie` | crates/bincache-ingest/src/upload.rs:191-210 | in every state of every run, each NAR row and each narinfo row names an artifact on disk with the promised hash and size, inflating to a NAR of the promised hash and size; each record is keyed by its own path, carries one signature, and it verifies under the key that last wrote it |
| `Safety.StaysFetchable` | crates/bincache-ingest/src/maintain.rs:43-62 | once a record is readable, its URL routes to its artifact and the bytes are the same in every later state, whatever is deleted |
| `Safety.StagingIsolated` | crates/bincache-store/src/nar.rs:106-115 | no two live uploads share a staging name or a file, and none can reach an artifact's bytes |
| `Safety.OnlyVerifiedUploadsAppear` | crates/bincache-ingest/src/upload.rs:177-210 | the artifact set changes only by the rename of an upload whose non-empty body hashed to what its target declared, under the hash of what was stored |
| `Safety.BootLeavesArtifacts` | crates/bincache/src/boot.rs:89-96 | booting changes no artifact, no file content and no table, and serving starts with staging empty |
| `Safety.ReconcileExact` | crates/bincache-ingest/src/maintain.rs:66-91 | in every reachable state a reconciliation reports no foreign file, no record without its artifact, and as orphans exactly the artifacts no record claims |
| `Safety.RotationEndsSigned` | crates/bincache-ingest/src/maintain.rs:100-115 | when a rotation ends, after any crashed attempts, every record verifies under its key |
| `Safety.StepKeeps` | crates/bincache-ingest/src/upload.rs:135-219 | any effect of any upload, publish, boot, crash or operator command keeps the invariant and every artifact |
| `RowRuns.RowsKeptExactly` | crates/bincache-index/src/index.rs:162-183 | every record has its NAR row in every state of a run exactly when no delete of the run removed a record that shared its NAR |
| `Witnesses.CounterWraps` | crates/bincache-store/src/nar.rs:108-115 | a run in which the counter is back at the name of an upload that is still writing |
| `Witnesses.PushLands` | crates/bincache-ingest/src/upload.rs:117-210 | for every non-empty NAR there is a run from an empty directory that records it |
| `Witnesses.RecordLands` | crates/bincache-ingest/src/ingest.rs:121-155 | and one that goes on to publish any record for it that the text format can carry, so the results above are about runs that serve records |
| `Witnesses.SiblingStranded` | crates/bincache-index/src/index.rs:162-183 | a run in which a delete leaves a published record without a NAR row |
| `Witnesses.RotationLands` | crates/bincache-ingest/src/maintain.rs:100-115 | a run in which a published record is rotated to another key |
| `Stepwise.CallsStayTrue` | crates/bincache-ingest/src/upload.rs:191-210 | whatever calls lead from one state to another by steps, the tables stay true of the disk and no artifact changes; each call below, and a whole session, is such |
| `Stepwise.StartUpload` | crates/bincache-ingest/src/ingest.rs:104-115 | opening an upload, or failing to, is a sequence of protocol steps |
| `Stepwise.WriteChunk` | crates/bincache-ingest/src/upload.rs:137-145 | so is writing a chunk, or failing to and dropping the upload |
| `Stepwise.FinishUpload` | crates/bincache-ingest/src/upload.rs:149-164 | so is finishing, with the write of the buffer or of the tail cut anywhere |
| `Stepwise.VerifyUpload` | crates/bincache-ingest/src/upload.rs:179-188 | so is the gate, either way |
| `Stepwise.StoreUpload` | crates/bincache-ingest/src/upload.rs:196-210 | so is the commit: the rename and the row, the rename alone, or neither |
| `Stepwise.DropUpload` | crates/bincache-store/src/nar.rs:254-266 | so is the end of an upload nobody will finish |
| `Stepwise.AbortUpload` | crates/bincache-ingest/src/upload.rs:215-219 | so is an abort |
| `Stepwise.PublishRecord` | crates/bincache-ingest/src/ingest.rs:121-155 | so is a publish: both transactions or no effect |
| `Stepwise.SweepAll` | crates/bincache-store/src/nar.rs:148-156 | so is the sweep, whole or cut short |
| `Stepwise.DeleteRecord` | crates/bincache-ingest/src/maintain.rs:53-62 | so is a delete |
| `Stepwise.RotateAll` | crates/bincache-ingest/src/maintain.rs:100-115 | so is a rotation, ended or stopped after any batch |
| `Protocols.RenamedKeeps` | crates/bincache-store/src/nar.rs:217-238 | a rename over an existing location leaves every artifact's bytes as they were, given no collision among committed contents |
| `Protocols.StageStep` | crates/bincache-store/src/nar.rs:106-115 | an upload that starts takes a name no upload is still writing under, leaves every such upload's file alone and keeps the invariant |
| `Protocols.WrappedNameTruncates` | crates/bincache-store/src/nar.rs:108-115 | were one still writing under it, its file would be emptied |
| `Protocols.WriteStep` | crates/bincache-store/src/nar.rs:209-215 | any part of a write reaching the file keeps the invariant |
| `Protocols.RenameStep` | crates/bincache-ingest/src/upload.rs:196-204 | committing a verified upload keeps the invariant and every artifact |
| `Protocols.RecordStep` | crates/bincache-ingest/src/upload.rs:206-209 | the row written after the rename is true of the renamed bytes |
| `Protocols.ReadStep` | crates/bincache-ingest/src/ingest.rs:121-150 | the record a publish builds from the row it read is true of the disk |
| `Protocols.PublishStep` | crates/bincache-ingest/src/ingest.rs:152-154 | committing it later keeps the invariant, whatever happened to that row in between |
| `Protocols.DeleteStep` | crates/bincache-index/src/index.rs:162-183 | dropping a record with its NAR row keeps every other row true |
| `Protocols.RotateStep` | crates/bincache-ingest/src/maintain.rs:105-108 | the re-signed listing covers every row, says what the rows say, and verifies under the new key |
| `Protocols.BatchStep` | crates/bincache-ingest/src/maintain.rs:110-113 | committing one batch keeps every row true and leaves exactly the rest of the listing to do |
| `UploadStates.FedTracks` | crates/bincache-ingest/src/upload.rs:137-140 | absorbing a chunk keeps staged bytes plus buffer equal to the encoder's output, and the NAR hasher and size those of everything received |
| `UploadStates.DrainedTracks` | crates/bincache-ingest/src/upload.rs:167-174 | draining moves the buffer to the file and the file hasher with it |
| `UploadStates.FlushedTracks` | crates/bincache-ingest/src/upload.rs:149-164 | after the flush both hashes and both sizes are the true ones |
| `UploadStates.GateTracks` | crates/bincache-ingest/src/upload.rs:179-188 | the gate opens exactly for a non-empty body with the expected hash |
| `UploadStates.VerifiedDescribes` | crates/bincache-ingest/src/upload.rs:201-209 | the entry of a verified upload describes the stored bytes, which inflate to what was received |
| `Uploads.Upload.Write` | crates/bincache-ingest/src/upload.rs:137-145 | absorbs the chunk, touches only its own staging file, and leaves less than the drain threshold buffered |
| `Uploads.Upload.Drain` | crates/bincache-ingest/src/upload.rs:167-174 | empties the encoder's buffer into the staging file |
| `Uploads.Upload.Finish` | crates/bincache-ingest/src/upload.rs:149-164 | ends with the whole encoding on disk and the final hashes and sizes |
| `Uploads.Upload.Verify` | crates/bincache-ingest/src/upload.rs:179-188 | passes exactly when the received bytes are non-empty and hash to the target, and says which test failed |
| `Uploads.Upload.Store` | crates/bincache-ingest/src/upload.rs:196-210 | on success the artifact is in place and its true row recorded; on failure no row was written |
| `Uploads.Upload.Abort` | crates/bincache-ingest/src/upload.rs:216-218 | removes the staging file and nothing else |
| `Stores.StagingNameInjective` | crates/bincache-store/src/nar.rs:109-111 | within a process different ordinals give different staging names |
| `Disks.LocationInjective` | crates/bincache-store/src/nar.rs:87-91 | distinct artifacts live at distinct locations |
| `Stores.Store.Stage` | crates/bincache-store/src/nar.rs:108-115 | takes the next ordinal and creates an empty staging file under it |
| `Stores.Store.Read` | crates/bincache-store/src/nar.rs:95-104 | opens exactly the artifact at the URL's location, with its length |
| `Stores.Store.Scan` | crates/bincache-store/src/nar.rs:130-144 | reports every file once, as the artifact its name spells or as unrecognised |
| `Stores.Store.SweepStaging` | crates/bincache-store/src/nar.rs:148-156 | removes every staging name, leaves files and artifacts alone, and counts what it removed |
| `Stores.ReadAt` | crates/bincache-store/src/nar.rs:185-190 | returns a front part of what follows the offset, empty only at the end |
| `Stores.Staged.Write` | crates/bincache-store/src/nar.rs:209-215 | appends at the offset and advances it; a failure writes some front part and advances nothing |
| `Stores.Staged.Commit` | crates/bincache-store/src/nar.rs:222-238 | renames into place, or leaves the artifacts as they were |
| `Stores.Staged.Abort` | crates/bincache-store/src/nar.rs:242-249 | unlinks the staging name and marks the upload done |
| `Stores.Staged.Drop` | crates/bincache-store/src/nar.rs:254-266 | unlinks at most an uncommitted staging name |
| `IndexTables.RepublishAppend` | crates/bincache-index/src/index.rs:145-158 | writing two batches one after the other is writing them as one |
| `IndexTables.RepublishListed` | crates/bincache-index/src/index.rs:145-158 | rewriting a front part of the listing changes exactly those rows and no key |
| `IndexTables.RotationPrefix` | crates/bincache-ingest/src/maintain.rs:100-115 | after any number of rewritten records keys and all other fields are unchanged, the rewritten ones verify under the new key and the rest are as they were |
| `IndexTables.RotationCompletes` | crates/bincache-ingest/src/maintain.rs:100-115 | a completed or repeated rotation leaves every record verifying under the new key |
| `IndexTables.DeleteStrandsSiblings` | crates/bincache-index/src/index.rs:162-183 | a delete leaves some record without a NAR row exactly when the record it removes shares its NAR |
| `Indexes.Index.NarInfo` | crates/bincache-index/src/index.rs:76-88 | reads the row under the key |
| `Indexes.Index.Nar` | crates/bincache-index/src/index.rs:91-102 | reads the row under the NAR hash |
| `Indexes.Index.PutNar` | crates/bincache-index/src/index.rs:107-120 | records one NAR row or changes nothing |
| `Indexes.Index.Publish` | crates/bincache-index/src/index.rs:124-135 | writes the record under its own store path hash or changes nothing; only a failed transaction fails |
| `Indexes.Index.Republish` | crates/bincache-index/src/index.rs:145-158 | writes all the records or none |
| `Indexes.Index.Unpublish` | crates/bincache-index/src/index.rs:162-183 | removes the record and the row of its NAR, and returns the record |
| `Indexes.Index.Records` | crates/bincache-index/src/index.rs:188-198 | lists every record exactly once |
| `Indexes.Index.Count` | crates/bincache-index/src/index.rs:200-205 | counts the records |
| `Ingests.PreparedFromRow` | crates/bincache-ingest/src/ingest.rs:121-151 | a published record's hash, size and compression are the row's, its identity the client's, its one signature this server's |
| `Ingests.PreparedFaults` | crates/bincache-ingest/src/ingest.rs:121-155 | whatever keeps a body from becoming a record is the client's fault, so the client is told |
| `Ingests.Ingest.Receive` | crates/bincache-ingest/src/ingest.rs:104-115 | refuses a compressed target before touching disk, else opens an empty upload expecting the target's hash |
| `Ingests.Ingest.Publish` | crates/bincache-ingest/src/ingest.rs:121-155 | commits exactly the prepared record, or reports the reason and changes nothing; a client whose body can be prepared is refused only when the index fails |
| `Maintain.Delete` | crates/bincache-ingest/src/maintain.rs:53-62 | forgets the record and its NAR row, and says whether there was one |
| `Maintain.Reconcile` | crates/bincache-ingest/src/maintain.rs:66-91 | comparing rendered names finds what comparing by value would, in both directions |
| `Maintain.CommitBatches` | crates/bincache-ingest/src/maintain.rs:110-113 | however it ends, whole batches of the listing are committed and nothing else |
| `Maintain.Rotate` | crates/bincache-ingest/src/maintain.rs:100-115 | the table is the old one with a front part of its listing re-signed; on success all of it, and the count returned is the table's size |
| `Base32.Encode` | crates/bincache-core/src/base32.rs:44-56 | the sliding-window loop computes the base-32 digits of the bytes' little-endian value |
| `Base32.Decode` | crates/bincache-core/src/base32.rs:60-79 | the in-place `\|=` loop computes the specified value or the specified error, with no index out of range |
| `Base32.PlaceDigit` | crates/bincache-core/src/base32.rs:66-76 | the two or-assignments of one digit leave the bytes spelling one character more, or say what overflows |
| `Base32.WindowIsDigit` | crates/bincache-core/src/base32.rs:46-54 | the two-byte window shifted and masked is digit (V / 32^i) % 32 |
| `Base32.CharacterIsDigit` | crates/bincache-core/src/base32.rs:44-56 | the character at reversed index i is digit (V / 32^i) % 32 |
| `Base32.AssembleStep` | crates/bincache-core/src/base32.rs:64-76 | one turn of the decoding loop adds digit times 32^i, on bits that were clear |
| `Base32.AssembleLast` | crates/bincache-core/src/base32.rs:71-75 | the last byte's turn, where a non-zero high part is the overflow |
| `Base32.DecodeOfEncode` | crates/bincache-core/src/base32.rs:44-79 | decoding an encoding gives the bytes back, for every width |
| `Base32.EncodeOfDecode` | crates/bincache-core/src/base32.rs:44-79 | decoding succeeds exactly on alphabet text of the right length whose value fits the width, and re-encoding gives the text back |
| `Base32.EncodeInjective` | crates/bincache-core/src/base32.rs:44-56 | two byte strings with one spelling are equal |
| `Base32.LeadingCharacter` | crates/bincache-core/src/base32.rs:64-76 | a 52-character digest is accepted exactly when it starts with `0` or `1` |
| `Base32.StoreHashNeverOverflows` | crates/bincache-core/src/base32.rs:60-79 | a 32-character store path hash is accepted exactly when its characters are in the alphabet |
| `Base32.EncodedShape` | crates/bincache-core/src/base32.rs:39-56 | an encoding has `text_len` alphabet characters |
| `Base64.DecodeOfEncode` | crates/bincache-core/src/sign.rs:65-74 | base64 text reads back, for every byte string |
| `Base64.GroupExactly` | crates/bincache-core/src/sign.rs:65-74 | four characters decode exactly as the one to three octets whose encoding they are, with no bits left over |
| `Base64.DecodeExactly` | crates/bincache-core/src/sign.rs:65-74 | what decodes is encodings of up to three octets each, one after another, and to those octets |
| `Hex.DecodeExactly` | crates/bincache-core/src/hash.rs:86-103 | what decodes is the lowercase encoding, in either case |
| `Digests.ParseOfShow` | crates/bincache-core/src/hash.rs:86-118 | a rendered digest reads back |
| `Digests.ParseExactly` | crates/bincache-core/src/hash.rs:86-103 | a text is read as a digest exactly when it is one of its three spellings, bare or after either prefix |
| `Digests.ParseOfBase32Text` | crates/bincache-core/src/hash.rs:80-103 | so does a bare one |
| `Digests.HexReadsBack` | crates/bincache-core/src/hash.rs:86-103 | the hexadecimal spelling names the same digest |
| `Digests.Base64ReadsBack` | crates/bincache-core/src/hash.rs:86-103 | so does the prefixed base64 spelling |
| `StorePaths.NewName` | crates/bincache-core/src/storepath.rs:134-146 | accepts exactly the legal names, unchanged, and refuses the others for a reason they have |
| `StorePaths.NewDir` | crates/bincache-core/src/storepath.rs:194-199 | accepts exactly absolute directories without a trailing slash, and says which of the two a text fails |
| `StorePaths.ParseOfShow` | crates/bincache-core/src/storepath.rs:177-191 | a rendered base name reads back |
| `StorePaths.ShowOfParse` | crates/bincache-core/src/storepath.rs:177-191 | an accepted base name renders back to itself |
| `StorePaths.ParseInOfPrint` | crates/bincache-core/src/storepath.rs:208-219 | a path printed under a directory reads back under it |
| `StorePaths.ParseExactly` | crates/bincache-core/src/storepath.rs:177-191 | a base name is accepted as a path exactly when it is that path's rendering |
| `StorePaths.ParseInExactly` | crates/bincache-core/src/storepath.rs:208-219 | a full path is accepted under a directory exactly when it is the printed path |
| `StorePaths.ShowInjective` | crates/bincache-core/src/storepath.rs:187-191 | distinct paths have distinct base names |
| `Compressions.FromExtensionOfExtension` | crates/bincache-core/src/compression.rs:35-54 | every extension maps back to its algorithm |
| `Compressions.Spellings` | crates/bincache-core/src/compression.rs:24-45 | the protocol name and the file ending that go together |
| `NarUrls.ParseOfName` | crates/bincache-core/src/narurl.rs:41-58 | an artifact's name parses back to it |
| `NarUrls.ParseExactly` | crates/bincache-core/src/narurl.rs:53-58 | a name is read as an artifact exactly when it is a spelling of its digest, `.nar` and its ending |
| `NarUrls.NameInjective` | crates/bincache-core/src/narurl.rs:41-44 | distinct artifacts have distinct names |
| `Signatures.ParseOfShow` | crates/bincache-core/src/sign.rs:65-93 | a signature with a usable name reads back |
| `Signatures.ParseExactly` | crates/bincache-core/src/sign.rs:65-86 | accepted is exactly a non-empty name up to the first colon and 64 octets in base64 after it |
| `NarInfos.Render` | crates/bincache-core/src/narinfo.rs:72-107 | appending line by line yields the record's entries in order |
| `NarInfoParsing.Parse` | crates/bincache-core/src/narinfo/parse.rs:80-95 | the loop over lines stops at the first error and computes the reading that the next four rows say, without it, what it accepts and makes of a body |
| `NarInfoReadings.ParsedExactly` | crates/bincache-core/src/narinfo/parse.rs:80-181 | a body is accepted as a record exactly when every line reads and the lines describe the record: a bare `Key:` is an empty value, unknown keys say nothing, the last value of a field counts, the words of all References lines add up as do the signatures, `unknown-deriver` sets no deriver, a missing Compression is bzip2, and URL, paths, hashes and sizes have to be there |
| `NarInfoReadings.AcceptedExactly` | crates/bincache-core/src/narinfo/parse.rs:80-181 | a body is accepted exactly when each line reads on its own account and the required fields say something |
| `NarInfoReadings.RefusedForCause` | crates/bincache-core/src/narinfo/parse.rs:80-181 | the error is that of the first line that does not read, or names a required field that the lines lack |
| `NarInfoReadings.KeyExactly` | crates/bincache-core/src/narinfo/parse.rs:83-92 | a line speaks of a field exactly when it is `Key: value` or a bare `Key:`, and of the value after it |
| `Text.NumberExactly` | crates/bincache-core/src/narinfo/parse.rs:116-125 | a number is its decimal numeral, after any zeros and at most one plus sign |
| `Text.WordsOfPieces` | crates/bincache-core/src/narinfo/parse.rs:126-131 | however many spaces stand around them, the words are the pieces that are not empty |
| `Text.LinesOfUnterminated` | crates/bincache-core/src/narinfo/parse.rs:80-82 | a last line without a newline is read too, carriage return and all |
| `NarInfoParsing.AcceptedIsRenderable` | crates/bincache-core/src/narinfo/parse.rs:80-181 | every accepted body yields a record the line format can carry |
| `NarInfoRoundTrip.RenderedReadsBack` | crates/bincache-core/src/narinfo/parse.rs:80-181 | reading a rendering gives the record back, up to a trailing carriage return in its CA |
| `NarInfoRoundTrip.RoundTripsExactlyWhenRenderable` | crates/bincache-core/src/narinfo/parse.rs:80-181 | parse after render is the identity exactly on records with usable signature names and a newline-free CA not ending in a carriage return, under a newline-free directory |
| `NarInfoRoundTrip.RenderingNormalises` | crates/bincache-core/src/narinfo/parse.rs:82-142 | for every accepted body, rendering and reading again gives the same record exactly when its CA does not end in a carriage return |
| `NarInfoRoundTrip.CarriageReturnIsLost` | crates/bincache-core/src/narinfo/parse.rs:82-95 | a body for which it does not |
| `Servings.ServedReadsBack` | crates/bincache-core/src/narinfo.rs:72-107 | the octets of a rendered record, parsed, are the record, exactly when its CA does not end in a carriage return |
| `TextRuns.StoredReadsBack` | crates/bincache-ingest/src/ingest.rs:121-155 | in every state of every run whose keys have usable names, what is sent for a stored record parses back to it |
| `TextRuns.ResignedReadsBackExactly` | crates/bincache-core/src/sign.rs:98-105 | what a key signs reads back exactly when its name has no newline |
| `NarInfoVariants.UnknownKeyIgnored` | crates/bincache-core/src/narinfo/parse.rs:80-142 | a line with an unknown key changes neither the record nor the error, wherever it stands |
| `NarInfoVariants.FieldOrderIsFree` | crates/bincache-core/src/narinfo/parse.rs:80-142 | two lines that set different fields may stand in either order: accepted alike, as the same record |
| `Fingerprints.ComputeFingerprint` | crates/bincache-core/src/narinfo.rs:49-60 | the references stand between the commas as full paths, each as often as it is referred to, in ascending order of their octets; which is the order of the base names |
| `Fingerprints.FingerprintAscends` | crates/bincache-core/src/narinfo.rs:49-59 | so they do in every fingerprint that is signed or checked |
| `Order.LeExactly` | crates/bincache-core/src/narinfo.rs:50-52 | the order sorted by: a prefix first, else the smaller octet at the first difference |
| `Fingerprints.AscendingOnce` | crates/bincache-core/src/narinfo.rs:49-59 | any sorting routine gives that text |
| `Fingerprints.ResignedVerifies` | crates/bincache-core/src/narinfo.rs:63-67 | re-signing leaves one signature, which verifies over the unchanged fingerprint |
| `Fingerprints.FingerprintIdentifies` | crates/bincache-core/src/narinfo.rs:49-60 | under any directory, equal fingerprints mean the same path, NAR hash, NAR size and multiset of references, and conversely |
| `Routes.UrlRoutesBack` | crates/bincache-serve/src/route.rs:42-64 | a record's URL, requested, names its artifact |
| `Routes.KeyRoutesBack` | crates/bincache-serve/src/route.rs:42-64 | a store path's narinfo URL names its key |
| `Routes.ResolveExactly` | crates/bincache-serve/src/route.rs:42-64 | a target resolves to a route exactly when what stands before its query or fragment spells the route |
| `Routes.PathOfExactly` | crates/bincache-serve/src/route.rs:43 | that is the longest front part with neither sign in it |
| `Routes.UnknownExactly` | crates/bincache-serve/src/route.rs:44-63 | a target is unknown, as opposed to malformed, exactly when it is absolute and like none of the routes |
| `Ranges.Resolve` | crates/bincache-serve/src/range.rs:49-88 | a partial answer lies within the artifact and has between one and all of its bytes |
| `Ranges.IntRangeDelivers` | crates/bincache-serve/src/range.rs:49-88 | `bytes=a-b` delivers exactly the artifact's positions between the two |
| `Ranges.OpenRangeDelivers` | crates/bincache-serve/src/range.rs:49-88 | `bytes=a-` delivers exactly what lies from a on |
| `Ranges.SuffixRangeDelivers` | crates/bincache-serve/src/range.rs:90-100 | `bytes=-n` delivers exactly the last n positions, or all |
| `Ranges.SingleRangeDelivers` | crates/bincache-serve/src/range.rs:49-100 | a header that is a single range, however its numbers are spelled, delivers exactly the positions it names |
| `Ranges.IgnoredExactly` | crates/bincache-serve/src/range.rs:49-100 | a header is answered with the whole artifact exactly when it is neither a single range nor a position at or past the end followed by junk; the latter is refused |
| `Ranges.JunkIsRefused` | crates/bincache-serve/src/range.rs:71-81 | a header of that family: no range, and refused |
| `Streams.Pump` | crates/bincache-serve/src/handler.rs:330-358 | for any read sizes sends the span's bytes in order, returns how many, never overflows; a failure has sent a front part |
| `Streams.WholeSpanSent` | crates/bincache-serve/src/handler.rs:317-320 | what is sent is as long as the announced length when the file reaches the span's end |
| `Streams.AnswerDelivers` | crates/bincache-serve/src/handler.rs:289-320 | the body is the artifact at the positions asked for, and is marked partial exactly when it is not all of it |
| `Streams.ResumeRebuilds` | crates/bincache-serve/src/handler.rs:289-322 | the first n bytes and the answer to `bytes=n-` make the artifact, for every n |
| `Http.HeadLen` | crates/bincache-serve/src/http.rs:98-103 | the shortest prefix ending in a blank line, or none when there is none |
| `Http.HeadLenStable` | crates/bincache-serve/src/http.rs:98-103 | a complete head stays the head whatever follows |
| `Http.Parse` | crates/bincache-serve/src/http.rs:106-135 | the loop over header lines computes the fold of their meanings, stopping at the first error |
| `Http.HeadersAreDeclared` | crates/bincache-serve/src/http.rs:131-169 | over any header list, the framing is the one the list declares, with the last Content-Length's value, and a list declaring both framings is refused; keep-alive, expectation, range and authorization are what the last header of each name says |
| `Http.AcceptedExactly` | crates/bincache-serve/src/http.rs:131-169 | a header list is accepted exactly when every non-empty line has a colon, every Content-Length is a number, and the two framings do not both occur |
| `Http.HeadAcceptedExactly` | crates/bincache-serve/src/http.rs:106-169 | a head is accepted exactly when it is UTF-8, starts with a request line, and its header list is accepted |
| `Unicodes.Utf8Exactly` | crates/bincache-serve/src/http.rs:107 | octets are text exactly when they encode code points that are no surrogates |
| `Http.CrlfExactly` | crates/bincache-serve/src/http.rs:108 | the lines are what stands before each return and newline, and what stands after the last, if anything |
| `Text.TrimExactly` | crates/bincache-serve/src/http.rs:139 | all the white space at both ends of a value goes, and nothing else |
| `Unicodes.SpacesExactly` | crates/bincache-serve/src/http.rs:139 | white space is what Unicode calls so |
| `Http.RepeatedLengthCounts` | crates/bincache-serve/src/http.rs:140-148 | two lengths that disagree are accepted and the second counts |
| `Http.RequestLineReads` | crates/bincache-serve/src/http.rs:106-125 | a known method, a target and an HTTP/1 version, one space apart, are accepted as a persistent bodyless request |
| `Http.RequestLineIsSpelled` | crates/bincache-serve/src/http.rs:106-125 | and nothing else is accepted |
| `Connections.Connection.Fill` | crates/bincache-serve/src/connection.rs:121-130 | moves octets from the stream to the buffer, losing and reordering none |
| `Connections.Connection.Head` | crates/bincache-serve/src/connection.rs:51-66 | takes the shortest complete head off the stream, whatever the fragmentation, reports each failure only for its reason, takes a head that is all there however long it is, and does not read a stream over the limit to its end |
| `Connections.Connection.Body` | crates/bincache-serve/src/connection.rs:70-79 | takes exactly the declared octets |
| `Connections.Connection.Chunk` | crates/bincache-serve/src/connection.rs:84-98 | takes a non-empty front part of what is owed and accounts for it |
| `Connections.Connection.Discard` | crates/bincache-serve/src/connection.rs:102-108 | takes exactly the declared octets |
| `Connections.Connection.Write` | crates/bincache-serve/src/connection.rs:112-117 | sends all, or a front part on failure |
| `Handlers.Cache.Answer` | crates/bincache-serve/src/handler.rs:479-491 | closes exactly when it leaves a body unread |
| `Handlers.Cache.Refuse` | crates/bincache-serve/src/handler.rs:498-517 | sends a bad request that says why, or a bare server error, by whose fault it is, with the same closing rule |
| `Handlers.Cache.Send` | crates/bincache-serve/src/handler.rs:519-533 | announces the body's length, and withholds the body from a `HEAD` |
| `Handlers.Cache.ReadNarinfo` | crates/bincache-serve/src/handler.rs:192-217 | answers the rendered row under the key, or a miss; what it sends parses back to the row, if the line format carries it |
| `Handlers.Cache.Probe` | crates/bincache-serve/src/handler.rs:237-267 | answers an uncompressed name from the index and any other from the disk |
| `Handlers.Cache.Stream` | crates/bincache-serve/src/handler.rs:269-323 | announces and sends exactly the part of the artifact asked for |
| `Handlers.Cache.FeedChunk` | crates/bincache-serve/src/handler.rs:388-397 | one chunk goes from the connection to the upload, whole and in order |
| `Handlers.Cache.Feed` | crates/bincache-serve/src/handler.rs:388-397 | the upload receives exactly the next Content-Length octets, and its NAR size is that length |
| `Handlers.Cache.Receive` | crates/bincache-serve/src/handler.rs:361-412 | answers `Created` exactly when the body read is non-empty and hashes to the target, with a true row recorded; any other answer leaves the index and the artifacts as they were; a refusal is the one the request, the target or the body deserves, and a bare server error means that something failed |
| `Handlers.Cache.PublishNarinfo` | crates/bincache-serve/src/handler.rs:415-449 | a body that is text and can be prepared is recorded and answered `Created` unless the index fails; a bad request means a body that is no text, or carries the reason it cannot be prepared; otherwise the index is unchanged |
| `Handlers.Cache.RecordBody` | crates/bincache-serve/src/handler.rs:437-448 | the same of a body that was read |
| `Handlers.Cache.Narinfo` | crates/bincache-serve/src/handler.rs:192-217 | as `Handle`, for the narinfo routes |
| `Handlers.Cache.Nar` | crates/bincache-serve/src/handler.rs:219-229 | as `Handle`, for the NAR routes |
| `Handlers.Cache.Handle` | crates/bincache-serve/src/handler.rs:123-160 | ends in an outcome its route allows, having taken off the stream the whole body or none of it; a request that is no push gets exactly the reply the tables and the disk decide and changes neither; a push gets the reply its verdict says, after the interim head if its body was read, or a bare server error after a failure, and has its effect exactly when it is answered `Created`; there is an answer unless something failed or the body broke off; what it did is a sequence of protocol steps |
| `Handlers.LeavesBodyExactly` | crates/bincache-serve/src/handler.rs:479-533 | a request that is no push leaves a body on an open connection exactly when it carries one with a length, keeps the connection, and the cache has what it asks for |
| `Handlers.Cache.ReadReplyMatches` | crates/bincache-serve/src/handler.rs:479-533 | the head of a reply carries the outcome's status and closing, and the length of its body |
| `Handlers.Cache.HeadMatchesGet` | crates/bincache-serve/src/handler.rs:189-191 | a `HEAD` gets the head its `GET` would, length included, and no body |
| `Outcomes.KeptExactly` | crates/bincache-serve/src/handler.rs:479-533 | whatever comes of a request, the connection is kept exactly when the request asks for it and the body was read, or there was none, or the answer was a full one |
| `Outcomes.BodySafeExactly` | crates/bincache-serve/src/handler.rs:479-533 | a request leaves the stream at a message boundary in every outcome exactly when it has no body, closes, is chunked or unroutable, or is a `PUT` of a NAR or narinfo |
| `Sessions.Session` | crates/bincache-serve/src/shard.rs:166-194 | handles heads one after another where the previous request left the stream and in what it left of the cache; goes on only after a keep, and stops only at a close, the end of the stream or an unreadable head; what it writes back is the replies of its log in order, each the one the cache at that time decides, and after them the bare refusal of an unreadable head and nothing else; without a failure underneath only a stream that breaks off ends it in an error; on any octets, what it does to the store and the index is a sequence of protocol steps |
| `Sessions.HandleHead` | crates/bincache-serve/src/shard.rs:187-189 | one head: what `Handle` promises, as an entry of the log |
| `Sessions.AnswersAreTrue` | crates/bincache-serve/src/shard.rs:166-194 | whatever a client sends, every request is handled against tables that are true of the disk, and such are the tables the session leaves |
| `SessionTexts.NarinfosReadBack` | crates/bincache-serve/src/handler.rs:192-217 | every narinfo sent on a connection parses back to the record the tables held when it was asked for, whatever was pushed on the way |
| `SessionTexts.PushedIsServed` | crates/bincache-serve/src/handler.rs:415-449 | the next request for a record that was pushed gets one that agrees with what the client declared and verifies under the server's key |
| `Sessions.HeadsAreTheMessages` | crates/bincache-serve/src/shard.rs:171-193 | on any stream of well-formed messages with safe bodies the heads handled are the messages' own, in order, and an open connection stands at a message boundary |
| `Sessions.AllMessagesHandled` | crates/bincache-serve/src/shard.rs:171-193 | a session that ends cleanly without a close handled every message |
| `Sessions.WholeMessagesNotCut` | crates/bincache-serve/src/shard.rs:171-193 | on such a stream, with heads within the limit, only a failure underneath ends the session in an error |
| `Sessions.BodyServedAsHead` | crates/bincache-serve/src/handler.rs:519-533 | in every session where an unsafe request has an answer, the head its body starts with, if it does start with one, is the second head handled, and a session without failures gets to it |
| `SessionInputs.HeadReads` | crates/bincache-serve/src/http.rs:98-169 | a request for the cache's description that announces a body of any length is one head and reads as that |
| `SessionInputs.InfoBodyServed` | crates/bincache-serve/src/handler.rs:162-173 | two of them, the second announced as the body of the first: every session that sees no failure handles the second, whatever the cache holds |

## Left out

- Connection scheduling, sockets, threads, core pinning and `yield_now`: runtime plumbing; reads and writes are nondeterministic in size and failure.
- Library internals of redb, rkyv, zstd, SHA-256 and ed25519: atomic transactions on two maps, and functions with the laws in `Cryptos`. The record and row encodings of the index are part of this.
- The compression level: part of the encoder that is a parameter. Failing to decode a stored row is one of the faults a read may report.
- Power-loss durability: `commit` does not sync the directory. The model's crashes are process crashes, after which effects that returned survive.
- `Store::remove`: no command calls it, so no step of the protocol does.
- Whether `file_hash` depends on how an upload was cut into chunks: a matter of zstd. The results hold for every chunking.
- Two servers on one data directory: the index lock excludes them, so a step machine has one process at a time.
- The store directory given to `serve` and `rotate` is one and the same in the protocol; the commands take it as separate arguments.
- Protocols.WriteStep: a drain may happen after any chunk, not only past the threshold, so the runs include those of the code; the threshold itself is stated by `Uploads.Upload.Write`.
- Uploads.Upload.Finish: a tail too long for any memory counts as the encoder failing; the program would not get that far.
- Stepwise.PublishRecord: one call at a time; what other requests do between its two transactions is covered by the steps `ReadRow` and `Publish` of the protocol.
- Handlers.Cache.FeedChunk: the loop's test for an empty chunk is not there, as `Chunk` never returns one while something is owed.
- Indexes.Index.Records: rows come in some order; that redb lists them by key is not modelled, and every order is covered.
- Indexes.Index.Publish: a failed commit is taken to have changed nothing.
- Stores.Store.Read: a reader is the content at the time of opening; that an artifact's bytes never change is proved over runs, not per descriptor.
- Sessions.Session: the steps are stated for a process that has nothing else in flight; what other connections do meanwhile is covered by the runs of the protocol, not by this method.
- Sessions.Session: after a failure some octets may follow the replies of the log; which is not said.
- Failures are counted in ghost fields of the connection, the store and the index, which no code reads; an encoder that fails counts as the store.
- Which of several reasons a digest, a signature or a target is refused for: stated for the parts of a narinfo and for names and directories only.
- Sessions.AllMessagesHandled: the stream is finite, as far as the peer sent before closing; bodies of chunked requests are not parsed, as the server closes on them.
- Handlers.Cache.Refuse: the wording of refusals, of response heads and of the metrics page are parameters.
- Tokens, statistics, the watchdog, `nix-cache-info`, the command line and tracing: thin code. Which authorization headers are admitted is a parameter.
- Key files and key generation (crates/bincache-core/src/sign.rs:95-160): keys are values with a name and a seed.
- Payloads of parse errors are kept where the code branches on them and dropped where it only prints them.
