# Verified models of eud-agent

This project models the parts of eud-agent, a map-editing agent for StarCraft: Remastered, whose
guarantees run across several functions, and proves those guarantees with Dafny 4.11. Run
`dafny verify dfyconfig.toml` in this directory.

| area | modules | main results |
|---|---|---|
| Search index | `RagIndex`, `RagIndexFile`, `RagIndexWriter`, `RagMigration`, `RagCorpus`, `RagRows`, `Fnv` | the reader accepts exactly the written form; a migration keeps every vector, text and source and adds only the tier; chunking loses nothing; ids of a row differ |
| Credentials | `TokenRefresh` | any interleaving of callers presents the stored refresh token, stores what the last reply gave, and refreshes at most once while the result stays fresh |
| CHK maps | `ChkSections`, `ChkDigest`, `ChkStrings` | the walker described exactly on any bytes; it returns the sections a file was made of; equal digests mean equal sections; string tables are read back |
| Attachments | `AttachmentStore`, `AttachmentRuns`, `AttachmentNames` | over every run: what is sent is what was staged, one session at most, no loss of a bound attachment, sizes within caps |
| Audio edits | `AudioEffects`, `AudioSources` | what a rendered edit is and when there is one; over every run: write-once records backed by their blobs; the filter can always be built and its fades fit |
| Installers | `FfmpegInstall`, `UvTree`, `UvExtract` | the state after every failure point; the validator accepts exactly the trees its marker describes; when an extracted archive is accepted |
| Native helpers | `ByteSearch`, `TraceInjector`, `IsomReport`, `RawFiles` | exactly which copies of the old name a rewrite leaves; the hand-built JSON reads back; partial transfers lose nothing |
| Run history | `Autonomous` | the history and the counter after any sequence of fingerprints |

`Bytes`, `Codecs`, `Rearranged`, `Text`, `Utf8` and `Wrappers` are shared. Code that updates state is modelled by
classes and loops proved against specification functions; the theorems are lemmas about those
functions and about runs of the state machines built from them. What the operating system, a clock,
the network or a library decides is a parameter: the outcome of each file operation, the bytes a
call moves, how much of a chunk of another process's memory can be read, the time, the server's
replies, `sha` and `decode`.

SHA-256 is an arbitrary function. Where the design relies on its collision resistance the result
says "equal, or these two inputs collide", so no impossible injectivity is assumed.

## Findings

The models follow the code. Where it does not do what its name or comment suggests, a lemma gives the
exact condition.

- A renewed credential is fresh for the next caller only if its lifetime exceeds two minutes: one
  minute is taken off when it is saved and another when it is checked (`TokenRefresh.RenewedIsFreshIff`).
- A refresh token rotated by the server is lost unless the call that asked saves the answer. A call
  dropped or timed out around the answer, before it or after it, ends the session for good
  (`TokenRefresh.DroppedCallStrandsSession`, `TokenRefresh.LostIsForever`). The server honours the
  stored token exactly when no rotation was lost in this way (`TokenRefresh.HonouredUnlessLost`),
  provided it never rotates back to an old token (`TokenRefresh.ReusedTokenIsHonoured`).
- The duplicate check of a turn compares the spelling of attachment ids. Where the file system folds
  case, two spellings of one id are both accepted and the attachment is sent twice
  (`AttachmentRuns.SentOnceIff`, `AttachmentRuns.SpellingsSentTwice`).
- Installing FFmpeg ignores the case of a pinned digest and resolving it does not
  (`FfmpegInstall.InstalledResolvesIff`, `FfmpegInstall.UpperCasePinDoesNotResolve`).
- The uv marker does not pin its own bytes. Other text is accepted in its place exactly when it
  parses to a well-formed marker that says the same of the other files
  (`UvTree.MarkerTextAcceptedIff`, `UvTree.ReorderedMarkerAccepted`); every other file is pinned
  (`UvTree.OneChangeRejected`).
- An archive that extracts without an error is still refused when a directory entry has no file below
  it, or an entry differs from the marker's name in case only (`UvExtract.ExtractedAcceptedIff`).
- Of the instance name at most four copies are rewritten, and none that lies behind the point where
  reading a chunk stopped (`TraceInjector.RewriteInMemory`, `TraceInjector.AllReadIsolates`,
  `TraceInjector.FifthCopyRemains`).
- The CHK walk can revisit headers, and then only its cap of 10,000 sections stops it; it does so
  exactly when some header is reached twice (`ChkSections.NeverEndsIffLoops`,
  `ChkSections.SelfLoopHitsCap`).

## Model

| member | source | states |
|---|---|---|
| RagIndex.IndexExact | ci/migrate_rag_index.rs:323-352 | a file is read as some entries if and only if it begins with their encoding and they are encodable: the reader accepts nothing else and leaves nothing out, for any bytes |
| RagIndex.EntryLayout | ci/build_rag_index.rs:423-430 | at which offsets an entry has its id, its floats, its tier byte and its two strings with their lengths |
| RagIndex.RoundTrip | ci/migrate_rag_index.rs:452-547 | every written index is read back identically, whatever follows it |
| RagIndex.StrictPrefixRejected | ci/migrate_rag_index.rs:258-313 | no strict prefix of a written index is readable |
| RagIndex.VersionsDisjoint | ci/migrate_rag_index.rs:323-338 | no file is readable in two versions |
| Codecs.ManyExact | ci/migrate_rag_index.rs:339-352 | reading n values in a row is exact for the concatenated encodings when reading one is exact |
| Codecs.EncodeManyInjective | src-tauri/src/chk.rs:551-574 | a concatenation of exactly readable, non-empty encodings determines the list |
| RagIndexFile.Cursor.Take | ci/migrate_rag_index.rs:263-278 | a read returns the requested slice or an error with position and remaining size, and never goes past the end |
| RagIndexFile.ReadIndex | ci/migrate_rag_index.rs:323-352 | the cursor-based reader computes the specified parse and reports wrong magic and version |
| Utf8.ValidIsDecodable | ci/migrate_rag_index.rs:299-303 | the byte-level validity check of RFC 3629 accepts exactly the decodable byte strings |
| Utf8.DecodeOfEncode | ci/migrate_rag_index.rs:299-303 | decoding the encoding of a text gives the text |
| Utf8.EncodeOfDecode | ci/migrate_rag_index.rs:299-303 | a decodable byte string is the encoding of what it decodes to |
| RagIndexWriter.WriteIndex | ci/migrate_rag_index.rs:465-508 | it succeeds exactly for encodable entries that fit on the device of a file that could be created; afterwards the file is the encoding, untouched, or rejected by the reader, even when the device fills up at any byte |
| RagMigration.BuildV2Entries | ci/migrate_rag_index.rs:373-450 | the join succeeds exactly when ids are distinct on both sides, the id sets agree and text and source agree id by id; the result is the input in order with the matching tiers |
| RagMigration.JustifiedIsFatal | ci/migrate_rag_index.rs:381-447 | what each refusal reports is true of the input and makes a join impossible |
| RagMigration.Migrate | ci/migrate_rag_index.rs:550-556 | on success the written file reads back as the old entries, unchanged and in order, each with the tier of its corpus chunk; a refusal or a failing create leaves the output alone; a failing write leaves a file the reader rejects |
| RagMigration.StampedFits | ci/migrate_rag_index.rs:428-504 | a joined index is always encodable, so only the device can fail |
| RagMigration.StampedLength | ci/migrate_rag_index.rs:496-503 | the migration adds one byte per entry and nothing else |
| RagMigration.MigratedIsNotV1 | ci/migrate_rag_index.rs:330-338 | a migrated file is refused by the migration |
| Fnv.Hash | ci/build_rag_index.rs:321-328 | the loop computes FNV-1a |
| Fnv.ScrambleInverse | ci/build_rag_index.rs:321-328 | multiplying by the prime modulo 2^64 is undone by multiplying by its inverse |
| Fnv.SuffixKeepsApart | ci/build_rag_index.rs:321-328 | different states stay different whatever common bytes follow |
| Fnv.WindowsKeptApart | ci/build_rag_index.rs:321-328 | windows of up to three bytes, or of up to four digits, that differ lead to different states |
| Fnv.DifferentWindowsDifferentIds | ci/build_rag_index.rs:321-328 | keys of equal length that differ only inside one such window, anywhere, never share an id |
| RagRows.ChunkIdsDistinct | ci/build_rag_index.rs:278-290 | chunk numbers with equally many digits never share an id under one key |
| RagRows.RowIdsDistinct | ci/build_rag_index.rs:240-297 | the same for the entries derived from a row |
| RagRows.ChunkIdsCollideIff | ci/build_rag_index.rs:278-290 | exactly when two chunk numbers of any widths share an id: the hash states before their last digits differ by what those digits differ in |
| RagRows.RowIdsCollideIff | ci/build_rag_index.rs:240-297 | the same for the entries derived from a row |
| RagRows.OneAndTwoDigitIds | ci/build_rag_index.rs:278-290 | a chunk numbered 0 to 9 and one numbered 10 to 99 share an id only if the hash state of the key, with the first of the two digits in it, is one of 126 listed states |
| Fnv.EndingsMeetIff | ci/build_rag_index.rs:321-328 | exactly when two continuations of one state, of any lengths, lead to the same hash |
| Fnv.OneAgainstTwoDigits | ci/build_rag_index.rs:321-328 | one digit and two digits after a common state lead to the same hash for at most 126 of the 2^64 states with the first digit in them |
| RagRows.RowLosesNothing | ci/build_rag_index.rs:240-297 | the entries' texts without the overlaps are the whole text of the row |
| RagRows.RowTextHolds | ci/build_rag_index.rs:250-256 | the text of a row opens with its trimmed title and content and ends with its trimmed comments when there are any |
| RagRows.SameKeyIff | ci/build_rag_index.rs:264-271 | two rows have the same key exactly when they share an id, or without ids an address, or without either the source, file and line |
| RagRows.LabelTellsPart | ci/build_rag_index.rs:258-284 | the label of an entry, which names its row and its part, so that no two entries of a row have the same label |
| RagRows.TierExact | ci/build_rag_index.rs:226-238 | the tier of every source: exactly the listed names, with or without the suffix of a file, are not general |
| Text.TrimExact | ci/build_rag_index.rs:241-252 | trimming takes whitespace off both ends, all of it and nothing else |
| RagCorpus.ChunkText | ci/build_rag_index.rs:299-319 | the loop computes the recursively specified chunks |
| RagCorpus.ChunksReassemble | ci/build_rag_index.rs:299-319 | the first chunk followed by each later one without its overlap is the text |
| RagCorpus.ChunksOverlap | ci/build_rag_index.rs:299-319 | consecutive chunks share exactly the overlap |
| RagCorpus.ChunkSizes | ci/build_rag_index.rs:299-319 | only the last chunk is short and every later chunk adds a character |
| RagCorpus.ChunkCount | ci/build_rag_index.rs:299-319 | the number of chunks, for any size and overlap |
| RagCorpus.ProductionChunkCount | ci/build_rag_index.rs:39-40 | above 2000 characters the count is the ceiling of (n - 200) / 1800 |
| TokenRefresh.RunsPresentStoredToken | src-tauri/src/antigravity_auth.rs:439-529 | in every interleaving each refresh presents the refresh token stored at that moment, and the stored credentials form one chain with an unchanged project |
| TokenRefresh.StoredIsFromReplies | src-tauri/src/antigravity_auth.rs:515-528 | after every run the stored credential has the access token of the last saved reply and its expiry less a minute, the last refresh token and the last scopes that were given, and the first project |
| TokenRefresh.SavedCallReturnsStored | src-tauri/src/antigravity_auth.rs:467-493 | a call that saves returns the credential it has stored, with the access token of the reply it was given |
| TokenRefresh.SavedWasGranted | src-tauri/src/antigravity_auth.rs:467-513 | every saved reply is one the server gave in the run |
| TokenRefresh.ReturnsSavedOrLasting | src-tauri/src/antigravity_auth.rs:439-493 | a call that ends with a credential has just saved it, unless it did not force a refresh and the credential lasts for more than another minute |
| TokenRefresh.HonouredUnlessLost | src-tauri/src/antigravity_auth.rs:474-529 | the token about to be presented is the one the server honours exactly when every answer that rotated it was saved by the call that asked, however late the answers came, for a server that issues new tokens; one direction holds for any server |
| TokenRefresh.LostIsForever | src-tauri/src/antigravity_auth.rs:474-529 | after such a loss no request is ever answered again, whatever the callers do |
| TokenRefresh.ReusedTokenIsHonoured | src-tauri/src/antigravity_auth.rs:515-528 | a run that shows why the server has to issue new tokens: two late answers rotate the token away and back |
| TokenRefresh.AccessRefreshesAtMostOnce | src-tauri/src/antigravity_auth.rs:439-472 | callers of `access_credential` save at most one refresh between them while what they saved stays fresh, and afterwards none of them can send another |
| TokenRefresh.RenewedIsFreshIff | src-tauri/src/antigravity_auth.rs:456-466 | when a renewed credential passes the freshness check: a lifetime over 120 seconds and a clock away from its end |
| TokenRefresh.DroppedCallStrandsSession | src-tauri/src/antigravity_auth.rs:474-493 | runs in which one call is dropped just before or just after the server answers it, and the token is lost |
| TokenRefresh.LockIsReleased | src-tauri/src/antigravity_auth.rs:761-765 | whenever a caller waits, the lock is free for it or its owner can move on and gets closer to leaving |
| TokenRefresh.ChainKeepsIdentity | src-tauri/src/antigravity_auth.rs:515-528 | renewing keeps the project, and keeps the refresh token unless the server sends another |
| ChkSections.WalkSections | src-tauri/src/chk.rs:502-533 | the loop computes the specified walk, which `ChkSections.WalkExact` describes on the data, and stops within 10,000 sections |
| ChkSections.WalkExact | src-tauri/src/chk.rs:502-533 | for any bytes the walk is exactly a chain of headers: each section has the four bytes of its name, a body as long as its signed size or the data allows and none for a negative size, and leads to the next header |
| ChkSections.SectionsAreSlices | src-tauri/src/chk.rs:502-533 | for any bytes every section is a header inside the data with a contiguous slice as body |
| ChkSections.NeverEndsIffLoops | src-tauri/src/chk.rs:509-530 | from any position only the cap stops the walk exactly when some header is reached twice |
| ChkSections.ShortFileHitsCapIffLoops | src-tauri/src/chk.rs:502-533 | a file of fewer bytes than the cap is reported with as many sections as the cap exactly when its walk reaches a header twice |
| ChkSections.SelfLoopHitsCap | src-tauri/src/chk.rs:509-530 | eight bytes that are reported as 10,000 sections |
| ChkSections.WalkOfEncoded | src-tauri/src/chk.rs:502-533 | a file made of sections is walked back into them, or into the first 10,000 |
| ChkSections.WalkOfTruncated | src-tauri/src/chk.rs:520-524 | a file cut off within a body is walked into the sections before it and one whose body is what is left |
| ChkSections.CleanIsEncoded | src-tauri/src/chk.rs:502-533 | conversely, a file without negative or overlong sizes is the concatenation of the sections found and a tail too short for a header |
| ChkDigest.AssembleSections | src-tauri/src/chk.rs:535-549 | the loop computes the specified assembly |
| ChkDigest.AssembledByName | src-tauri/src/chk.rs:535-549 | a name is assembled to all its bodies joined if it is UNIT, and to the last one otherwise |
| ChkDigest.LastOneCounts | src-tauri/src/chk.rs:535-549 | a name other than UNIT is assembled to the body of its last section in the file |
| ChkDigest.UnitsJoin | src-tauri/src/chk.rs:535-549 | the UNIT bodies of two stretches of sections are joined in their order |
| ChkDigest.SortedAscends | src-tauri/src/chk.rs:551-574 | the keys are enumerated in strictly ascending order |
| ChkDigest.LessExact | src-tauri/src/chk.rs:551-574 | the order of the keys is by the first character that differs, a prefix before what it begins |
| ChkDigest.CanonicalChkDigest | src-tauri/src/chk.rs:551-574 | the loop computes the specified digest of the assembled sections |
| ChkDigest.DigestLists | src-tauri/src/chk.rs:551-574 | the digest has one hash for each name found, that of what the name is assembled to, and repeats it for names outside the nine mutable sections |
| ChkDigest.CanonicalInjective | src-tauri/src/chk.rs:551-574 | the canonical bytes determine the names and their hashes |
| ChkDigest.EqualOverall | src-tauri/src/chk.rs:551-574 | equal overall digests of two files mean equal assembled sections, or a collision is exhibited |
| ChkDigest.EqualUnsupported | src-tauri/src/chk.rs:21-25 | equal unsupported hashes mean every section outside the mutable list is in both or neither, byte for byte, or a collision is exhibited |
| ChkDigest.MutableChangesAreInvisible | src-tauri/src/chk.rs:21-25 | changes to mutable sections alone never show in the unsupported hashes |
| ChkDigest.DigestIgnoresOrder | src-tauri/src/chk.rs:535-574 | the digest does not change under reordering that keeps same-named sections in order |
| ChkDigest.FileDigestIgnoresOrder | src-tauri/src/chk.rs:502-574 | the same for the files those sections are written in, whatever their tails |
| ChkStrings.TableRoundTrip | src-tauri/src/chk.rs:1043-1087 | a table of count, offsets and NUL-terminated values is read back at 1-based ids in both widths, and 0 or any id past the end names nothing |
| ChkStrings.FileStringsReadBack | src-tauri/src/chk.rs:593-601 | from a whole file to its strings: the last extended table is read back, and the legacy one only where there is no extended table |
| ChkStrings.EntriesInBounds | src-tauri/src/chk.rs:1051-1087 | for any bytes every entry's offset field lies inside the section and no entry contains a NUL |
| ChkStrings.TableExact | src-tauri/src/chk.rs:1051-1079 | for any bytes the number of strings, and each string: what its offset field leads to up to the next NUL or the end, and empty for an offset of 0 or past the end |
| ChkStrings.ThreePassesAreOne | src-tauri/src/chk.rs:893-899 | the three replacement passes are one left-to-right pass over line breaks |
| ChkStrings.LineBreaksIdempotent | src-tauri/src/chk.rs:893-899 | normalising twice is normalising once |
| AttachmentStore.Store.Stage | src-tauri/src/attachment.rs:119-182 | it succeeds exactly for content that may be staged; then one object is new, a draft of this moment without a session, with the given name and bytes and the detected type, and a UUID may be sent in every session and discarded; otherwise nothing changes |
| AttachmentStore.NewDraftIsUsable | src-tauri/src/attachment.rs:164-181 | a new draft may be sent in every session, also on its own, and may be discarded |
| AttachmentStore.Store.LoadAll | src-tauri/src/attachment.rs:184-236 | the checking loop accepts exactly the turns with at most five distinct sendable ids within both totals, and what it reports otherwise is true of the ids |
| AttachmentStore.Store.BindAndResolve | src-tauri/src/attachment.rs:184-281 | a refused turn changes nothing, an accepted one binds every id and returns the items in order; a fault in rewriting metadata leaves exactly the earlier ids bound, a fault in reading content afterwards the current one as well |
| AttachmentStore.BindAllEffect | src-tauri/src/attachment.rs:242-244 | binding gives each id its session, and no object changes but drafts that become owned |
| AttachmentStore.OneItemPerId | src-tauri/src/attachment.rs:242-280 | one item per id comes back |
| AttachmentStore.Store.DiscardDraft | src-tauri/src/attachment.rs:295-302 | it succeeds exactly for a UUID that names an object never sent, and removes that object and nothing else |
| AttachmentStore.Store.DeleteSession | src-tauri/src/attachment.rs:304-321 | exactly the objects whose metadata names the session are removed, the rest is unchanged |
| AttachmentStore.Store.CleanupStaleDrafts | src-tauri/src/attachment.rs:323-340 | exactly the objects without a session and at least a day old are removed, the rest is unchanged |
| AttachmentRuns.PerformAll | src-tauri/src/attachment.rs:119-340 | performing a run on a new store through its methods leads to the state the run theorems speak of |
| AttachmentRuns.SizesAlwaysWithinCaps | src-tauri/src/attachment.rs:432-445 | after every run a recorded size is the content's length, positive and within the cap of the kind |
| AttachmentRuns.BoundStays | src-tauri/src/attachment.rs:295-340 | a bound attachment is untouched by every run that does not delete its own session |
| AttachmentRuns.SessionSetOnce | src-tauri/src/attachment.rs:184-281 | over every run an attachment keeps its content and descriptor, and its session is set at most once |
| AttachmentRuns.AcceptedTurn | src-tauri/src/attachment.rs:447-456 | an accepted turn carries one item per id, at most 512 KiB of text and 128 MiB of audio, and every id is bound |
| AttachmentRuns.SentOnceIff | src-tauri/src/attachment.rs:194-280 | the items an accepted turn returns, over all three lists, have different ids exactly when no two ids asked for name one directory |
| AttachmentRuns.SentIsInOrder | src-tauri/src/attachment.rs:242-280 | the three lists of a turn are a rearrangement of the items of its ids |
| AttachmentRuns.ListsKeepOrder | src-tauri/src/attachment.rs:242-280 | each list has the items of its kind in the order of the ids |
| AttachmentRuns.StagedIsSent | src-tauri/src/attachment.rs:119-281 | from staging to sending, over every run in between: a turn that accepts the id carries the staged name, type and bytes, and the digest of the bytes |
| AttachmentRuns.SpellingsSentTwice | src-tauri/src/attachment.rs:194-203 | two spellings of one id are accepted and resolve to the same item twice |
| AttachmentNames.DecodeHexUtf8 | src-tauri/src/attachment.rs:599-610 | a name comes out exactly when the header spells its UTF-8 bytes in hexadecimal, in either case of the digits |
| AttachmentNames.DecodeHex | src-tauri/src/attachment.rs:599-619 | the digit pairs are read as the bytes they spell, and refused exactly when they spell none |
| AttachmentNames.SpellsOneName | src-tauri/src/attachment.rs:599-610 | a header spells at most one name |
| AudioEffects.EffectsFitIff | src-tauri/src/audio.rs:728-742 | the validation accepts exactly volumes up to 400 percent and fades whose sum fits a positive duration |
| AudioEffects.SecondsExact | src-tauri/src/audio.rs:724-726 | the rendered time reads back to the exact millisecond |
| AudioEffects.AudioFilter | src-tauri/src/audio.rs:706-726 | read back from their text, the stages apply exactly the effects: volume, then a fade-in from the start, then a fade-out that ends with the sound, each only if asked for; an underflow exactly when the fade-out is longer than the sound |
| AudioEffects.FadesFitTheSound | src-tauri/src/audio.rs:706-742 | for validated effects the fades of any such filter lie inside the sound one after the other |
| AudioEffects.ReadBounded | src-tauri/src/audio.rs:1247-1270 | all of the output when it fits the cap and an error otherwise, however it is split |
| AudioSources.Service.RememberImport | src-tauri/src/audio.rs:385-411 | a path that has a record keeps it and nothing changes; otherwise the new record has the identity of the import, default effects, and a blob of its digest and size |
| AudioSources.Service.RememberEdit | src-tauri/src/audio.rs:484-495 | the record under the new path keeps the identity of the original and has the edited effects; a taken path is never overwritten |
| AudioSources.Service.PersistSourceBlob | src-tauri/src/audio.rs:497-544 | exact success condition, copying and renaming included; no stored blob is ever replaced, and on success the blob has the expected digest and the size of the source |
| AudioSources.Service.WriteSourceRecord | src-tauri/src/audio.rs:546-565 | it succeeds exactly for a valid record whose path is free and can be written, or holds the same record with its blob; a failure changes nothing |
| AudioSources.RecordsNeverChange | src-tauri/src/audio.rs:546-565 | over every run a stored record or blob is never replaced or removed |
| AudioSources.RecordsAreBacked | src-tauri/src/audio.rs:385-565 | over every run a record has its blob with size and digest, keeps the identity of an original imported into the project, and its fades fit |
| AudioSources.FiltersAlwaysFit | src-tauri/src/audio.rs:439-482 | over every run the filter can be built with its fades inside the sound: for each stored record at its recorded duration and each rendered edit at the duration probed for it |
| AudioSources.RenderExact | src-tauri/src/audio.rs:439-482 | exactly when an edit is rendered and what comes out: each value as asked for or as recorded, something changed, the recorded effects as previous ones, and fades that fit both durations |
| AudioSources.ManagedSoundExact | src-tauri/src/audio.rs:793-809 | which paths name a managed sound |
| FfmpegInstall.Directory.StageAll | src-tauri/src/bootstrap.rs:540-566 | staging succeeds exactly when every archive, member, declared size, digest and file operation is in order, and touches temporary files only |
| FfmpegInstall.Directory.PublishAll | src-tauri/src/bootstrap.rs:568-582 | publishing succeeds exactly when every rename does; after a failure at member k members 0 to k are absent and the rest untouched |
| FfmpegInstall.Directory.Install | src-tauri/src/bootstrap.rs:535-592 | the exact success condition, the pinned digest of every member on success, untouched final files before publishing, and no archive or temporary file left in any case |
| FfmpegInstall.InstalledResolvesIff | src-tauri/src/bootstrap.rs:431-453 | an installed member resolves exactly when its pinned digest is in lower case |
| FfmpegInstall.UpperCasePinDoesNotResolve | src-tauri/src/bootstrap.rs:431-453 | a member pinned in upper case that is verified and does not resolve |
| UvTree.SafePathStaysInside | src-tauri/src/bootstrap.rs:943-968 | an accepted name is its components joined by slashes, none of which climbs, is absolute, names a drive or holds a backslash or NUL; a name with a backslash or NUL is refused |
| UvTree.SafePathExact | src-tauri/src/bootstrap.rs:943-968 | a name is accepted as some path exactly when it is ordinary components joined by single slashes, with any number of slashes behind |
| UvTree.ValidateManagedUvDir | src-tauri/src/bootstrap.rs:1149-1237 | the validator accepts exactly the trees whose marker is well formed and lists the files with their sizes and digests, with no other file or directory |
| UvTree.WalkTree | src-tauri/src/bootstrap.rs:1023-1054 | the recursive walk adds exactly the files and directories below a directory, with their paths from the root, and fails exactly when a reparse point or special file is anywhere below |
| UvTree.UnderIsLookUp | src-tauri/src/bootstrap.rs:1023-1054 | what listing directory by directory finds is what looking up paths component by component finds |
| UvTree.WalkIsFlat | src-tauri/src/bootstrap.rs:1218-1228 | so the sets of the walk are those of the whole installation by path |
| UvTree.CollectDirectories | src-tauri/src/bootstrap.rs:1201-1217 | the parents collected are the ancestors of listed files |
| UvTree.AcceptedTreesAgree | src-tauri/src/bootstrap.rs:1149-1237 | two accepted trees with the same marker have the same entries, equal or with colliding digests |
| UvTree.OneChangeRejected | src-tauri/src/bootstrap.rs:1149-1237 | adding, removing or changing any one entry but the marker makes an accepted tree rejected, short of a collision |
| UvTree.MarkerTextAcceptedIff | src-tauri/src/bootstrap.rs:1151-1229 | exactly which text is accepted in place of the marker: one that parses to a well-formed marker, with safe paths, that says the same of the other files in any order and spelling, and tells its own size and digest right if it lists itself |
| UvTree.ReorderedMarkerAccepted | src-tauri/src/bootstrap.rs:1151-1229 | a marker that lists the first file last is accepted in place of the marker |
| UvExtract.Staging.EnsurePlainDirectory | src-tauri/src/bootstrap.rs:995-1021 | it succeeds exactly when nothing on the way is other than a directory, and then adds exactly the missing ones |
| UvExtract.Staging.ExtractManagedUvArchive | src-tauri/src/bootstrap.rs:1059-1147 | the extracted tree with the marker built from it; once the marker is in place the archive is accepted exactly under the condition below, and the executable returned |
| UvExtract.ExtractedAcceptedIff | src-tauri/src/bootstrap.rs:1059-1147 | the validator accepts what was extracted exactly when the marker is at most 64 KiB, every directory entry has a file below it, and no entry takes the marker's place under another spelling |
| UvExtract.JoinedIsSafe | src-tauri/src/bootstrap.rs:1121-1136 | a path written into the marker is read back as the components it was made of |
| ByteSearch.FindAll | native/trace_injector.rs:330-347 | the matches are leftmost-greedy occurrences, with none left over below the limit |
| ByteSearch.GreedyIsUnique | native/trace_injector.rs:330-347 | there is one such list |
| ByteSearch.Spaced | native/trace_injector.rs:330-347 | the matches ascend and are disjoint |
| ByteSearch.AllFoundIff | native/trace_injector.rs:330-347 | for a needle without borders the matches are all occurrences exactly when there are at most `limit` |
| ByteSearch.RewriteRemovesExactly | native/trace_injector.rs:374-380 | overwriting the slots removes exactly the matches and no new occurrence forms, for any replacement foreign to the needle |
| TraceInjector.RenamingIsApt | native/trace_injector.rs:363-377 | the concrete name and suffix meet that condition for every process id, with slot 52 of 72 bytes and equal lengths |
| TraceInjector.RenamedApart | native/trace_injector.rs:370-377 | different process ids give different names |
| TraceInjector.SlotRenames | native/trace_injector.rs:363-378 | what is written turns the name's last word into the suffix and keeps the rest |
| TraceInjector.VisibleRewritten | native/trace_injector.rs:353-381 | writing the slots in memory writes them in what can be read, even across unreadable bytes |
| TraceInjector.RewriteIsolates | native/trace_injector.rs:349-382 | reading again would show the old name exactly when more than four copies could be read before, and every match as the new name |
| TraceInjector.RewriteInMemory | native/trace_injector.rs:349-382 | which copies remain in memory: all but the matches, and but one that begins in an unread byte where a match was read to end; with at most four copies read, exactly those not read in full remain but for that case |
| TraceInjector.AllReadIsolates | native/trace_injector.rs:349-382 | when everything was read, no copy remains in memory exactly when there were at most four |
| TraceInjector.FifthCopyRemains | native/trace_injector.rs:349-382 | of five copies in a row one is left in memory, although everything was read and written |
| TraceInjector.NearMiss | native/trace_injector.rs:330-380 | a copy in memory overlaps the slot of a match read elsewhere in its first byte at most |
| TraceInjector.Client.ReadImage | native/trace_injector.rs:353-358 | chunk by chunk the image holds the part of each chunk that was copied, and zeros behind it |
| TraceInjector.Client.IsolateInstanceObject | native/trace_injector.rs:349-382 | the same in place for memory and for what can be read of it, with both error codes, and no byte changed outside the slots in any case |
| IsomReport.ErrorReport | native/isom/isom_capi.cpp:327-345 | the loop computes the specified report |
| IsomReport.ReadEscaped | native/isom/isom_capi.cpp:327-345 | reading by the string grammar of RFC 8259, section 7, takes back what was escaped, whatever follows |
| IsomReport.ReportReadsBack | native/isom/isom_capi.cpp:327-345 | the report is one JSON object of three members whose error field is the message without dropped control bytes |
| IsomReport.KeptWholeIff | native/isom/isom_capi.cpp:339-341 | the message comes back whole exactly when it has no control byte but newline, return and tab |
| IsomReport.ReportsApart | native/isom/isom_capi.cpp:327-345 | equal reports come from messages that differ at most in dropped bytes |
| RawFiles.File.WriteAllBytes | native/isom/isom_capi.cpp:85-104 | exact success condition; success stores exactly the data for any split, failure leaves a prefix |
| RawFiles.File.ReadAllBytes | native/isom/isom_capi.cpp:108-148 | exact success condition; success returns the whole file for any split |
| RawFiles.ProgressCompletes | native/isom/isom_capi.cpp:93-101 | transfers complete for every split as long as no call fails or stalls |
| RawFiles.WriteThenRead | native/isom/isom_capi.cpp:85-148 | what was written is read back |
| Autonomous.AutonomousRunState.RecordProgressFingerprint | src-tauri/src/autonomous.rs:194-212 | keeps the list and the counter those of the whole history, and reports whether the fingerprint is new |
| Autonomous.RecordAll | src-tauri/src/autonomous.rs:194-212 | after any sequence the list is its last 16 and the counter the trailing run less one, saturating at the 32-bit maximum |
| Autonomous.TrailingRunIsLongest | src-tauri/src/autonomous.rs:194-212 | the trailing run consists of equal fingerprints and cannot be extended |

## Left out

- Network, OAuth login, process spawning, window and signature calls, and the panel: input and output, or user interface.
- The embedding model and vector normalisation: floating point and an unseen library; an `f32` is its bit pattern.
- Reading the corpus files and their JSON: the rows are given, as are parsed marker, record and metadata files.
- Buffering of the index writer: a failed write is taken to leave a prefix of what was written so far.
- The digest side file of a built index, and the check of its length fields against `usize`.
- RagRows.RowIdsDistinct: not stated for numbers of different widths or from 10000 on, whose ids may collide for some keys; `RagRows.RowIdsCollideIff` says exactly when. Ids of different rows, whose keys differ, are 64-bit hashes that can collide, and the join refuses duplicates.
- TokenRefresh: login and logout do not take the lock and are not interleaved with refreshes; a failed save is taken to leave the old secret; the build-time client identity is assumed present.
- TokenRefresh.HonouredUnlessLost: that a lost token is not honoured is stated for servers that never rotate back to an old token, because it is false otherwise.
- Kind detection of images and audio, display name cleaning and UUID syntax of attachments: parameters.
- AttachmentStore.Store.Stage: the identifier is fresh, as a random UUID is assumed to be.
- Changes to the attachment disk from outside the store.
- Removals of files and directories are assumed to succeed, in the stores and in the installers.
- AudioSources.Service.PersistSourceBlob: a failed rename counts as a failure, also where another process has just stored the same blob; reading a stored record or blob does not fail.
- FFmpeg runs and probing, which are an outcome and a duration.
- AudioEffects.AudioFilter: the text around the numbers of a filter stage, and the commas between stages.
- AudioEffects.ReadBounded: the deadline, and read errors of the pipe.
- FfmpegInstall.Directory.Install: member names are distinct, as in the bundled manifest; each file operation succeeds or fails once per member. The length of what was extracted is not promised: only the size a ZIP declares is compared, and the digest pins the content.
- UvTree.ValidateManagedUvDir: lower-casing is assumed to agree with the case folding of the file system, so that no two names of a directory fold together; reading a directory does not fail.
- UvExtract.Staging.ExtractManagedUvArchive: which entries make extraction itself fail is not characterised; the staging directory starts empty, sorting the files is any rearrangement, and writing a marker and parsing it is taken to be a round trip.
- Publication of the uv directory, where three or more processes can race.
- Decoding CHK text, and its encoding, which is no inverse: some CP949 byte pairs are valid UTF-8. Decoding is a parameter.
- Players, units, locations, tiles, switches and sounds of a CHK file: fixed-size records read field by field.
- TraceInjector.Client.IsolateInstanceObject: locating the main image, and the length check of the suffix, which `TraceInjector.RenamingIsApt` shows never fires; page protection changes are part of whether a write gets through. Memory does not change between reading and writing: the client is suspended.
- IsomReport.ReportReadsBack: the reader covers objects of strings and truth values without optional white space; a message that is not UTF-8 gives a report that is not, either.
- RawFiles.File.ReadAllBytes: the file does not change while it is open.
- Which of several faults of one input is reported first, except in the join and the installers.
- The wall-time and token limits of an autonomous run: two comparisons.
