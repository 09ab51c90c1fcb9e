# Daemoon: what its saves rest on, verified

Daemoon keeps the saves of several handheld consoles in step through one versioned server.
This project models the parts of it that decide whether a save survives, and proves what
they promise. Run `dafny verify dfyconfig.toml`.

- **Sync protocol** (`SyncTypes`, `SyncMachine`, `SyncSafety`, `SyncConvergence`,
  `SyncDecisions`, `SyncCodes`, `SyncInterleaved`, `SyncLimits`, `SyncClient`). Any number of consoles, one append-only
  server, game edits between syncs, interleaving at request granularity. Every call can
  fail, a failed upload may still have reached the server and a failed commit may have taken
  effect, power can go at any call. `SyncMachine` is the step
  machine; `SyncClient` is the code of `core/src/sync.c` written as methods over one
  console's files and proved to take exactly the machine's steps.
- **Package format** (`Sha256`, `Fips180Constants`, `Fips180Example`, `Payload`, `Archive`,
  `Package`, `Duplicates`). SHA-256 as streaming code over a block buffer against the
  definition of FIPS 180-4, whose constants are proved to be the roots of primes they should
  be and whose digest of "abc" is computed round by round; the bytes the
  payload digest is taken over; pack, hash, verify and unpack, each with its own loop, and
  exactly when they agree.
- **Text layer** (`Utf8`, `Strbuf`, `Json`, `Manifest`, `ManifestFormat`, `OptionalText`,
  `I18n`). The bounded
  string builder against unbounded text, the UTF-8 walker against the grammar of RFC 3629,
  JSON strings and numbers (RFC 8259), the manifest and state file printers and parsers,
  placeholder substitution.
- **Title cache** (`TitleCache`, `TitleCacheRuns`): the table, the file and whole sessions against the lookup
  they stand in for.
- **Small exact algorithms** (`Lz11`, `Tiling`, `BackupSort`, with `Arithmetic`), and their
  formats told apart from the formulas (`Lz11Format`, `TextureFormat`).

`Common` holds bytes, ASCII literals and optional values. Bytes are the integers 0 to 255,
and C strings are byte strings without a NUL.

## What the environment is assumed to do

- The server is a list of payloads, version k at place k - 1. It takes an upload only when
  the sent parent is its latest version (`core/include/daemoon/api.h:64-69`).
- Digests of different payloads of one title differ. `Package.EqualDigestsMeanEqualSaves`
  reduces this to SHA-256 not mapping two different inputs to one digest.
- When a restore asks for a backup, a file that already has the backup's name holds this
  save (`SyncSafety.NameIsOwn`). Names keep twelve digits of a digest, and
  `SyncSafety.SeparatedNamesAreOwn` shows that it is enough for them to tell the payloads
  that are there apart. `SyncClient.Client.BackupLocal` and
  `SyncLimits.RestoreLosesExactlyWhen` do without and say what depends on it.
- `restore_package` reads every NOT_FOUND from the backup as "there is no archive". The runs
  of `SyncSafety` are those in which a backup gets it only from opening an absent archive
  (`HonestRun`); the scan that begins a sync may get it for an archive that is there.
  `SyncLimits.NotFoundLosesASave` is a run in which a save is lost otherwise, and
  `SyncLimits.RestoreLosesExactlyWhen` says for every restore, whatever its calls answer,
  when one is. Only what unattended syncs promise also needs an honest scan
  (`SightedRun`); `SyncLimits.UnattendedReplacesExactlyWhen` says when they break it.
- The game does not write a save while a sync call of that console runs.
- An archive that exists but is empty stops the backup and so the restore. The convergence
  statements are about archives that are not empty.

## Findings

- A spurious NOT_FOUND during the backup of a restore destroys the save
  (`SyncLimits.NotFoundLosesASave`; `platform/common/fs_newlib.c` maps ENOENT to it, and the
  backup opens and renames a file). `SyncLimits.RestoreLosesExactlyWhen`: exactly when
  the save is nowhere else, one of the backup's calls says NOT_FOUND or the backup's name is
  taken by another save, and the archive is then written.
- An unattended sync can replace a save the server does not have, leaving it only in the
  console's backups (`SyncLimits.UnattendedReplacesASave`). Exactly when: opening the archive
  for the scan says NOT_FOUND, the server's version arrives, and the restore gets through
  (`SyncLimits.UnattendedReplacesExactlyWhen`). The Switch backend answers NOT_FOUND for
  every mount that fails (`platform/nx/source/save_backend.c:221-226`).
- A package in which two payload entries are read as the same name can verify and still
  restore to a save with another digest. `Duplicates.VerifiedButNotRestored` gives two: an
  entry repeated, and names that agree up to a NUL, which collecting reads as C strings and
  looking up compares whole. `Duplicates.RestoresExactlyWhenUnique`: without a collision of
  SHA-256 that happens exactly when two entries are read as the same name;
  `Duplicates.NamedTwiceIsNotRestored` needs no such exception when the file is not empty.
- Unpacking a package that does not verify can clear the archive and then give up
  (`Duplicates.UnlocatedIsCleared`, and exactly when: the contract of `Package.Unpack`). A
  verified package is always unpacked whole (`Package.VerifiedUnpacksWhole`), and
  `restore_package` verifies first.
- A file that the backend lists as empty although it is not is packed as an empty file
  without an error, because the zip library does not read a file announced as empty;
  `daemoon_archive_hash_save` refuses the same save (`Package.ListedEmptyIsPackedEmpty`).
  `Package.PackAndHashAgreeExactlyWhen`: they disagree on a save that can be packed exactly
  then.
- The fallback of `daemoon_3ds_cache_name` from a missing ASCII name to a drawable plain one
  is never taken (`TitleCache.FallbackIsNeverTaken`).
- Once the title table is full, a further title gets its name but no icon:
  `TitleCache.OneTitleTooMany` is a session in which that happens, and the contract of
  `TitleCache.Cache.CacheIcon` says exactly when.
- A flush of the title cache that leaves a record out forgets that it did. When that title is
  asked for later in the same launch, the next flush finds nothing to write, and the next
  launch reads the title again (`TitleCacheRuns.RecordLeftOut`; a launch flushes when its
  list is complete and when it ends). The contract of `TitleCache.Cache.Flush` says when
  exactly a flush writes; up to the first one that leaves something out, all that was asked
  for is kept.
- After a mistake in a JSON string the caller's buffer keeps what was decoded, cut at the
  buffer's end and not at a character (`Json.MistakeLeavesHalfACharacter`). From valid UTF-8
  that leaves invalid UTF-8 exactly when more was decoded than fits and the buffer ends
  inside a character (`Json.ReceivedIsValidExactlyWhen`). The two optional texts of a
  manifest are taken from such a buffer, so a manifest in valid UTF-8 can be accepted with a
  title name that is not (`OptionalText.AcceptedNameEndsInsideACharacter`);
  `OptionalText.ParsedTextsAreValidExactlyWhen` says exactly when.

## Model

| member | source | states |
|---|---|---|
| `SyncSafety.DownloadReplacesServerVersion` | core/src/sync.c:39-88 | with a true record, `decide` answers DOWNLOAD only over an absent archive or over contents the server holds |
| `SyncSafety.DispatchKeeps` | core/src/sync.c:918-986 | deciding and starting to act keeps the console invariant, whatever the server answered |
| `SyncSafety.ScanKeeps` | core/src/sync.c:259-290 | reading the state file, opening and hashing the save keep it, for every failure, also a NOT_FOUND for an archive that is there |
| `SyncSafety.PostKeeps` | core/src/sync.c:668-704 | an upload accepted, refused, failed or failed after it landed keeps it, and only adds a version |
| `SyncSafety.BackupKeeps` | core/src/sync.c:405-464 | after the backup stage the save is in the backups or was not there |
| `SyncSafety.WriteKeeps` | core/src/sync.c:568-612 | verifying, writing, committing and closing keep it, for every failure, every half written archive and a commit that took effect and failed |
| `SyncSafety.RecordKeeps` | core/src/sync.c:233-254 | the swap of the state file keeps it, with an atomic rename and with unlink then rename, each of which can fail |
| `SyncSafety.CallKeeps` | core/src/sync.c:884-987 | every call of a sync keeps the invariant, lets the server only grow and loses no backup |
| `SyncSafety.EventKeeps` | core/src/sync.c:884-987 | so does every event: an edit, the start of a sync or a restore, a call, a loss of power |
| `SyncSafety.NextKeeps` | core/src/sync.c:884-987 | one event of one console keeps the invariant of all consoles |
| `SyncSafety.RunKeeps` | core/src/sync.c:700-703 | in every reachable state of every run each record names a version the server really has, with its digest, no version and no backup is empty, and versions were only added |
| `SyncSafety.StartIsTrue` | core/src/sync.c:162-165 | consoles without a record in front of an empty server satisfy the invariant |
| `SyncSafety.SeparatedNamesAreOwn` | core/src/sync.c:446-457 | a file with the name of this save's backup holds this save as soon as twelve digits tell the payloads that are there apart |
| `SyncSafety.SaveChangesOnlyWhenWriting` | core/src/sync.c:597-605 | only unpacking and committing change an archive |
| `SyncSafety.EventSurvives` | core/src/sync.c:828-873 | what the server, the backups or the save held before an event, one of them holds after it |
| `SyncSafety.NothingIsLost` | core/src/sync.c:360-397 | for every policy, race, failure schedule and crash: every payload that was on a console or the server is afterwards in the history, in that console's backups or still its save |
| `SyncSafety.UnattendedKeeps` | platform/3ds/source/autosync_steps.c:14-42 | a run with the autosync options never comes to a question |
| `SyncSafety.SightKeeps` | core/src/sync.c:259-290 | as long as scans are honest, what an unattended sync is about to replace is on the server |
| `SyncSafety.UnattendedRunLosesNothing` | platform/3ds/source/autosync_steps.c:20-42 | every save such a run overwrites was a server version at that moment, over any number of consoles, edits and interleavings in which that console's scans are honest |
| `SyncConvergence.CallsDecreaseRank` | core/src/sync.c:884-987 | every call takes a sync strictly closer to its end, whatever it answers |
| `SyncConvergence.SettleUpload` | core/src/sync.c:668-704 | an undisturbed upload adds the save as a version and records exactly that version |
| `SyncConvergence.SettleWrite` | core/src/sync.c:588-612 | an undisturbed restore ends with the package's payload as the save and, after a download, the record written |
| `SyncConvergence.SettleBackup` | core/src/sync.c:405-464 | an undisturbed backup adds the save under its own name and nothing else |
| `SyncConvergence.SettleDownload` | core/src/sync.c:706-779 | an undisturbed download backs up, replaces the save by the latest version and records it |
| `SyncConvergence.FullSyncIsSyncEffect` | core/src/sync.c:884-987 | a whole undisturbed sync, call by call, is one of three effects chosen by `decide` and the answer to a conflict |
| `SyncDecisions.DecideTable` | core/src/sync.c:39-88 | which local and server states each of the four answers of `decide` belongs to, for all of them |
| `SyncDecisions.DecideMeans` | core/src/sync.c:39-88 | with a true record the four cases are: both hold the same; the server is empty or has what the record names and the save is no longer that; there is no save or it is what an older version's record names; both have moved on |
| `SyncDecisions.SyncDoes` | core/src/sync.c:884-987 | without `decide`: what a whole undisturbed sync leaves of save, record, backups and history, for every save, true record, option and answer |
| `SyncDecisions.SyncActsOnlyWhen` | core/src/sync.c:918-986 | whatever fails and whatever else is answered: a sync adds a version only when the save is to be added or a conflict is answered for it, and replaces the save only when it is to be replaced or a conflict is answered for the server; under DEFER a contested save, its backups and the history stay |
| `SyncDecisions.ContestedIsAsked` | core/src/sync.c:828-848 | under ASK a contested save comes to the question before anything else |
| `SyncConvergence.SyncEffectFacts` | core/src/sync.c:920-986 | after its sync a console is clean and holds the latest version; a version is added only by a dirty console |
| `SyncConvergence.SyncDecreasesMeasure` | core/src/sync.c:39-88 | the pair (dirty consoles, consoles behind) falls at every sync that moves data and never rises |
| `SyncConvergence.QuietMeansEqual` | core/src/sync.c:818-874 | no console's sync would move anything if and only if all hold the latest payload |
| `SyncConvergence.RoundCleans` | core/src/sync.c:884-987 | a round of syncs leaves every visited console clean and dirties none |
| `SyncConvergence.CleanRoundEqualises` | core/src/sync.c:884-987 | once nobody is dirty, a round adds no version and brings every visited console up to date |
| `SyncConvergence.TwoRoundsConverge` | core/src/sync.c:818-874 | two rounds over all consoles, in any order and with any answers, make all of them equal |
| `SyncConvergence.AcceptedOrCommittedIsAgreed` | core/src/sync.c:597-605 | once the server took an upload, or the commit of the latest version took effect, whether reported, failed or cut by power, only the record can be missing; an upload that landed and was answered with VERSION_CONFLICT goes on to re-read |
| `SyncConvergence.RereadingEndsAgreed` | core/src/sync.c:953-958 | that re-reading is a conflict of a save with itself: however it is answered, the rest of the call keeps the save, adds at most a second copy of it, and ends with only the record possibly missing |
| `SyncDecisions.SettleRereading` | core/src/sync.c:953-958 | an undisturbed re-reading after a lost race does what the answer to the conflict says, and nothing under DEFER |
| `SyncDecisions.RereadingDoes` | core/src/sync.c:953-958 | from the re-reading on, with any answers to the rest of the call: under DEFER save, record, backups and history are unchanged; for KEEP_SERVER, or a choice that says so, no version is added; only for KEEP_LOCAL, or a choice of 0, can one be, it is the save, and save and backups stay |
| `SyncDecisions.ResolveDoes` | core/src/sync.c:818-874 | the same of every conflict |
| `SyncDecisions.RefusalEndsTheCall` | core/src/sync.c:937-947 | a question about an upload or a restore answered with no ends the call with CANCELLED and changes nothing |
| `SyncConvergence.AgreedStays` | core/src/sync.c:776-778 | that stays so over every further failure, loss of power and begun sync of that console with honest scans, whatever other consoles do as long as no version is added |
| `SyncConvergence.CrashIsRepaired` | core/src/sync.c:920-931 | the next undisturbed sync then decides NONE, moves nothing and leaves the right record |
| `SyncConvergence.NeverDownloadsOverUnknownContents` | core/src/sync.c:51-88 | in every reachable state, crashed or not, the record is absent or true, and DOWNLOAD is never picked over contents the server does not hold |
| `SyncConvergence.EventRecord` | core/src/sync.c:233-254 | one call or loss of power leaves the record old, new or, on FAT only, absent |
| `SyncConvergence.RecordIsOldNewOrAbsent` | platform/common/fs_newlib.c:191-204 | so does every run from the start of a sync on |
| `SyncInterleaved.StepUsesItUp` | core/src/sync.c:668-704 | in syncs that do not fail, a call adds a version only by using up its console's right to, and no call gives that right |
| `SyncInterleaved.VersionsAreBounded` | core/src/sync.c:884-987 | any interleaving of such syncs, call by call, adds at most one version for every console that was dirty or on its way to an upload |
| `SyncInterleaved.AtMostOneVersionEach` | core/src/sync.c:884-987 | from rest that is at most the number of dirty consoles |
| `SyncInterleaved.BegunStep` | core/src/sync.c:918-986 | a call that adds no version keeps a sync begun after the last version on its way to that version |
| `SyncInterleaved.LastVersionReachesAll` | core/src/sync.c:818-874 | in any interleaving that takes sides: once every console is done with a sync begun after the last version, all of them hold it, whatever calls others were in |
| `SyncLimits.RestoreLosesExactlyWhen` | core/src/sync.c:528-644 | for every restore, by a sync or a person, every digest and every answer to every call: the old save is gone afterwards exactly when the restore began, the server and the backups do not have it, the backup was passed over for a NOT_FOUND or a taken name, and the archive was written |
| `SyncLimits.NotFoundLosesASave` | core/src/sync.c:562-563 | a concrete run in which a NOT_FOUND for an archive that is there loses the only copy of a save |
| `SyncLimits.UnattendedReplacesExactlyWhen` | core/src/sync.c:275-279 | for every unattended sync of a save the server does not have and every answer to its calls: the save is replaced exactly when the scan was told NOT_FOUND, the latest version was delivered, the backup was written or passed over, and the archive was written |
| `SyncLimits.UnattendedReplacesASave` | core/src/sync.c:275-279 | a concrete unattended sync that replaces such a save |
| `SyncClient.ReplayOneMore` | core/src/sync.c:884-987 | one more call extends the machine run a sync has made so far |
| `SyncClient.Client.StateSave` | core/src/sync.c:197-255 | OK leaves exactly the new record; a failure leaves the old one or, without atomic rename, none |
| `SyncClient.Client.PackBackup` | core/src/sync.c:303-403 | the backup appears under its name only on success |
| `SyncClient.Client.BackupLocal` | core/src/sync.c:405-464 | OK means the save is not empty, and it is in the backups if and only if no other payload had taken its twelve digits |
| `SyncClient.Client.VerifyPackage` | core/src/sync.c:568-586 | OK means the payload has the claimed digest and the package is for this platform and title |
| `SyncClient.Client.WritePackage` | core/src/sync.c:588-612 | OK means written, committed and closed; on a transactional archive nothing changes without the commit |
| `SyncClient.Client.RestorePackage` | core/src/sync.c:528-612 | what happens is a prefix of: yes (unless confirmed), backup or skipped backup, verified, written, committed; a backup of an archive that is there is skipped only for a NOT_FOUND of one of its calls, and one taken is among the backups unless its digits were taken; the save changes only after the first three, and OK means all five |
| `SyncClient.Client.DoUpload` | core/src/sync.c:668-704 | OK means the save, not empty, is in the history |
| `SyncClient.Client.DoDownload` | core/src/sync.c:706-779 | OK means the save is the announced version's payload and the record names it |
| `SyncClient.Client.ResolveConflict` | core/src/sync.c:818-874 | takes the machine's steps for the policy or the person's choice |
| `SyncClient.Client.ScanLocal` | core/src/sync.c:259-290 | the local view is that of the save and the state file |
| `SyncClient.Client.SyncTitleWith` | core/src/sync.c:884-987 | the whole call does exactly what the machine does with the same answers and the same uploads by others in between, and ends |
| `SyncClient.ReplayIsSafe` | core/src/sync.c:884-987 | so one whole call, with rivals and failures anywhere in it, loses nothing, and unattended replaces only what the server holds |
| `SyncCodes.FailureEndsTheSync` | core/src/sync.c:884-987 | a call that fails ends the sync with its own code, except the NOT_FOUNDs that are read as "no archive" and the first lost race |
| `SyncCodes.EndsWellOnly` | core/src/sync.c:884-987 | a sync ends with OK only when there is nothing to do, a conflict is left, or the last file is written |
| `SyncCodes.NothingWithoutCommit` | core/src/sync.c:588-612 | on a platform with transactions a call or a loss of power changes the archive only by a commit that took effect, and then to exactly the package's payload |
| `SyncCodes.UploadLands` | core/src/sync.c:668-704 | a call or a loss of power adds a version exactly when an upload on top of the latest version reached the server, and it is what was sent |
| `Sha256.AddIsModular` | core/src/util/sha256.c:43-59 | words add modulo 2^32 |
| `Sha256.RotationIsTwoShifts` | core/src/util/sha256.c:23-23 | a rotation is two shifts that share no bit |
| `Fips180Constants.PrimesAreTheFirst` | core/src/util/sha256.c:9-19 | the table the next two rows use is that of the first 64 primes, in order and complete |
| `Fips180Constants.ConstantsAreCubeRoots` | core/src/util/sha256.c:9-21 | section 4.2.2 of FIPS 180-4 for every entry of the round table: the first 32 bits of the fractional part of the cube root of the prime |
| `Fips180Constants.InitialValuesAreSquareRoots` | core/src/util/sha256.c:79-91 | section 5.3.3: the same of the initial values with square roots |
| `Fips180Example.DigestOfAbc` | core/src/util/sha256.c:23-77 | the digest of "abc" is ba7816bf..15ad, through all 64 rounds |
| `Sha256.FillSchedule` | core/src/util/sha256.c:37-44 | the table holds the message schedule of section 6.2.2 of FIPS 180-4 |
| `Sha256.RunRounds` | core/src/util/sha256.c:46-67 | the eight rotating variables are the 64 rounds of the standard |
| `Sha256.CompressBlock` | core/src/util/sha256.c:31-77 | together they are the compression function |
| `Sha256.HashBlocksSplit` | core/src/util/sha256.c:113-118 | hashing blocks in two goes is hashing them in one |
| `Sha256.Hasher.Update` | core/src/util/sha256.c:93-126 | the context absorbs the data after everything absorbed before, for every size and fill of the block |
| `Sha256.Hasher.TopUp` | core/src/util/sha256.c:101-114 | topping up a begun block takes exactly what fits |
| `Sha256.Hasher.StreamBlocks` | core/src/util/sha256.c:116-121 | whole blocks go straight from the input into the state |
| `Sha256.Hasher.Finish` | core/src/util/sha256.c:128-148 | both padding cases leave the state of the padded message |
| `Sha256.Hasher.Final` | core/src/util/sha256.c:128-155 | the digest written out is that of everything absorbed |
| `Sha256.HashPieces` | core/src/util/sha256.c:79-155 | for every split of a message into updates the result is its one-shot digest |
| `Sha256.PaddingIsInjective` | core/src/util/sha256.c:130-148 | two messages shorter than 2^64 bits never pad to the same blocks |
| `Sha256.PaddingMeans` | core/src/util/sha256.c:130-148 | padding is the message, the byte 0x80, as few zeros as make whole blocks, and eight bytes that weigh the length in bits |
| `Sha256.EightBytesInjective` | core/src/util/sha256.c:144-146 | eight big endian bytes determine a 64 bit number |
| `Sha256.HexInjective` | core/src/util/sha256.c:157-166 | different digests have different hexadecimal forms |
| `Sha256.HexAt` | core/src/util/sha256.c:157-166 | each byte of a digest is two lower case digits, the high one first |
| `Sha256.HexEqual` | core/src/util/sha256.c:179-196 | true exactly for two equal strings of 64 characters |
| `Payload.BeforeIsTotal` | core/src/archive.c:113-120 | the raw byte order compares any two paths one way, and only equal ones neither way |
| `Payload.BeforeMeans` | core/src/archive.c:113-120 | without recursion: a path comes before another exactly when it is a shorter beginning of it or has the smaller byte at the first place where they differ |
| `Payload.SortAscends` | core/src/archive.c:113-120 | of any two sorted paths the earlier one comes first in that sense or is equal |
| `Payload.AnySortIsSort` | core/src/archive.c:223-223 | whatever a sort by path does, the sorted paths are the same list |
| `Payload.ImageFront` | core/src/archive.c:153-164 | the hashed bytes begin with the first file's path, NUL, eight size bytes and contents |
| `Payload.ImageStartsWithTheFirst` | core/src/archive.c:150-164 | the hashed bytes begin with the path that comes first, NUL, eight bytes that weigh its size and its contents, and go on with those of the others |
| `Payload.ImageIsInjective` | core/src/archive.c:150-164 | the hashed bytes are uniquely decodable: equal bytes mean equal lists of files |
| `Payload.ImageIgnoresOrder` | core/src/archive.c:337-367 | they do not depend on the order a backend lists files in |
| `Payload.ImageDeterminesTree` | core/include/daemoon/archive.h:8-16 | two complete listings give the same bytes if and only if the saves are equal |
| `Archive.PathIsSafe` | core/src/archive.c:17-48 | accepts exactly the paths that are short, not empty, printable, relative, without `..`, `//`, `\`, `:` or a trailing slash |
| `Archive.SafePathStaysInside` | core/src/archive.c:13-48 | no component of a safe path is empty or `..` |
| `Archive.SafePathMeans` | core/src/archive.c:17-48 | a path is accepted exactly when it is short, no component is empty, no two dots stand side by side and every byte is printable and neither `\` nor `:` |
| `Archive.Context.Collect` | core/src/archive.c:127-148 | a row is taken exactly when its path is safe and there is room |
| `Archive.Context.List` | core/src/archive.c:217-221 | OK exactly for at most 192 safe paths, and then the table is the listing |
| `Archive.Context.SortTable` | core/src/archive.c:223-223 | the same rows, in the one sorted order |
| `Archive.HashHeader` | core/src/archive.c:150-164 | absorbs path, NUL and eight size bytes |
| `Archive.HashSave` | core/src/archive.c:317-375 | the digest and size of the listed files, or the code of the first row in sorted order that fails: the backend's code for a missing file, IO_ERROR for another size |
| `Archive.HashStartsWithTheFirst` | core/src/archive.c:337-367 | so the digest `hash_save` answers is that of bytes beginning with the least path |
| `Archive.PackContents` | vendor/miniz/miniz.c:6662-6690 | the zip library takes a file exactly when it is not more than was announced, and does not read one announced as empty |
| `Archive.Pack` | core/src/archive.c:198-315 | the container of the sorted files as read and the completed manifest, or the code of the first row that fails (missing, more than listed, less than listed), or an invalid manifest |
| `Archive.PackedLayout` | core/src/archive.c:225-312 | a packed container has one entry `payload/` and path for each listed file, first paths first, and `manifest.json` at the end |
| `Archive.FaultFound` | core/src/archive.c:337-362 | the first row that fails decides the code, however rows with equal paths are ordered |
| `Archive.HashIsDigest` | core/src/archive.c:289-290 | what pack puts into the manifest is a well formed digest |
| `Package.CollectPayload` | core/src/archive.c:471-512 | OK exactly when every entry, its name read as a C string, is a directory, the manifest or a safe payload path and at most 192 are payload; the table is then the sorted payload |
| `Package.EntryMeans` | core/src/archive.c:471-512 | every entry but directories and `manifest.json` is payload, and is taken exactly when its name is `payload/` and a safe path |
| `Package.LocateIsFirst` | core/src/archive.c:566-572 | a name is located at the first entry that has it |
| `Package.LongNames` | core/src/archive.c:478-499 | a name is read up to 511 bytes and up to its first NUL, whatever stands behind |
| `Package.ManifestIsParsed` | core/src/archive.c:428-453 | reading the manifest of a package is parsing the first entry of that name, however long it is |
| `Package.Verify` | core/src/archive.c:528-599 | OK exactly when every row has an entry of its whole name that extracts to the announced size, and digest and total are the manifest's; CHECKSUM_MISMATCH exactly when only the last fails |
| `Package.Unpack` | core/src/archive.c:620-692 | OK exactly when all rows can be read, and then the archive holds exactly the package's files whatever it held before; a package refused while collecting changes nothing, and one with an unreadable row leaves the rows before it |
| `Package.VerifiedUnpacksWhole` | core/src/archive.c:528-692 | what verifies is unpacked whole |
| `Package.VerifiedPackageRestores` | core/src/archive.c:528-692 | a package with unique names that verifies and is unpacked into any save hashes to exactly the manifest's digest and size, for every listing order |
| `Duplicates.RestoresExactlyWhenUnique` | core/src/archive.c:566-572 | for every package that verifies: hashing the restored save gives the manifest's digest and size if and only if no two payload entries are read as the same name, or SHA-256 collides on the two different inputs and the sizes agree |
| `Duplicates.NamedTwiceIsNotRestored` | core/src/archive.c:566-572 | a repeated file that is not empty makes the restored save smaller than the manifest says, whatever the digests do, as long as the sizes add up to less than 2^64 |
| `Duplicates.VerifiedButNotRestored` | core/src/archive.c:483-499 | two concrete packages, one with an entry repeated and one with names that agree up to a NUL, are read and verified and restore to half the size their manifest says |
| `Duplicates.UnlocatedIsCleared` | core/src/archive.c:636-660 | a concrete package that does not verify and that unpacking clears the archive for |
| `Package.PackReadsExactlyWhen` | core/src/archive.c:236-283 | pack does not object to the files exactly when no path is listed with two sizes and each listed file is there and has its size or is listed as empty |
| `Package.PackSucceedsWhenValid` | core/src/archive.c:295-298 | packing succeeds exactly when the listing is acceptable, the files are read as listed and the completed manifest is valid |
| `Package.PackedPackageVerifies` | core/src/archive.c:198-315 | what pack makes of a save listed once per file verifies, unpacks to the files as they were read, the same map when the listed sizes are right, and holds the same manifest |
| `Package.PackAndHashAgreeExactlyWhen` | core/src/archive.c:265-281 | packing and hashing agree on a save that can be packed exactly when every file listed as empty is |
| `Package.ListedEmptyIsPackedEmpty` | core/src/archive.c:265-281 | a save with one byte that is listed as empty is refused by hash_save and packed as an empty file |
| `Package.EqualDigestsMeanEqualSaves` | core/include/daemoon/archive.h:8-16 | equal digests mean equal saves or a collision of SHA-256 on two different inputs |
| `Utf8.SeqLen` | core/src/util/utf8.c:3-55 | accepts exactly the sequences of section 4 of RFC 3629 and yields their scalar value |
| `Utf8.IsValid` | core/src/util/utf8.c:57-73 | true exactly for a sequence of such characters |
| `Utf8.EncodeThenDecode` | core/src/util/json.c:81-98 | reading what `append_utf8` wrote gives the scalar value back |
| `Utf8.DecodeThenEncode` | core/src/util/json.c:81-98 | writing what was read gives the same bytes back |
| `Utf8.Truncate` | core/src/util/utf8.c:112-131 | stops at the walker's last boundary, for any bytes |
| `Utf8.CutIsLongestFit` | core/src/util/utf8.c:112-131 | on valid text that is the longest valid prefix of at most k bytes |
| `Utf8.TrimPartial` | core/src/util/utf8.c:133-160 | drops a started last character and nothing else |
| `Utf8.TrimFindsTheCut` | core/src/util/utf8.c:133-160 | on valid text cut at k bytes it finds the boundary `truncate` finds |
| `Strbuf.LayDigits` | core/src/util/strbuf.c:61-72 | the 24 byte table always holds the decimal form of a 64 bit number |
| `Strbuf.DecimalMeans` | core/src/util/strbuf.c:61-72 | each place of a printed number has the digit with that power of ten, and only zero begins with a zero |
| `Strbuf.Builder.Add` | core/src/util/strbuf.c:28-54 | after any adds the buffer holds the first cap - 1 bytes of the unbounded text and overflow says exactly whether it was cut |
| `Strbuf.Builder.AddUint` | core/src/util/strbuf.c:61-72 | the unbounded text grows by the decimal form |
| `Strbuf.Builder.AddJson` | core/src/util/strbuf.c:85-129 | the unbounded text grows by the escaped string |
| `Strbuf.EscapeForms` | core/src/util/strbuf.c:85-129 | which bytes are escaped and how: the short escapes of section 7 of RFC 8259, four digits for other control characters, the rest as it is |
| `Strbuf.Builder.Result` | core/src/util/strbuf.c:153-156 | OK exactly when the whole text is there |
| `Strbuf.CopyString` | core/src/util/strbuf.c:158-182 | OK exactly when the string fits; otherwise its part up to a character boundary |
| `Json.JsonStr` | core/src/util/json.c:100-183 | the code and the buffer for every string: whole text, cut text with BUFFER_TOO_SMALL, or PARSE_ERROR |
| `Json.SurrogatesAreABijection` | core/src/util/json.c:148-164 | surrogate pairs correspond one to one to U+10000 to U+10FFFF |
| `Json.UnicodeEscapeGives` | core/src/util/json.c:134-170 | for every scalar value below 0x10000, digits in either case and any rest: a \u escape gives its UTF-8 and then the rest's text |
| `Json.SurrogateEscapesGive` | core/src/util/json.c:148-164 | the same of every scalar value above, for the escapes of its two surrogates |
| `Json.UnspelledIsAMistake` | core/src/util/json.c:137-146 | fewer than four digits are a mistake |
| `Json.HighSurrogateAlone` | core/src/util/json.c:148-164 | a high surrogate is a mistake unless the escape of a low one follows |
| `Json.LoneSurrogateIsAMistake` | core/src/util/json.c:165-166 | a low surrogate in front is a mistake |
| `Json.ShortEscapeGives` | core/src/util/json.c:125-133 | what each escape of two characters stands for |
| `Json.OtherEscapesAreMistakes` | core/src/util/json.c:171-173 | nothing else may stand behind a backslash |
| `Json.DecodeEscaped` | core/src/util/json.c:117-174 | decoding undoes escaping, for every byte string |
| `Json.EscapedIsRaw` | core/src/util/strbuf.c:85-129 | escaped text scans to its own closing quote |
| `Json.DecodeIsValid` | core/src/util/json.c:117-174 | from valid UTF-8 the decoded text is valid UTF-8, also up to the first mistake |
| `Json.ReceivedIsLongestFit` | core/src/util/json.c:176-183 | without a mistake the caller receives the longest valid prefix that fits, and the whole text on OK |
| `Json.ReceivedIsValidExactlyWhen` | core/src/util/json.c:117-183 | for every valid UTF-8 and every buffer: what the caller is left with is valid exactly when there was no mistake, or the text fits, or a character ends where the buffer does |
| `Json.MistakeLeavesHalfACharacter` | core/src/util/json.c:123-174 | any mistake behind a two byte character read into two bytes leaves half of it |
| `Json.JsonUint` | core/src/util/json.c:185-210 | OK exactly for digits whose value is below 2^64, with that value: the overflow guard is exact |
| `Json.NumberOfDecimal` | core/src/util/strbuf.c:61-72 | reading undoes printing, for every number |
| `Json.FindMember` | core/src/util/json.c:42-60 | the first member with the key |
| `Json.ScanRendered` | core/src/util/json.c:8-60 | scanning undoes printing, for every flat object |
| `Manifest.Validate` | core/src/manifest.c:33-93 | OK exactly for the known format, a platform and type, a title id, a digest, a valid label and increasing versions |
| `Manifest.Write` | core/src/manifest.c:189-257 | the text of a valid manifest, or the error |
| `Manifest.Parse` | core/src/manifest.c:95-187 | field by field, with the same codes in the same order |
| `Manifest.ManifestFits` | core/src/manifest.c:10-12 | 2048 bytes and 64 tokens suffice for every valid manifest, whatever has to be escaped |
| `Manifest.ParseUndoesWrite` | core/src/manifest.c:95-257 | parse(write(m)) is m, for every valid manifest |
| `Manifest.ParsedIsValid` | core/src/manifest.c:119-186 | what the parser hands out is valid and fits the struct |
| `Manifest.ReadingNormalises` | core/include/daemoon/manifest.h:76-79 | what was parsed is written and parsed to the same manifest again |
| `OptionalText.FieldIsValidExactlyWhen` | core/src/manifest.c:143-144 | a text field read from valid UTF-8 is valid exactly when its string is free of mistakes, short enough, or has a character's end or a NUL at or before the buffer's end |
| `OptionalText.ParsedTextsAreValidExactlyWhen` | core/src/manifest.c:95-187 | of a manifest accepted from valid UTF-8 the required texts are valid UTF-8, and the title name and the time exactly when their strings are readable into 128 and 32 bytes |
| `OptionalText.AcceptedNameEndsInsideACharacter` | core/src/manifest.c:141-144 | a concrete manifest text that is accepted with a title name ending inside a character |
| `Manifest.WriteState` | core/src/sync.c:221-231 | the text of a state file, or BUFFER_TOO_SMALL |
| `Manifest.LoadState` | core/src/sync.c:142-195 | the code and the two fields for every file content, missing and oversized files included |
| `Manifest.StateFits` | core/src/sync.c:11-12 | every record fits the 512 bytes it is written and read through |
| `Manifest.LoadUndoesSave` | core/src/sync.c:142-255 | state_load after state_save gives back exactly base version and base digest |
| `ManifestFormat.PlatformCodes` | core/src/backend.c:8-43 | which code stands for which platform, both ways and for every string |
| `ManifestFormat.SaveTypeCodes` | core/src/backend.c:45-73 | the same of the save types |
| `ManifestFormat.FieldDecides` | core/src/manifest.c:33-93 | what each field of an otherwise valid manifest may be |
| `ManifestFormat.ManifestIsLaidOut` | core/src/manifest.c:189-257 | the text of every manifest, with everything around the values written out |
| `ManifestFormat.StateIsLaidOut` | core/src/sync.c:221-231 | the same of every state file |
| `ManifestFormat.ReadWithout` | core/src/manifest.c:119-186 | any manifest read without one of its members: the parent, the time, the name and the secure value may be missing and read as none, without any other it is a PARSE_ERROR |
| `ManifestFormat.OtherFormatIsRefused` | core/src/manifest.c:121-128 | another format version is an INVALID_MANIFEST, whatever else is in it |
| `ManifestFormat.RefusedUnread` | core/src/manifest.c:108-117 | too long, no object, or too many members: the code for each |
| `ManifestFormat.NoRecord` | core/src/sync.c:158-183 | no state file means no record and no error; one that is too long, no object or has too many members is an error |
| `ManifestFormat.RecordIsRead` | core/src/sync.c:185-194 | every other state file is read as far as it goes; a version that is missing or not below 2^32 counts as none |
| `I18n.Format` | core/src/i18n.c:116-157 | the whole substitution, or its trimmed part with BUFFER_TOO_SMALL |
| `I18n.SubstituteIsValid` | core/src/i18n.c:131-150 | a valid template with valid arguments gives valid text |
| `I18n.FormatKeepsLongestFit` | core/src/i18n.c:152-155 | a full buffer keeps the longest valid prefix that fits |
| `I18n.ProtectedIsLiteral` | core/src/i18n.c:132-136 | doubled braces come out as braces and are never placeholders |
| `I18n.PlaceholderGives` | core/src/i18n.c:137-147 | a run without braces, a placeholder and a rest give the run, that very argument, or the placeholder itself when there is none, and what the rest gives |
| `I18n.BraceGives` | core/src/i18n.c:131-150 | a doubled brace gives one, and a brace that begins neither a doubled one nor a placeholder stays as it is |
| `TitleCache.ReadName` | platform/3ds/source/save_backend.c:778-809 | the first slot of the chain language, English, Japanese, all that gives a name |
| `TitleCache.SlotGives` | platform/3ds/source/save_backend.c:624-657 | what one slot says, for every text in it |
| `TitleCache.NamePreference` | platform/3ds/source/save_backend.c:788-803 | a title goes by the name in the console's language, else the English, else the Japanese, else the first there is, and without any the last slot's code is answered |
| `TitleCache.FallbackIsNeverTaken` | platform/3ds/source/title_cache.c:300-304 | a drawable plain name always comes with an ASCII name |
| `TitleCache.RecordAgrees` | platform/3ds/source/title_cache.c:241-260 | a record answers exactly when the lookup does, with the same text |
| `TitleCache.Cache.Probe` | platform/3ds/source/title_cache.c:219-261 | adds one true record while there is room, and never a second for a title |
| `TitleCache.Cache.EntryFor` | platform/3ds/source/title_cache.c:263-273 | no record only for an unknown title in front of a full table |
| `TitleCache.Cache.CacheName` | platform/3ds/source/title_cache.c:275-312 | succeeds exactly when the direct lookup does, with the same text, plain and ASCII; reads the title exactly when it has no record and there is room |
| `TitleCache.Cache.CacheIcon` | platform/3ds/source/title_cache.c:314-327 | the title's icon, except for an unknown title in front of a full table |
| `TitleCache.OneTitleTooMany` | platform/3ds/source/title_cache.c:314-327 | a session of 256 names in which a further title gets its name but not its icon |
| `TitleCache.Cache.Forget` | platform/3ds/source/title_cache.c:329-336 | an empty table that is still true |
| `TitleCache.Cache.Flush` | platform/3ds/source/title_cache.c:350-434 | the file afterwards is true whether the flush succeeds or fails at any step, and exactly when it is written it has the records asked for and no others |
| `TitleCache.CutFileIsTruthful` | platform/3ds/source/title_cache.c:136-144 | a file cut at any record still loads only true records |
| `TitleCache.FullTable` | platform/3ds/source/title_cache.c:227-231 | a title can find the table full only when more titles than records were asked for |
| `TitleCache.Session` | platform/3ds/source/title_cache.c:147-434 | any sequence of lookups, flushes, forgets, relaunches in any language and file cuts gives the direct lookup's answers |
| `TitleCacheRuns.SecondLaunch` | platform/3ds/source/title_cache.c:350-434 | names asked for in one launch and written at its end are there in the next launch in the same language without reading a title again |
| `TitleCacheRuns.NothingAsked` | platform/3ds/source/title_cache.c:373-379 | a launch that asked for nothing keeps the file |
| `TitleCacheRuns.Forgotten` | platform/3ds/source/title_cache.c:329-336 | after forgetting everything a flush leaves a file nothing is taken from |
| `TitleCacheRuns.FlushTwice` | platform/3ds/source/title_cache.c:380-382 | a flush that leaves a record out makes the next one miss that it is asked for |
| `TitleCacheRuns.RecordLeftOut` | platform/3ds/source/title_cache.c:380-382 | so the next launch reads that title again |
| `Lz11.Decompress` | tools/fix-banner-texture.py:33-72 | what Python computes for every input, errors and negative indices included |
| `Lz11.CopyBackIsPeriodic` | tools/fix-banner-texture.py:69-71 | a copied byte is the one disp + 1 places before it, also where the copy overlaps itself |
| `Lz11.FormsPartition` | tools/fix-banner-texture.py:51-68 | the three length forms cover 3 to 65808 and never overlap |
| `Lz11.ReadUndoesWrite` | tools/fix-banner-texture.py:48-68 | each form reads back as the reference it was written from |
| `Lz11Format.ReadForms` | tools/fix-banner-texture.py:51-68 | the three forms in hexadecimal digits: which digit tells the form, which are the length, which the distance |
| `Lz11Format.HeaderMeans` | tools/fix-banner-texture.py:34-37 | the first byte and the three bytes of the size |
| `Lz11Format.SampleStream` | tools/fix-banner-texture.py:33-72 | a stream of ten bytes decoded by hand |
| `Lz11Format.WrappedReference` | tools/fix-banner-texture.py:69-71 | a reference in front of the start counts from the end, and raises when that is outside as well |
| `Lz11.FlagsSayWhichAreCopies` | tools/fix-banner-texture.py:41-47 | the eight flag bits name exactly the references of a group |
| `Lz11.DecompressUndoesEncode` | tools/fix-banner-texture.py:33-72 | decoding the bit layout of any tokens with in-range references gives their expansion, with any bytes behind the stream |
| `Lz11.Store` | tools/fix-banner-texture.py:75-83 | a stream of literals, or the error for 2^24 bytes and more |
| `Lz11Format.StoredByte` | tools/fix-banner-texture.py:75-83 | where each byte stands in a stored stream, and where the zeros |
| `Lz11.DecompressUndoesStore` | tools/fix-banner-texture.py:123-141 | decompress(store(raw) + padding) is raw, for every raw below 2^24 bytes |
| `Lz11.Rebuild` | tools/fix-banner-texture.py:123-145 | a rebuilt banner reads back as what was patched and keeps its audio; for a stream behind the header the final checks never fire |
| `Lz11Format.HeaderFields` | tools/fix-banner-texture.py:131-134 | the rebuilt header differs from the old one only in the two offsets |
| `Tiling.MortonIsABijection` | platform/3ds/source/cam_tile.c:26-32 | interleaving the bits maps the 8x8 pixels one to one onto 0 to 63 |
| `TextureFormat.MortonQuarters` | platform/3ds/source/cam_tile.c:26-32 | Morton order by quarters: left before right, upper before lower, down to single pixels |
| `Tiling.TileIndexIsABijection` | platform/3ds/source/cam_tile.c:34-40 | for all sizes that are multiples of 8 the index is a bijection onto the image |
| `TextureFormat.NextTile` | platform/3ds/source/cam_tile.c:34-40 | the next tile to the right and the next row of tiles |
| `Tiling.CamIndexIsABijection` | platform/3ds/source/cam_tile.c:95-110 | under each of the four layouts pixels and frame places correspond one to one |
| `TextureFormat.NextFramePixel` | platform/3ds/source/cam_tile.c:95-110 | for each layout the first pixel and the neighbours to the right and below |
| `Tiling.CamToTiled` | platform/3ds/source/cam_tile.c:112-126 | every place of the texture holds the pixel that belongs there, and zero where the frame has none |
| `Tiling.FittingFrameIsShown` | platform/3ds/source/cam_tile.c:119-125 | a frame that fits loses nothing: each of its pixels shows at exactly one place |
| `Tiling.ColoursStayDifferent` | platform/3ds/source/nds_icon.c:70-81 | two 15 bit colours convert to the same colour only if they are equal |
| `TextureFormat.ColourFields` | platform/3ds/source/nds_icon.c:70-81 | which bits of the colour become which, and that full red, green and blue stay full |
| `TextureFormat.BitmapByte` | platform/3ds/source/nds_icon.c:94-103 | which byte of the bitmap holds which two pixels, the left one in its low half |
| `Tiling.NibblesAreUsedOnce` | platform/3ds/source/nds_icon.c:94-103 | no two pixels share a half byte of the bitmap |
| `Tiling.ConvertIcon` | platform/3ds/source/nds_icon.c:150-168 | the 48x48 tile holds the icon in its middle and the panel colour elsewhere and for transparent pixels |
| `TextureFormat.IconIsFramed` | platform/3ds/source/nds_icon.c:150-168 | every pixel of the finished tile: eight pixels of panel colour around the icon, colour 0 transparent |
| `BackupSort.WorseIsAStrictWeakOrder` | platform/3ds/source/backup_list.c:83-100 | the three level test is irreflexive, one way and transitive, and ties are interchangeable |
| `BackupSort.SortRows` | platform/3ds/source/backup_list.c:74-109 | the insertion sort in place leaves the stable arrangement of the first count rows and no other change |
| `BackupSort.SortedRowsAreAStablePermutation` | platform/3ds/source/backup_list.c:70-109 | the same rows, none before one it is worse than, and rows that tie in the order they had |
| `BackupSort.OrderedMeans` | platform/3ds/source/backup_list.c:70-101 | readable before unreadable, dated before undated, later dates first |

## Left out

- SyncSafety.RunKeeps: version numbers are unbounded here and 32 bits wide in the code.
- SyncSafety.NothingIsLost: holds where a taken backup name is the save's own and NOT_FOUND is honest; `SyncLimits` says what happens otherwise.
- SyncConvergence.TwoRoundsConverge: undisturbed syncs that answer a conflict with one side; DEFER leaves a conflict in place by design. `SyncInterleaved` is about interleaved ones.
- Package.Verify: when the stream of the package itself fails, its code is returned instead of ARCHIVE_ERROR.
- Package.Unpack: failures of the save archive itself, in clearing, opening or writing, are left out here; the sync protocol has them as failed calls that leave anything behind.
- SyncClient.Client.RestorePackage: the secure value a title may have, and what is shown while it runs, are not in the model.
- SyncClient.Client.DoUpload: the staging file and its removal are part of the packing step; nothing reads it afterwards.
- SyncClient.Client.DoDownload: fetching, renaming the staging file and reading its manifest are one call that can fail, because nothing else reads that file.
- Archive.Pack: a backend that names one path twice with different sizes is left out; what is packed then depends on how `qsort` orders the two rows. Failing writes to the package file are one failed call of the sync.
- Archive.HashSave: stream errors in the middle of a file are left out; they end the call with their own code like the faults that are modelled.
- Manifest.Parse: a text that is JSON but no flat object without white space is a PARSE_ERROR here; the tokenizer library accepts more and reports some of it as INVALID_MANIFEST.
- Manifest.LoadState: as for Manifest.Parse, a text that is JSON but no flat object without white space is a PARSE_ERROR here.
- Package.ReadManifest: for a manifest entry that is empty or flagged as a directory the C code measures a buffer it has not filled; the model reads empty text.
- TitleCache.Cache.CacheName: the error codes of the two lookups differ (NOT_FOUND or UNSUPPORTED against the last slot's code), names are asked for with the 128 byte buffers the callers use, and the conversion from UTF-16 is a given text for each slot.
- TitleCache.Session: counts of reads are compared in `TitleCacheRuns`, not for every session.
- Lz11.Rebuild: for a banner whose stream does not start behind its header only the code's own read-back is stated; finding and patching the three fields of the texture is not modelled.
- Tiling.CamToTiled: indices are unbounded; textures are far below 2^32 pixels.
- Sha256.Hasher.Final: beyond 2^64 bits the length field wraps as in the code, and the standard says nothing.
- The counters of a run: a raced upload whose resolution fails and a cancelled download increment none, so they are no partition.
- Calls that make directories and build path names, clocks, notifications and progress: nothing is decided from them.
- HTTP, sockets, the JSON responses of the server, token storage and pairing: a request is one atomic step that may fail.
- The zip, JSON tokenizer and console libraries, real file systems, directory walking and errno values: replaced by maps, byte strings and a scanner.
- `daemoon_strbuf_add_int`, `daemoon_strbuf_add_urlenc`, UTF-8 length, width and decode, `daemoon_fmt_bytes`, language selection and string tables: easy members.
- Screens, menus, camera control, QR codes, fonts, banner rendering and the updater: user interface and data.
