# Secure Container Tool: container core in Dafny

A model of the core of a Go tool that keeps a flat set of named files under a
kilobyte quota, stores them as one encrypted and authenticated file, and can
project them into a temporary directory for editing ("mount") and take the
edits back ("dismount").

What is modelled:

- **The container** (`container.dfy`, module `ContainerModel`): the Go struct as a
  class `Container` with the five fields `name`, `dirPath`, `size`, `usage` and
  `structure` (base file name to content), and its value `State`. Sizes are kB
  computed as bytes / 1024, as exact `real`s. The accounting invariant
  `Accounted` says that `usage` equals the kB total of the stored contents;
  `WithinQuota` says `usage <= size`.
- **The helpers** (`helpers.dfy`, module `Helpers`): `writeFileInContainer`,
  `unlinkFile`, `updateContainer`, `contains`, `removeUnseen`, `saveContainer`,
  `hmacAuthEncrypt` and `hmacAuthDecrypt`. Each mutating method updates the
  container in place, and its contract ties the new state to a pure function
  of the old one (`AfterWrite`, `AfterUpdate`, `AfterRemoveUnseen`,
  `AfterSave`). Those functions carry the invariants the operation keeps.
- **The operations** (`container_operations.dfy`, module `ContainerOperations`):
  `InitContainer`, `ResetContainer`, `RemoveFileFromContainer`, `MountContainer`,
  `DismountContainer`, `AddDir`, `EncryptContainer` and `DecryptContainer`.
- **Dismount reconciliation properties** (`reconciliation.dfy`, module
  `Reconciliation`). Mounting and then dismounting an untouched directory
  changes nothing. Deleting a mounted file drops exactly its key and its size.
  Editing a mounted file moves usage by exactly the length change. Directory
  entries are never ingested. For any listing with distinct names, as a
  directory's is, each regular file ends up stored exactly when its name was
  already stored or it passed the admission rule when its turn came, and then
  with its own content.
- **Cryptographic framing** (`crypto_primitives.dfy`, module `CryptoPrimitives`).
  The sealed file is `IV (16) ‖ CFB ciphertext ‖ HMAC-SHA512 tag (64)`. The AES
  block function (FIPS 197) and HMAC (RFC 2104) over SHA-512 (FIPS 180-4) are
  function-valued parameters. HMAC's result type has exactly 64 bytes. CFB mode
  (NIST SP 800-38A, section 6.3) is written out over any block function, as
  Go's `cipher` package runs it: full-block feedback with a possibly partial
  last block. Its decrypt-after-encrypt round trip is proved, not assumed.

The temporary directory is a sequence of `Entry(name, isDir, content)` in the
order `ioutil.ReadDir` lists it. File contents and disk sizes that the source
reads from the filesystem are parameters: the base name and content of the
file offered to `writeFileInContainer`, the size of the file on disk for
`RemoveFileFromContainer`, the random IV, and the key. `log.Fatal` and slice
panics become an `Err` result (`Outcomes.Failure`).

Behaviours of the source kept as they are:

- Admission checks capacity (`size > Size || Usage + size > Size`) before the name
  collision.
- `updateContainer` has no capacity check, so a grown file can push usage past
  the quota (`UpdateMayExceedQuota`). Its equal-length path leaves usage alone,
  which with exact sizes is already the correct total.
- `saveContainer` calls `removeUnseen` after every regular file, not once at
  the end. The first file is therefore admitted against the old usage
  (`DismountRenameInFullContainer`: renaming the only file of a full container
  loses it). A listing that holds only directories runs `removeUnseen` not at
  all, so the container comes back unchanged (`DismountOnlyDirectories`).
  `removeUnseen` matches names against the whole listing, directories included.
- `RemoveFileFromContainer` uses the path it is given as the key, verbatim, and
  subtracts 100 times the on-disk size (see Findings).
- `DecryptContainer` checks the tag first and the key length only afterwards,
  because `aes.NewCipher` runs after `hmacAuthDecrypt`. Failures therefore take
  precedence in the order Truncated, IntegrityFailure, InvalidKeyLength,
  CiphertextTooShort.
- `DismountContainer` does not clear `DirPath`.

## Model

| member | source | states |
|---|---|---|
| ContainerModel.Container.constructor | src/core/container.go:4-8 | a container's state is exactly its name, directory path, quota, usage and name-to-content map |
| ContainerModel.TotalBytesInsert | src/core/helpers.go:71-72 | binding a new key adds exactly its content's length to the stored total |
| ContainerModel.TotalBytesRemove | src/core/helpers.go:169-173 | removing a key takes away exactly its content's length from the stored total |
| ContainerModel.TotalBytesReplace | src/core/helpers.go:150-151 | rebinding a key moves the stored total by the difference of the lengths |
| ContainerModel.TotalBytesSplit | src/core/helpers.go:165-179 | the total of a map is the total of the kept entries plus the total of the dropped ones |
| Helpers.AfterWrite | src/core/helpers.go:51-73 | a file larger than the quota is refused even by an empty container; an existing name is never overwritten (capacity checked first); on admission exactly the one key is added and usage grows by exactly its size; the quota and the accounting invariant are kept; name, path and quota never change |
| Helpers.WriteFileInContainer | src/core/helpers.go:51-73 | updates the container in place to `AfterWrite` of the old state and reports capacity exceeded, name collision or admission |
| Helpers.UnlinkFile | src/core/helpers.go:76-83 | returns whether the key was present; removes only that key; usage and the other fields untouched |
| Helpers.AfterUpdate | src/core/helpers.go:134-152 | the key is rebound to the new content; usage moves by exactly new size minus old size (zero on the equal-length path); accounting is kept when the old content is the stored one |
| Helpers.UpdateContainer | src/core/helpers.go:134-152 | updates the container in place to `AfterUpdate` of the old state |
| Helpers.UpdateMayExceedQuota | src/core/helpers.go:150 | a container within its quota goes over it when a stored file grows: there is no capacity check |
| Helpers.Contains | src/core/helpers.go:155-162 | true exactly when some listed entry carries the name |
| Helpers.AfterRemoveUnseen | src/core/helpers.go:165-179 | afterwards every key is listed; listed keys keep their content; usage drops by exactly the size of the removed entries; accounting is kept |
| Helpers.RemoveUnseenIdempotent | src/core/helpers.go:193 | a second call with the same listing changes nothing |
| Helpers.RemoveUnseen | src/core/helpers.go:165-179 | the loop over the map updates the container in place to `AfterRemoveUnseen` of the old state |
| Helpers.AfterSave | src/core/helpers.go:182-195 | keys come only from the old map or the consumed files; a listed old key is never dropped; after one file every key is listed; accounting is kept; name, path and quota unchanged |
| Helpers.SaveContainer | src/core/helpers.go:182-195 | the loop over the files updates the container in place to `AfterSave` of the old state |
| Helpers.AuthRoundTrip | src/core/helpers.go:205-230 | checking the tag of freshly tagged bytes with the same key succeeds and returns the original bytes |
| Helpers.HmacAuthEncrypt | src/core/helpers.go:205-210 | appends exactly 64 tag bytes, the HMAC of the input, and leaves the prefix intact |
| Helpers.HmacAuthDecrypt | src/core/helpers.go:213-230 | fails on fewer than 64 bytes; otherwise succeeds exactly when the last 64 bytes equal the HMAC of the rest, and then returns the rest |
| CryptoPrimitives.CfbEncrypt | src/core/containerOperations.go:171-172 | the CFB stream preserves length |
| CryptoPrimitives.CfbRoundTrip | src/core/containerOperations.go:205-208 | CFB decryption with the same key and IV undoes CFB encryption, for every block function |
| ContainerOperations.InitContainer | src/core/containerOperations.go:16-20 | a fresh container with the given name and quota, empty path, usage 0 and no entries; it is accounted |
| ContainerOperations.AfterReset | src/core/containerOperations.go:98-105 | no entries and usage 0, with name, path and quota unchanged; accounting holds |
| ContainerOperations.ResetContainer | src/core/containerOperations.go:98-105 | the unlink loop and the usage reset update the container in place to `AfterReset` of the old state |
| ContainerOperations.AfterRemoveFileAsWritten | src/core/containerOperations.go:61-71 | an absent key changes nothing; a present key is removed alone and usage drops by 100 times the on-disk size |
| ContainerOperations.RemoveFileFromContainer | src/core/containerOperations.go:61-71 | updates the container in place to `AfterRemoveFileAsWritten` of the old state |
| ContainerOperations.RemoveFileScaleMismatch | src/core/containerOperations.go:66 | removing a stored 1 kB file leaves usage at -99 and breaks the accounting invariant |
| ContainerOperations.AfterRemoveFile | src/core/containerOperations.go:61-71 | corrected removal: the key is removed alone, usage drops by its recorded size, and accounting and quota are kept |
| ContainerOperations.RemoveFile | src/core/containerOperations.go:61-71 | updates the container in place to `AfterRemoveFile` of the old state |
| ContainerOperations.QuotaScenario | src/core/helpers.go:61-72 | with a 10 kB quota, a 6 kB file is admitted, a second 6 kB file is refused, and the corrected removal brings usage back to 0 (the removal as written leaves -594) |
| ContainerOperations.PlainFiles | src/core/containerOperations.go:124-133 | the channel carries exactly the listing's regular files, never a directory |
| ContainerOperations.ListingMap | src/core/containerOperations.go:83-92 | a name is a key of the directory's map exactly when the listing carries it |
| ContainerOperations.ListingMapAppend | src/core/helpers.go:98-106 | writing one more file into the directory binds its name to its content |
| ContainerOperations.WriteEntriesToDir | src/core/containerOperations.go:83-92 | the directory written holds exactly the container's entries, no subdirectory, and every key once with its own content (names distinct, each entry's content the map's content under its name) |
| ContainerOperations.MountContainer | src/core/containerOperations.go:74-95 | sets the directory path, leaves entries, usage, name and quota untouched, and returns a listing of exactly the entries, each key once with its own content |
| ContainerOperations.DismountContainer | src/core/containerOperations.go:108-137 | an empty listing resets; otherwise the regular files are reconciled in listing order |
| ContainerOperations.AfterAddDir | src/core/containerOperations.go:35-58 | the corrected walk (see Findings), which decodes the container file once and not again for each subdirectory, keeps the quota and the accounting, never loses or alters a stored entry, and never lowers usage |
| ContainerOperations.AddDir | src/core/containerOperations.go:35-58 | updates the container in place to the corrected walk `AfterAddDir` of the old state |
| ContainerOperations.Redecode | src/core/helpers.go:33-48 | decoding into an existing container: a non-zero stored usage replaces the in-memory one and a zero one leaves it; the keys become those of both maps, the stored entries winning |
| ContainerOperations.RedecodeOwnFile | src/core/helpers.go:33-48 | decoding a container's own file into it changes nothing |
| ContainerOperations.AddDirOfFilesAgrees | src/core/containerOperations.go:35-58 | for a directory without subdirectories, the walk as written (each call decodes the file first) equals the corrected walk |
| ContainerOperations.AfterAddDirAsWritten | src/core/containerOperations.go:35-58 | AddDir as the source writes it: every call, nested ones included, first decodes the container file into the shared in-memory container (`Redecode`), and a nested call's result becomes the file's content for the calls after it; no in-memory or stored entry is lost |
| ContainerOperations.WalkAsWritten | src/core/containerOperations.go:44-53 | the loop of one as-written call: a file faces the admission rule, a subdirectory runs a nested as-written call whose result is also what the file holds afterwards; no entry is lost |
| ContainerOperations.AppendFreshEntry | src/core/helpers.go:98-106 | writing a file under a name not yet written keeps the directory's names distinct and its entries those of the map |
| ContainerOperations.NestedWalkAsWritten | src/core/containerOperations.go:36-48 | as written, the subdirectory's call re-reads usage 1 from the file and admits a 6 kB file after two 3 kB files already filled usage to 7 |
| ContainerOperations.NestedWalkCorrected | src/core/containerOperations.go:35-58 | the corrected walk refuses that 6 kB file and ends at usage 7 |
| ContainerOperations.NestedDecodeBeforeSecondFile | src/core/containerOperations.go:36-50 | in the other order the goroutine allows, the nested decode runs before "b" is admitted: the same 13 kB are stored, with usage 10 |
| ContainerOperations.AddDirNestedOverfills | src/core/containerOperations.go:36-48 | as written, a subdirectory's files are admitted against the usage re-read from the file: a 10 kB container ends up holding 13 kB with usage 7, where the corrected walk refuses the 6 kB file and stays accounted and within the quota |
| ContainerOperations.EncryptContainer | src/core/containerOperations.go:140-183 | refuses, leaving the file as it was, unless the key has 16, 24 or 32 bytes; otherwise writes IV ‖ ciphertext of the content's length ‖ tag over both, 80 bytes longer than the content |
| ContainerOperations.DecryptContainer | src/core/containerOperations.go:186-216 | a wrong tag fails whatever else holds; success needs a valid key and at least 80 bytes, and returns exactly 80 bytes fewer, the CFB decryption of the part between IV and tag |
| ContainerOperations.SealOpenRoundTrip | src/core/containerOperations.go:140-216 | opening what was sealed with the same valid key returns the original content, and the sealed file is 80 bytes longer |
| Reconciliation.PlainFilesOfDirectories | src/core/containerOperations.go:124-131 | a listing of directories only sends nothing down the channel |
| Reconciliation.DismountPreservesAccounting | src/core/containerOperations.go:108-137 | every dismount keeps the accounting invariant, name and quota |
| Reconciliation.DismountEmptyResets | src/core/containerOperations.go:119-122 | an empty temporary directory leaves no entries and usage 0 |
| Reconciliation.DismountIngestsOnlyFiles | src/core/containerOperations.go:124-133 | every resulting key is an old key or the name of a regular file of the listing |
| Reconciliation.DismountKeepsListedKeys | src/core/helpers.go:182-195 | an old key still named in a non-empty listing survives |
| Reconciliation.DismountDropsUnlisted | src/core/helpers.go:193 | once the listing holds a regular file, every surviving key is named in it |
| Reconciliation.DismountOnlyDirectories | src/core/containerOperations.go:124-135 | a non-empty listing of directories only leaves the container unchanged |
| Reconciliation.SaveKnownNames | src/core/helpers.go:182-195 | over files whose names are all stored and listed keys, each file's content replaces the stored one |
| Reconciliation.DismountKnownNames | src/core/containerOperations.go:108-137 | when every listed file is a stored key, the result holds exactly the listed files with their contents |
| Reconciliation.MountDismountIdentity | src/core/containerOperations.go:74-137 | mount followed by dismount of the untouched directory leaves entries and usage unchanged |
| Reconciliation.DismountAfterDelete | src/core/helpers.go:165-179 | deleting one mounted file drops exactly that key and exactly its recorded size |
| Reconciliation.DismountAfterEdit | src/core/helpers.go:134-152 | editing one mounted file stores the new content and moves usage by exactly the length change |
| Reconciliation.DismountSingleNewFile | src/core/helpers.go:187-193 | a new name is admitted under the same rule as writeFileInContainer, against the usage from before the unseen keys are dropped |
| Reconciliation.SaveFileOutcome | src/core/helpers.go:182-195 | for any batch, a file whose name no later file repeats ends up stored exactly when its name was a key when its turn came or the admission rule let it in then, and it is stored with its own content |
| Reconciliation.DismountFileOutcome | src/core/containerOperations.go:108-137 | for any listing with distinct names and each regular file f in it: f is stored after the dismount exactly when its name was stored before or `Admit` accepted it against the state left by the files before it; a stored f holds its own content; a new name gets in only if it fits the quota |
| Reconciliation.DismountRenameInFullContainer | src/core/helpers.go:187-193 | renaming the only file of a full container while mounted loses it |

## Findings

| source | as written | input that shows it | evidently intended | confidence | as-written member | corrected member |
|---|---|---|---|---|---|---|
| src/core/containerOperations.go:66 | usage drops by `size * 100`, the on-disk size scaled by 100 | a 10 kB container holding a 1 kB file "a" (usage 1), with a 1 kB file "a" on disk: usage becomes -99 | usage drops by the size recorded for the removed entry | high (not executed) | ContainerOperations.RemoveFileScaleMismatch | ContainerOperations.AfterRemoveFile |
| src/core/containerOperations.go:36-48 | each nested `AddDir` decodes the container file again into the shared container; gob overwrites `Usage` with the stored non-zero value and merges the stored map, so files the outer call admitted since the last encode drop out of `Usage` | quota 10 kB, stored "x" of 1 kB (usage 1), a directory holding 3 kB "a", 3 kB "b" and a subdirectory with a 6 kB "c": "a" is admitted before the nested decode, and "c" is admitted whichever comes first, the admission of "b" or the nested decode, so 13 kB end up stored; usage ends at 7 in listing order (the model's order) and at 10 if the decode comes first | the subdirectory's files face the admission rule against the usage that counts every file already admitted | medium (not executed; the goroutine's nested call races with the outer admission of "b": a decode between its capacity check and its `Usage += size` tears that update and can leave "c" refused, and overlapping map writes can abort the Go runtime; the model takes the listing order) | ContainerOperations.AddDirNestedOverfills | ContainerOperations.AfterAddDir |

## Left out

- The gob codec (`encodeToFile`, `decodeFromFile`) and `MountVirtually`. Every operation acts on the in-memory container, and reading and writing the container file is not modelled. The one exception is the effect of decoding into an existing container (`Redecode`). It is used only by the as-written `AddDir` walk of the second finding.
- `AddDir`: the method and `AfterAddDir` model the corrected walk, which does not decode the file again for each subdirectory. The source's walk is `AfterAddDirAsWritten`, where a subdirectory's files are admitted against the usage read back from the file (see Findings).
- `AddFile` is decode, `writeFileInContainer`, encode. Its effect on the container is `WriteFileInContainer`.
- Filesystem effects: `ioutil.ReadFile`/`WriteFile`, `os.Stat`, `TempDir`, `CleanTmpDir`, `fillDir`, `writeFileToDir`. The temporary directory is a listing value, and its removal after dismount is not modelled.
- `filepath.Base` is not part of this model. The operations receive the base name. `RemoveFileFromContainer` receives the path it is given, which is its key.
- `getFileSize` dereferences a nil `FileInfo` when `os.Stat` fails. That crash happens before any change and is not modelled.
- Goroutines and channels in `AddDir`, `MountContainer` and `DismountContainer`. They are modelled as sequential loops in listing order, with `AddDir` as a walk over an abstract tree.
- Float64 rounding of kB sizes. Sizes are exact reals.
- The internals of AES, SHA-512 and HMAC, and the random IV from `crypto/rand`. These are parameters. Tag forgery resistance, for example that flipping a bit makes opening fail, is a property of HMAC and is not provable over an arbitrary function.
- The `hash == nil || len(hash) != len(sum)` guard in `hmacAuthDecrypt`. It cannot fire because HMAC-SHA512 always yields 64 bytes, which the `Tag` type states.
- The buffer allocation and the in-place XOR in `EncryptContainer`/`DecryptContainer`. These are modelled on values.
- `DisplayContainer` and every message the source prints.
- The command-line layer (`src/menu`).
