# face-store, modelled in Dafny

face-store keeps person records and the face records of each person in a directory tree. A
person `p` lives in `root/p/data.json`, and its face `f` lives in `root/p/f/data.json`. Each
file holds one encoded record with an `id`, a `createTime` and an `updateTime`.

- **Reading.** A person or face is present only if its `data.json` is a regular file. When it
  is, its first line is decoded.
- **Listing.** `getPersonIds` and `getFaceIdList` list the sub-directories that hold an entry
  named `data.json`.
- **Saving.** `savePerson` and `saveFace` are conditional writes where the last write wins. A
  record is written only if nothing is stored yet or the stored `updateTime` is strictly
  earlier. A write then notifies every listener in list order.
- **Deleting.** `deletePerson` and `deleteFace` remove a subtree recursively. They always
  notify the listeners.
- **Interfaces.** Above the file store sit the capability interfaces: a read-only store, a
  read-write store and a change listener. Each has default method bodies. A composite store
  forwards every read to the read-only store it wraps.
- **Path joining.** Below the file store is `Paths.get`. It drops null segments and joins the
  rest with the separator.

The files:

- `wrappers.dfy`: `Option`, `Result` and `Outcome`.
- `paths.dfy` (Path.kt):
  - the null-dropping join;
  - the way a pathname is read back into locations: split on the separator, empty parts
    ignored (a leading separator included, so absolute and relative pathnames are not told
    apart);
  - the lemmas that relate the two.
- `file_tree.dfy`:
  - the disk, held as an in-memory tree from locations (segment sequences) to `Dir` or
    `File(content)`;
  - the effect on that tree of `mkdirs`, `writeText`, `deleteRecursively` and `list`;
  - a `Disk` class whose `tree` field those methods update.
- `face_store.dfy` (FaceStore.kt):
  - `Meta` and `FaceData`;
  - the interfaces, modelled as records of functions over an abstract state;
  - their default bodies;
  - `CompositeReadWriteFaceStore`.
- `face_file_store.dfy` (FaceFileStore.kt):
  - the readers, as functions of a disk snapshot;
  - each mutator's effect, as a pure function;
  - the classes `FaceFileReadOnlyStore` and `FaceFileReadWriteStore`. Their methods change the
    disk and append to a log of listener calls. Each method is proved to match its effect
    function.
- `face_file_store_properties.dfy`: what the file store promises, proved of those functions.

Behaviours of the code worth knowing:

- **Face listing of a missing person.** `getFaceIdList(p)` after `deletePerson(p)`, or for any
  person with no directory, does not return an empty list. `File.list` gives null and `toList`
  throws (FaceFileStore.kt:34). The model returns `Failure(NullListing)`
  (`DeletePersonRemovesPerson`, `FaceIdsExactly`).
- **What counts as a valid data file.** Listing checks only that an entry named `data.json` is
  present (FaceFileStore.kt:38). A `data.json` directory counts too, and so does an unreadable
  or undecodable file (`ListValidSubDirsExactly`).
- **A stored `null`.** A `data.json` whose first line decodes to JSON `null` reads as no record
  (FaceFileStore.kt:45). The next save of that id is accepted whatever its `updateTime`
  (`SavePersonOverwritesNullRecord`).
- **An empty store directory.** With `directory == ""` the pathname listed is empty, and
  `File("").list()` is null, so `getPersonIds()` throws (`EmptyDirectoryListsNothing`).

## Model

| member | source | states |
|---|---|---|
| Paths.FilterNotNull | src/main/kotlin/com/github/charleslzq/facestore/Path.kt:10 | `path.filterNotNull()`: the non-null arguments in order (its meaning is fixed by `FilterNotNullAppend`, `FilterNotNullOfNulls`, `FilterNotNullOfSomes`) |
| Paths.JoinToString | src/main/kotlin/com/github/charleslzq/facestore/Path.kt:10 | `joinToString(File.separator)` (fixed by `JoinToStringAppend` and, with `Split`, by `SplitJoin`) |
| Paths.Get | src/main/kotlin/com/github/charleslzq/facestore/Path.kt:10 | `Paths.get`: the non-null arguments joined by the separator (fixed by `GetIgnoresNull`, `GetOfNulls`, `GetOfOneSegment`, `GetAppend`, `GetSplitsBack`) |
| Paths.Components | src/main/kotlin/com/github/charleslzq/facestore/Path.kt:6 | the location `toFile()` names: the non-empty parts between separators (fixed by `ComponentsAppend`, `ComponentsOfValidSegment`, `ComponentsJoin`, `ComponentsAreValid`) |
| Paths.GetIgnoresNull | src/main/kotlin/com/github/charleslzq/facestore/Path.kt:10 | a null argument anywhere leaves the path unchanged: `get(a, null, b) == get(a, b)` |
| Paths.GetOfNulls | src/main/kotlin/com/github/charleslzq/facestore/Path.kt:10 | with no non-null argument the path string is empty |
| Paths.GetOfOneSegment | src/main/kotlin/com/github/charleslzq/facestore/Path.kt:10 | with exactly one non-null argument the path string is that argument unchanged |
| Paths.GetAppend | src/main/kotlin/com/github/charleslzq/facestore/Path.kt:10 | the non-null arguments keep their order, with exactly one separator between the two halves of any split |
| Paths.GetSplitsBack | src/main/kotlin/com/github/charleslzq/facestore/Path.kt:10 | splitting the path string on the separator gives back the non-null arguments, when there is at least one and none contains the separator |
| Paths.FilterNotNullAppend | src/main/kotlin/com/github/charleslzq/facestore/Path.kt:10 | dropping nulls distributes over concatenation |
| Paths.FilterNotNullOfNulls | src/main/kotlin/com/github/charleslzq/facestore/Path.kt:10 | an all-null argument list drops to nothing |
| Paths.FilterNotNullOfSomes | src/main/kotlin/com/github/charleslzq/facestore/Path.kt:10 | arguments that are all non-null are kept as they are |
| Paths.JoinToStringAppend | src/main/kotlin/com/github/charleslzq/facestore/Path.kt:10 | joining two non-empty runs puts one separator between their joins |
| Paths.SplitJoin | src/main/kotlin/com/github/charleslzq/facestore/Path.kt:10 | splitting a join gives back the segments when none contains the separator |
| Paths.ComponentsJoin | src/main/kotlin/com/github/charleslzq/facestore/Path.kt:5-10 | the location a joined path names is the concatenation of the locations its segments name |
| Paths.ComponentsOfValidSegment | src/main/kotlin/com/github/charleslzq/facestore/Path.kt:6 | a non-empty segment without a separator names a single directory entry |
| Paths.ComponentsAppend | src/main/kotlin/com/github/charleslzq/facestore/Path.kt:6 | a separator in a path string splits its location into the locations of either side |
| Paths.ComponentsAllAppend | src/main/kotlin/com/github/charleslzq/facestore/Path.kt:6-10 | the location of a concatenated segment list is the concatenation of the two locations |
| Paths.ComponentsAllOfValid | src/main/kotlin/com/github/charleslzq/facestore/Path.kt:6-10 | valid segments name the location made of exactly those segments |
| Paths.ComponentsAreValid | src/main/kotlin/com/github/charleslzq/facestore/Path.kt:6 | every entry of a location read from a path string is non-empty and free of the separator |
| Paths.ComponentsAllAreValid | src/main/kotlin/com/github/charleslzq/facestore/Path.kt:6-10 | the same holds for the location of a segment list |
| Paths.GetLocation | src/main/kotlin/com/github/charleslzq/facestore/Path.kt:5-10 | `Paths.get(s1, …, sn).toFile()` names the concatenated locations of the segments |
| Paths.RecoverSegments | src/main/kotlin/com/github/charleslzq/facestore/Path.kt:5-10 | for valid segments, `Paths.get(s1, …, sn).toFile()` names exactly `s1/…/sn` |
| FileTree.List | src/main/kotlin/com/github/charleslzq/facestore/FaceFileStore.kt:34 | `File.list()`: the names of a directory's entries, null on anything but a directory (fixed by `ChildrenExactly`) |
| FileTree.AfterMkdirs | src/main/kotlin/com/github/charleslzq/facestore/FaceFileStore.kt:95 | `mkdirs()`: the missing directories on the way to the target are made (fixed by `MkdirsFrame`, `MkdirsMakesDirectory`, `MkdirsWellFormed`) |
| FileTree.AfterWriteText | src/main/kotlin/com/github/charleslzq/facestore/FaceFileStore.kt:96 | `writeText`: the file holds the text, or the write fails when the parent is not a directory or the target is one (fixed by `WriteTextWellFormed` and `Disk.WriteText`) |
| FileTree.AfterDeleteRecursively | src/main/kotlin/com/github/charleslzq/facestore/FaceFileStore.kt:84 | `deleteRecursively()`: the target and everything below it are removed (fixed by `DeleteWellFormed` and `Disk.DeleteRecursively`) |
| FileTree.AbsolutePathResolves | src/main/kotlin/com/github/charleslzq/facestore/FaceFileStore.kt:37 | the absolute path of a directory reads back as that directory's location |
| FileTree.ChildrenExactly | src/main/kotlin/com/github/charleslzq/facestore/FaceFileStore.kt:33-39 | a directory listing holds a name exactly when the entry `dir/name` exists |
| FileTree.AncestorsAreDirectories | src/main/kotlin/com/github/charleslzq/facestore/FaceFileStore.kt:95 | on a well-formed disk every ancestor of an existing entry is a directory |
| FileTree.MkdirsFrame | src/main/kotlin/com/github/charleslzq/facestore/FaceFileStore.kt:95 | `mkdirs` keeps every existing entry, and the only entries it adds are directories on the way to its target |
| FileTree.MkdirsWellFormed | src/main/kotlin/com/github/charleslzq/facestore/FaceFileStore.kt:95 | `mkdirs` keeps the disk well-formed (root is a directory, every entry's parent is a directory) |
| FileTree.MkdirsMakesDirectory | src/main/kotlin/com/github/charleslzq/facestore/FaceFileStore.kt:95 | with no regular file on the way, `mkdirs` leaves its target a directory |
| FileTree.WriteTextWellFormed | src/main/kotlin/com/github/charleslzq/facestore/FaceFileStore.kt:96 | a successful `writeText` keeps the disk well-formed |
| FileTree.DeleteWellFormed | src/main/kotlin/com/github/charleslzq/facestore/FaceFileStore.kt:84 | `deleteRecursively` keeps the disk well-formed |
| FileTree.Disk.Mkdirs | src/main/kotlin/com/github/charleslzq/facestore/FaceFileStore.kt:95 | the disk's new tree is the `mkdirs` effect on the old one, and stays well-formed |
| FileTree.Disk.WriteText | src/main/kotlin/com/github/charleslzq/facestore/FaceFileStore.kt:96 | the write succeeds exactly when the parent is a directory and the target is neither the root nor a directory; on success the file holds the text, otherwise nothing changes |
| FileTree.Disk.DeleteRecursively | src/main/kotlin/com/github/charleslzq/facestore/FaceFileStore.kt:84 | the target and everything below it is removed and nothing else; the disk stays well-formed |
| FaceStore.FaceDataOf | src/main/kotlin/com/github/charleslzq/facestore/FaceStore.kt:14 | a `FaceData` built without a face list keeps the person and has no faces |
| FaceStore.ReadOnlyDefaults | src/main/kotlin/com/github/charleslzq/facestore/FaceStore.kt:21-28 | a read-only store that overrides nothing keeps its data type, lists nothing and finds nothing, for every state and argument |
| FaceStore.DefaultMutatorChangesNothing | src/main/kotlin/com/github/charleslzq/facestore/FaceStore.kt:30-37 | each default mutator leaves the state unchanged |
| FaceStore.DefaultMutatorsChangeNothing | src/main/kotlin/com/github/charleslzq/facestore/FaceStore.kt:30-37 | any sequence of default mutator calls leaves the state unchanged |
| FaceStore.DefaultHookChangesNothing | src/main/kotlin/com/github/charleslzq/facestore/FaceStore.kt:39-45 | each default listener hook leaves the listener's state unchanged |
| FaceStore.DefaultHooksChangeNothing | src/main/kotlin/com/github/charleslzq/facestore/FaceStore.kt:39-45 | any sequence of default hook calls leaves the state unchanged |
| FaceStore.ReadWriteDefaults | src/main/kotlin/com/github/charleslzq/facestore/FaceStore.kt:30-37 | a read-write store whose mutators are the defaults (fixed by `DefaultMutatorChangesNothing`, `DefaultMutatorsChangeNothing`) |
| FaceStore.ListenerDefaults | src/main/kotlin/com/github/charleslzq/facestore/FaceStore.kt:39-45 | a listener whose hooks are the defaults (fixed by `DefaultHookChangesNothing`, `DefaultHooksChangeNothing`) |
| FaceStore.CompositeReadWriteFaceStore | src/main/kotlin/com/github/charleslzq/facestore/FaceStore.kt:47-56 | the composite's data type and each of its five reads equal the wrapped store's, for every state and argument; its mutators are the subclass's |
| FaceStore.CompositeMutatesLikeSubclass | src/main/kotlin/com/github/charleslzq/facestore/FaceStore.kt:47-56 | any sequence of mutations on the composite acts as on the subclass alone |
| FaceFileStore.UpToNewline | src/main/kotlin/com/github/charleslzq/facestore/FaceFileStore.kt:44 | the token a newline-delimited scanner returns is the longest newline-free prefix of the text: it holds no newline, and it ends at the end of the text or just before a newline |
| FaceFileStore.FirstToken | src/main/kotlin/com/github/charleslzq/facestore/FaceFileStore.kt:44 | there is no first token exactly when the file is empty or a single newline; otherwise, after one leading newline is skipped, the token is the longest newline-free prefix of the rest |
| FaceFileStore.LoadDataFile | src/main/kotlin/com/github/charleslzq/facestore/FaceFileStore.kt:41-51 | the load is absent without error exactly when `…/data.json` is not a regular file or its first token decodes to `null`; a record is returned only from a regular file |
| FaceFileStore.ListValidSubDirs | src/main/kotlin/com/github/charleslzq/facestore/FaceFileStore.kt:33-34 | `listValidSubDirs(paths…)`: the entries of the joined directory passing `dataFileExists`, failing on a null listing (fixed by `ListValidSubDirsExactly`, `EmptyDirectoryListsNothing`) |
| FaceFileStore.DataFileExists | src/main/kotlin/com/github/charleslzq/facestore/FaceFileStore.kt:36-39 | the filter: `dir/name` is a directory with an entry named `data.json` (fixed by `ListValidSubDirsExactly`) |
| FaceFileStore.PersonIdsIn | src/main/kotlin/com/github/charleslzq/facestore/FaceFileStore.kt:23 | `getPersonIds()` on a disk snapshot (fixed by `PersonIdsExactly`, `FreshRootListsNoPersons`) |
| FaceFileStore.PersonIn | src/main/kotlin/com/github/charleslzq/facestore/FaceFileStore.kt:25-26 | `getPerson(p)` on a disk snapshot (fixed by `GetPersonReadsItsDataFile`, `SavePersonThenGet`) |
| FaceFileStore.FaceIdsIn | src/main/kotlin/com/github/charleslzq/facestore/FaceFileStore.kt:28 | `getFaceIdList(p)` on a disk snapshot (fixed by `FaceIdsExactly`) |
| FaceFileStore.FaceIn | src/main/kotlin/com/github/charleslzq/facestore/FaceFileStore.kt:30-31 | `getFace(p, f)` on a disk snapshot (fixed by `GetFaceReadsItsDataFile`, `SaveFaceThenGet`) |
| FaceFileStore.Broadcast | src/main/kotlin/com/github/charleslzq/facestore/FaceFileStore.kt:71 | the calls `listeners.forEach` makes (fixed by `BroadcastInOrder` and `Notify`) |
| FaceFileStore.SaveDataFileEffect | src/main/kotlin/com/github/charleslzq/facestore/FaceFileStore.kt:94-97 | `saveDataFile` as a disk change and an outcome (fixed by `SaveDataFileFrame`, `SaveDataFileThenLoad`, `SaveDataFileSucceeds`, `SaveDataFileFailsOnDirectory`) |
| FaceFileStore.ConditionalSaveEffect | src/main/kotlin/com/github/charleslzq/facestore/FaceFileStore.kt:67-81 | the read-check-write-notify protocol shared by both saves (fixed by `ConditionalSaveNotifiesIff`, `StaleSaveIsNoOp`, `ConditionalLastWriteWins`) |
| FaceFileStore.SavePersonEffect | src/main/kotlin/com/github/charleslzq/facestore/FaceFileStore.kt:67-73 | `savePerson` as a disk change, an outcome and an event (fixed by `SavePersonNotifiesIff`, `SavePersonThenGet`, `SavePersonTouchesOnlyItsDirectory`) |
| FaceFileStore.SaveFaceEffect | src/main/kotlin/com/github/charleslzq/facestore/FaceFileStore.kt:75-81 | `saveFace` likewise (fixed by `SaveFaceThenGet`, `SaveFaceCreatesDirectories`, `SaveFaceLeavesPersonFile`) |
| FaceFileStore.DeletePersonEffect | src/main/kotlin/com/github/charleslzq/facestore/FaceFileStore.kt:83-86 | `deletePerson` likewise (fixed by `DeletePersonRemovesPerson`) |
| FaceFileStore.DeleteFaceEffect | src/main/kotlin/com/github/charleslzq/facestore/FaceFileStore.kt:88-91 | `deleteFace` likewise (fixed by `DeleteFaceRemovesOnlyThatFace`) |
| FaceFileStore.FaceFileReadOnlyStore.constructor | src/main/kotlin/com/github/charleslzq/facestore/FaceFileStore.kt:19-21 | construction runs `mkdirs` on the root |
| FaceFileStore.FaceFileReadWriteStore.constructor | src/main/kotlin/com/github/charleslzq/facestore/FaceFileStore.kt:59-65 | the read-write store makes its root and starts with the given listeners and an empty call log |
| FaceFileStore.FaceFileReadWriteStore.SavePerson | src/main/kotlin/com/github/charleslzq/facestore/FaceFileStore.kt:67-73 | the disk, the outcome and the listener calls become exactly those of the `savePerson` effect |
| FaceFileStore.FaceFileReadWriteStore.SaveFace | src/main/kotlin/com/github/charleslzq/facestore/FaceFileStore.kt:75-81 | the disk, the outcome and the listener calls become exactly those of the `saveFace` effect |
| FaceFileStore.FaceFileReadWriteStore.DeletePerson | src/main/kotlin/com/github/charleslzq/facestore/FaceFileStore.kt:83-86 | the person's subtree is removed and every listener is called with `onPersonDelete` |
| FaceFileStore.FaceFileReadWriteStore.DeleteFace | src/main/kotlin/com/github/charleslzq/facestore/FaceFileStore.kt:88-91 | the face's subtree is removed and every listener is called with `onFaceDelete` |
| FaceFileStore.FaceFileReadWriteStore.SaveDataFile | src/main/kotlin/com/github/charleslzq/facestore/FaceFileStore.kt:94-97 | `mkdirs` runs on the directory, then `data.json` is written; a failed write keeps the directories made |
| FaceFileStore.FaceFileReadWriteStore.Notify | src/main/kotlin/com/github/charleslzq/facestore/FaceFileStore.kt:71 | the `forEach` over the listeners appends one call per listener, in list order |
| FaceFileStoreProperties.DataFileNameIsValid | src/main/kotlin/com/github/charleslzq/facestore/FaceFileStore.kt:54 | `data.json` is a single path segment, and neither `.` nor `..` |
| FaceFileStoreProperties.PathnameOfDirectory | src/main/kotlin/com/github/charleslzq/facestore/FaceFileStore.kt:23 | the pathname `getPersonIds` lists is the store directory itself |
| FaceFileStoreProperties.PathnameOfPerson | src/main/kotlin/com/github/charleslzq/facestore/FaceFileStore.kt:28 | the pathname `getFaceIdList(p)` lists is `directory/p`, never empty |
| FaceFileStoreProperties.DataFileUnder | src/main/kotlin/com/github/charleslzq/facestore/FaceFileStore.kt:42 | `Paths.get(names…, DATA_FILE_NAME)` is the entry `data.json` of `Paths.get(names…)` |
| FaceFileStoreProperties.ResolveUnderRoot | src/main/kotlin/com/github/charleslzq/facestore/FaceFileStore.kt:34 | for valid ids, `Paths.get(directory, ids…)` is the root followed by the ids |
| FaceFileStoreProperties.EntryLocation | src/main/kotlin/com/github/charleslzq/facestore/FaceFileStore.kt:37 | `Paths.get(dir.absolutePath, name)` names the entry `name` of `dir` |
| FaceFileStoreProperties.BroadcastInOrder | src/main/kotlin/com/github/charleslzq/facestore/FaceFileStore.kt:71 | a notification makes one call per listener, the k-th to the k-th listener |
| FaceFileStoreProperties.SavePersonCalls | src/main/kotlin/com/github/charleslzq/facestore/FaceFileStore.kt:67-73 | `savePerson` calls each listener once in order with `onPersonUpdate` when it writes, and calls no listener otherwise |
| FaceFileStoreProperties.SaveFaceCalls | src/main/kotlin/com/github/charleslzq/facestore/FaceFileStore.kt:75-81 | the same for `saveFace` with `onFaceUpdate` |
| FaceFileStoreProperties.DeleteCalls | src/main/kotlin/com/github/charleslzq/facestore/FaceFileStore.kt:83-91 | both deletes call each listener once in order, whatever was on disk |
| FaceFileStoreProperties.UpToNewlineOfLine | src/main/kotlin/com/github/charleslzq/facestore/FaceFileStore.kt:44 | a newline-free text is scanned whole |
| FaceFileStoreProperties.FirstTokenOfLine | src/main/kotlin/com/github/charleslzq/facestore/FaceFileStore.kt:44 | a file holding one non-empty line yields that line as its first token |
| FaceFileStoreProperties.LoadDependsOnDataFileOnly | src/main/kotlin/com/github/charleslzq/facestore/FaceFileStore.kt:41-51 | a load reads the disk only at its own `data.json` |
| FaceFileStoreProperties.ListValidSubDirsExactly | src/main/kotlin/com/github/charleslzq/facestore/FaceFileStore.kt:33-39 | the listing succeeds exactly when the joined pathname is non-empty and names a directory; it then holds exactly the sub-directories with an entry named `data.json`, directory or file |
| FaceFileStoreProperties.PersonIdsExactly | src/main/kotlin/com/github/charleslzq/facestore/FaceFileStore.kt:23 | `getPersonIds` lists exactly the directories `root/p` holding a `data.json` entry, and fails exactly when the store directory is empty or the root is not a directory |
| FaceFileStoreProperties.FaceIdsExactly | src/main/kotlin/com/github/charleslzq/facestore/FaceFileStore.kt:28 | `getFaceIdList(p)` lists exactly the directories `root/p/f` holding a `data.json` entry, and fails exactly when `root/p` is not a directory |
| FaceFileStoreProperties.GetPersonReadsItsDataFile | src/main/kotlin/com/github/charleslzq/facestore/FaceFileStore.kt:25-26 | `getPerson(p)` is absent exactly when `root/p/data.json` is not a regular file or holds `null`; otherwise it is the decoded first line, a missing line or a malformed one being an error |
| FaceFileStoreProperties.GetFaceReadsItsDataFile | src/main/kotlin/com/github/charleslzq/facestore/FaceFileStore.kt:30-31 | the same for `getFace(p, f)` at `root/p/f/data.json` |
| FaceFileStoreProperties.SaveDataFileFrame | src/main/kotlin/com/github/charleslzq/facestore/FaceFileStore.kt:94-97 | `saveDataFile` changes no entry but its `data.json`, and adds entries only on the way to it |
| FaceFileStoreProperties.SaveDataFileKeeps | src/main/kotlin/com/github/charleslzq/facestore/FaceFileStore.kt:94-97 | a location neither the data file nor on the way to it is left as it was |
| FaceFileStoreProperties.SaveDataFileWellFormed | src/main/kotlin/com/github/charleslzq/facestore/FaceFileStore.kt:94-97 | `saveDataFile` keeps the disk well-formed, whether or not the write succeeds |
| FaceFileStoreProperties.SaveDataFileThenLoad | src/main/kotlin/com/github/charleslzq/facestore/FaceFileStore.kt:94-97 | after a successful `saveDataFile`, `loadDataFile` on the same path returns the record |
| FaceFileStoreProperties.SaveDataFileSucceeds | src/main/kotlin/com/github/charleslzq/facestore/FaceFileStore.kt:94-97 | with no regular file on the way and no directory at `data.json`, the write succeeds |
| FaceFileStoreProperties.SaveDataFileFailsOnDirectory | src/main/kotlin/com/github/charleslzq/facestore/FaceFileStore.kt:96 | a `data.json` that is a directory makes the write fail |
| FaceFileStoreProperties.RewriteSucceeds | src/main/kotlin/com/github/charleslzq/facestore/FaceFileStore.kt:94-97 | once `data.json` is a regular file, saving over it succeeds |
| FaceFileStoreProperties.ConditionalSaveNotifiesIff | src/main/kotlin/com/github/charleslzq/facestore/FaceFileStore.kt:67-81 | the shared save protocol notifies exactly when the stored record was read without error, the guard accepts and the write succeeds |
| FaceFileStoreProperties.StaleSaveIsNoOp | src/main/kotlin/com/github/charleslzq/facestore/FaceFileStore.kt:69 | a record with an equal or earlier `updateTime` than the stored one changes nothing and notifies no one |
| FaceFileStoreProperties.ConditionalSaveThenLoad | src/main/kotlin/com/github/charleslzq/facestore/FaceFileStore.kt:67-81 | after an accepted save the record reads back as saved |
| FaceFileStoreProperties.ConditionalLastWriteWins | src/main/kotlin/com/github/charleslzq/facestore/FaceFileStore.kt:67-81 | of two saves to one path, the second is kept exactly when it is strictly newer; otherwise the first stays and nothing changes |
| FaceFileStoreProperties.SaveOverNullRecord | src/main/kotlin/com/github/charleslzq/facestore/FaceFileStore.kt:45-48 | a `data.json` holding `null` reads as no record, so the next save is accepted, notifies, and reads back |
| FaceFileStoreProperties.SavePersonNotifiesIff | src/main/kotlin/com/github/charleslzq/facestore/FaceFileStore.kt:67-73 | `savePerson` writes and notifies exactly when the stored person is absent or strictly older and the write succeeds; a stale save is a no-op; a read error propagates |
| FaceFileStoreProperties.SavePersonThenGet | src/main/kotlin/com/github/charleslzq/facestore/FaceFileStore.kt:67-73 | after an accepted `savePerson(x)`, `getPerson(x.id)` returns `x` |
| FaceFileStoreProperties.SavePersonLastWriteWins | src/main/kotlin/com/github/charleslzq/facestore/FaceFileStore.kt:68-70 | a second save of the same person wins exactly when strictly newer |
| FaceFileStoreProperties.BelowMissingEntry | src/main/kotlin/com/github/charleslzq/facestore/FaceFileStore.kt:95 | on a well-formed disk nothing exists below a missing entry |
| FaceFileStoreProperties.SavePersonOverwritesNullRecord | src/main/kotlin/com/github/charleslzq/facestore/FaceFileStore.kt:67-73 | a person stored as `null` reads as absent and is overwritten by the next `savePerson`, whatever its `updateTime` |
| FaceFileStoreProperties.NewPersonHasNothingOnPath | src/main/kotlin/com/github/charleslzq/facestore/FaceFileStore.kt:95 | under an existing root, no regular file lies on the way to anything below a person without a directory |
| FaceFileStoreProperties.SaveUnderNewPersonSucceeds | src/main/kotlin/com/github/charleslzq/facestore/FaceFileStore.kt:94-97 | a save below a person without a directory finds nothing stored, makes its directories and writes |
| FaceFileStoreProperties.SaveNewPersonSucceeds | src/main/kotlin/com/github/charleslzq/facestore/FaceFileStore.kt:67-73 | under an existing root, a first save of a valid person id is written and notified |
| FaceFileStoreProperties.SavePersonFailsOnDirectoryDataFile | src/main/kotlin/com/github/charleslzq/facestore/FaceFileStore.kt:70 | a person whose `data.json` is a directory is never saved: the write fails and no one is notified |
| FaceFileStoreProperties.SavePersonTouchesOnlyItsDirectory | src/main/kotlin/com/github/charleslzq/facestore/FaceFileStore.kt:70 | `savePerson` creates or changes nothing but `root/x.id` and `root/x.id/data.json` |
| FaceFileStoreProperties.SaveFaceThenGet | src/main/kotlin/com/github/charleslzq/facestore/FaceFileStore.kt:75-81 | after an accepted `saveFace(p, f)`, `getFace(p, f.id)` returns `f` |
| FaceFileStoreProperties.SaveFaceLastWriteWins | src/main/kotlin/com/github/charleslzq/facestore/FaceFileStore.kt:76-78 | a second save of the same face wins exactly when strictly newer |
| FaceFileStoreProperties.SaveFaceCreatesDirectories | src/main/kotlin/com/github/charleslzq/facestore/FaceFileStore.kt:78 | `saveFace` creates the missing person and face directories and succeeds |
| FaceFileStoreProperties.SaveFaceKeepsPersonEntry | src/main/kotlin/com/github/charleslzq/facestore/FaceFileStore.kt:78 | `saveFace` leaves the entry `root/p/data.json` as it was |
| FaceFileStoreProperties.SaveFaceLeavesPersonFile | src/main/kotlin/com/github/charleslzq/facestore/FaceFileStore.kt:75-81 | `saveFace` never writes `root/p/data.json`: the person reads the same, and a person with no data file stays unlisted |
| FaceFileStoreProperties.FaceNamedDataJsonMakesDirectory | src/main/kotlin/com/github/charleslzq/facestore/FaceFileStore.kt:78 | saving a face named `data.json` under a new person succeeds and leaves `root/p/data.json` a directory |
| FaceFileStoreProperties.FaceNamedDataJsonListsPerson | src/main/kotlin/com/github/charleslzq/facestore/FaceFileStore.kt:78 | a face named `data.json`, saved under a new person, makes that person listed although `getPerson` finds nothing |
| FaceFileStoreProperties.DeletePersonRemovesPerson | src/main/kotlin/com/github/charleslzq/facestore/FaceFileStore.kt:83-86 | after `deletePerson(p)` neither the person nor any of its faces is found, `p` is not listed, its face listing fails, nothing outside `root/p` changes, and the listeners are notified |
| FaceFileStoreProperties.DeleteFaceRemovesOnlyThatFace | src/main/kotlin/com/github/charleslzq/facestore/FaceFileStore.kt:88-91 | after `deleteFace(p, f)` that face is gone, the person and every sibling face read as before, and the listeners are notified |
| FaceFileStoreProperties.FreshRootListsNoPersons | src/main/kotlin/com/github/charleslzq/facestore/FaceFileStore.kt:19-23 | for a non-empty store directory, after the constructor's `mkdirs` on a root with nothing below it, `getPersonIds` is empty |
| FaceFileStoreProperties.NewStoreListsNoPersons | src/main/kotlin/com/github/charleslzq/facestore/FaceFileStore.kt:19-23 | a store constructed on an empty disk with a non-empty directory lists no persons |
| FaceFileStoreProperties.EmptyDirectoryListsNothing | src/main/kotlin/com/github/charleslzq/facestore/FaceFileStore.kt:23 | with the empty pathname as store directory, `getPersonIds()` throws on any disk |

## Left out

- Gson, the joda-time converters and the JSON format are foreign libraries. The codec is a pair of functions, and a decode gives a record, `null` or a malformed result. A malformed input (where `fromJson` throws) is the error `DecodeFailure`; `null` (Gson's result for the JSON `null` and for empty or blank input) reads as no record. The lemmas that need the codec assume a round trip, and an encoding that is non-empty and free of newlines. Which texts decode to `null` is left to the codec.
- `personClass`, `faceClass` and `FaceDataType` carry Java class tokens. Persons and faces are both `Meta`, decoded by one codec, and `FaceDataType` keeps only two names.
- All `java.io.File` and `Scanner` I/O is modelled on the in-memory tree. The only failures modelled are the structural ones:
  - `writeText` fails where its parent is not a directory or its target is a directory;
  - `list` gives null on a missing directory;
  - the scanner finds no token.
  Permissions, full disks, and the `mkdirs` or `deleteRecursively` return flags are not modelled.
- The scanner is modelled only up to the first token: it skips one leading newline and reads up to the next one. Other whitespace and character decoding are not modelled.
- Listing order is not modelled. Listings are sets, because the filesystem gives no order.
- Timestamps are integers, and `isBefore` is `<`.
- `getFaceData`, `saveFaceData`, `deleteFaceData` and `clearFace` are not implemented by the file store, which inherits the interface defaults. Those defaults are modelled in `face_store.dfy` (`ReadOnlyDefaults`, `DefaultMutatorChangesNothing`), but they are not re-wired into the file-store classes.
- The file store calls `onPersonDelete`/`onFaceDelete` and implements `ListenableReadWriteFaceStore`. Neither matches FaceStore.kt, and `ListenableReadWriteFaceStore` is not part of this model. The file store's own events are modelled as they are called. The listeners are opaque references, and a call is recorded in a log instead of being run.
- Exceptions thrown by listeners, and concurrent callers, are not modelled. The read-check-write in the saves is not atomic, and the listener list is shared. All calls are sequential.
- Identifiers get no sanitisation, because the code does none. The model accepts any id, but it treats `.` and `..` as ordinary names, where the filesystem resolves them to the directory itself and its parent. The lemmas that need the layout `root/p/f` therefore require plain ids: non-empty, free of the separator, and neither `.` nor `..`. What an id of `.` or `..` (or one holding a separator) does to the disk is not modelled faithfully.
- `File.separator` is fixed as `/`. Absolute and relative roots are not told apart: a leading separator is dropped like any empty part, and a relative path is not resolved against a working directory. The empty pathname is kept apart: `mkdirs` on it changes nothing and listing it fails, as `File("")` does, while `Paths.get("", p)` joins to `/p`, an entry at the top of the tree. The construction lemmas therefore require a non-empty store directory.
- The read-only store's getters (`GetPersonIds`, `GetPerson`, `GetFaceIdList`, `GetFace`) forward to snapshot functions. Their properties are proved as lemmas about those functions (`PersonIdsExactly`, `GetPersonReadsItsDataFile`, …), not as contracts on the getters.
