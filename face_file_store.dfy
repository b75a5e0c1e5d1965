/** FaceFileStore.kt: a store that keeps each person at `root/personId/data.json` and each
    face at `root/personId/faceId/data.json`. The reads are functions of a disk snapshot; the
    two store classes hold the configuration, the shared disk and the listener list, and their
    mutators change the disk step by step and then call the listeners. */
module FaceFileStore {
  import opened Wrappers
  import Paths
  import opened FileTree
  import opened FaceStore

  /** `DATA_FILE_NAME`. */
  const DataFileName: string := "data.json"

  /** What a store operation can fail with. */
  datatype StoreError =
    | NoSuchElement   // `Scanner.next()` found no token in the data file
    | DecodeFailure   // the codec rejected the first line of the data file
    | NullListing     // `File.list` returned null (no such directory), so `toList()` throws
    | WriteFailure    // `writeText` could not open the data file for writing

  /** What `gson.fromJson` makes of a line: a record, null (for the JSON literal `null`, an
      empty or blank text), or an exception. */
  datatype Decoded = Record(record: Meta) | Null | Malformed

  /** The JSON codec the store is given (`gson.toJson`, `gson.fromJson`). */
  datatype Codec = Codec(encode: Meta -> string, decode: string -> Decoded)

  /** What the store relies on when it reads back what it wrote: decoding an encoding gives the
      record back, and an encoding is one non-empty line. */
  ghost predicate ValidCodec(codec: Codec) {
    forall m :: codec.decode(codec.encode(m)) == Record(m) && codec.encode(m) != "" && '\n' !in codec.encode(m)
  }

  /** A listener object registered with a read-write store, by identity. */
  type ListenerRef = nat

  /** The listener hooks the store calls, with their arguments. */
  datatype Event =
    | OnPersonUpdate(person: Meta)
    | OnFaceUpdate(personId: string, face: Meta)
    | OnPersonDelete(personId: string)
    | OnFaceDelete(personId: string, faceId: string)

  datatype ListenerCall = ListenerCall(listener: ListenerRef, event: Event)

  /** `listeners.forEach { it.hook(...) }`: one call per listener, in list order. */
  function Broadcast(listeners: seq<ListenerRef>, event: Event): seq<ListenerCall> {
    if listeners == [] then []
    else Broadcast(listeners[..|listeners| - 1], event) + [ListenerCall(listeners[|listeners| - 1], event)]
  }

  // ---------------------------------------------------------------------------------------
  // Locations

  /** The pathname `Paths.get(names...)` joins. */
  function Pathname(names: seq<string>): string {
    Paths.Get(Paths.Somes(names)).absolutePath
  }

  /** An id the filesystem takes as a name of its own: a valid segment other than `.` and `..`,
      which the filesystem (not java.io.File) resolves to the directory itself or its parent. */
  predicate PlainId(id: string) {
    Paths.ValidSegment(id) && id != "." && id != ".."
  }

  /** The location `Paths.get(names...).toFile()` denotes. */
  function Resolve(names: seq<string>): Location {
    Paths.Get(Paths.Somes(names)).ToFile()
  }

  /** The store's root directory, `File(directory)`. */
  function Root(directory: string): Location {
    Resolve([directory])
  }

  /** `Paths.get(names..., DATA_FILE_NAME).toFile()`. */
  function DataFile(names: seq<string>): Location {
    Resolve(names + [DataFileName])
  }

  lemma ResolveIsValid(names: seq<string>)
    ensures ValidLocation(Resolve(names))
  {
    Paths.GetLocation(names);
    Paths.ComponentsAllAreValid(names);
  }

  // ---------------------------------------------------------------------------------------
  // Reads on a snapshot of the disk

  /** The text of `s` up to its first newline. */
  function UpToNewline(s: string): (line: string)
    ensures '\n' !in line
    ensures line <= s && (|line| < |s| ==> s[|line|] == '\n')
  {
    if s == [] || s[0] == '\n' then [] else [s[0]] + UpToNewline(s[1..])
  }

  /** `Scanner(file).useDelimiter("\n").next()`: one leading delimiter is skipped, then the token
      runs up to the next newline; None (`NoSuchElementException`) when nothing is left. */
  function FirstToken(content: string): (token: Option<string>)
    ensures token.None? <==> content == "" || content == "\n"
    ensures token.Some? ==>
      var rest := if content != [] && content[0] == '\n' then content[1..] else content;
      && '\n' !in token.value
      && token.value <= rest
      && (|token.value| < |rest| ==> rest[|token.value|] == '\n')
  {
    var rest := if content != [] && content[0] == '\n' then content[1..] else content;
    if rest == [] then None else Some(UpToNewline(rest))
  }

  /** The file `data.json` under `dirNames` is a regular file whose first token decodes to null. */
  predicate HoldsNull(t: Tree, codec: Codec, dirNames: seq<string>) {
    var file := DataFile(dirNames);
    IsFile(t, file) && FirstToken(t[file].content).Some? && codec.decode(FirstToken(t[file].content).value).Null?
  }

  /** `loadDataFile(clazz, dirNames...)`: absent unless `data.json` is a regular file, otherwise
      its first token decoded, a null decoding passed on as absent. */
  function LoadDataFile(t: Tree, codec: Codec, dirNames: seq<string>): (r: Result<Option<Meta>, StoreError>)
    ensures r == Success(None) <==> !IsFile(t, DataFile(dirNames)) || HoldsNull(t, codec, dirNames)
    ensures r.Success? && r.value.Some? ==> IsFile(t, DataFile(dirNames))
  {
    var file := DataFile(dirNames);
    if Exists(t, file) && IsFile(t, file) then
      match FirstToken(t[file].content)
      case None => Failure(NoSuchElement)
      case Some(line) =>
        match codec.decode(line)
        case Malformed => Failure(DecodeFailure)
        case Null => Success(None)
        case Record(record) => Success(Some(record))
    else
      Success(None)
  }

  /** `dataFileExists(dir, name)`: `dir/name` is a directory with an entry named `data.json`. */
  function DataFileExists(t: Tree, dir: Location, name: string): bool {
    var file := Resolve([AbsolutePath(dir), name]);
    Exists(t, file) && IsDirectory(t, file) && DataFileName in Children(t, file)
  }

  /** `listValidSubDirs(paths...)`: the entries of the directory that pass `dataFileExists`;
      `toList()` on the null listing of a missing directory throws, and so it does for the empty
      pathname, which `File.list` does not take for any directory. */
  function ListValidSubDirs(t: Tree, paths: seq<string>): Result<set<string>, StoreError> {
    var dir := Resolve(paths);
    if Pathname(paths) == "" then Failure(NullListing)
    else
      match List(t, dir)
      case None => Failure(NullListing)
      case Some(names) => Success(set name | name in names && DataFileExists(t, dir, name))
  }

  /** `getPersonIds()`. */
  function PersonIdsIn(t: Tree, directory: string): Result<set<string>, StoreError> {
    ListValidSubDirs(t, [directory])
  }

  /** `getPerson(personId)`. */
  function PersonIn(t: Tree, codec: Codec, directory: string, personId: string): Result<Option<Meta>, StoreError> {
    LoadDataFile(t, codec, [directory, personId])
  }

  /** `getFaceIdList(personId)`. */
  function FaceIdsIn(t: Tree, directory: string, personId: string): Result<set<string>, StoreError> {
    ListValidSubDirs(t, [directory, personId])
  }

  /** `getFace(personId, faceId)`. */
  function FaceIn(t: Tree, codec: Codec, directory: string, personId: string, faceId: string): Result<Option<Meta>, StoreError> {
    LoadDataFile(t, codec, [directory, personId, faceId])
  }

  // ---------------------------------------------------------------------------------------
  // What the mutators do to the disk and to the listeners

  /** The new disk, the outcome, and the hook the listeners are then called with (if any). */
  datatype Effect = Effect(tree: Tree, outcome: Outcome<StoreError>, notified: Option<Event>)

  /** The listener calls an effect makes, in order. */
  function CallsOf(e: Effect, listeners: seq<ListenerRef>): seq<ListenerCall> {
    if e.notified.Some? then Broadcast(listeners, e.notified.value) else []
  }

  /** The write guard: nothing stored, or the stored `updateTime` is strictly before. */
  predicate Accepts(stored: Option<Meta>, incoming: Meta) {
    stored.None? || stored.value.updateTime < incoming.updateTime
  }

  /** `saveDataFile(target, path...)`: `mkdirs` on the directory, then `writeText` of the
      encoding to its `data.json`; when the write throws, the directories made stay. */
  function SaveDataFileEffect(t: Tree, codec: Codec, target: Meta, path: seq<string>): Effect {
    var made := AfterMkdirs(t, Resolve(path));
    match AfterWriteText(made, DataFile(path), codec.encode(target))
    case Some(written) => Effect(written, Pass, None)
    case None => Effect(made, Fail(WriteFailure), None)
  }

  /** The protocol `savePerson` and `saveFace` share: read the stored record (a read error
      propagates), write only when the guard accepts, and notify only after a write. */
  function ConditionalSaveEffect(t: Tree, codec: Codec, path: seq<string>, record: Meta, event: Event): Effect {
    match LoadDataFile(t, codec, path)
    case Failure(e) => Effect(t, Fail(e), None)
    case Success(stored) =>
      if Accepts(stored, record) then
        var saved := SaveDataFileEffect(t, codec, record, path);
        saved.(notified := if saved.outcome.Pass? then Some(event) else None)
      else
        Effect(t, Pass, None)
  }

  /** `savePerson(person)`. */
  function SavePersonEffect(t: Tree, codec: Codec, directory: string, person: Meta): Effect {
    ConditionalSaveEffect(t, codec, [directory, person.id], person, OnPersonUpdate(person))
  }

  /** `saveFace(personId, face)`. */
  function SaveFaceEffect(t: Tree, codec: Codec, directory: string, personId: string, face: Meta): Effect {
    ConditionalSaveEffect(t, codec, [directory, personId, face.id], face, OnFaceUpdate(personId, face))
  }

  /** `deletePerson(personId)`: unconditional recursive removal, then notification. */
  function DeletePersonEffect(t: Tree, directory: string, personId: string): Effect {
    Effect(AfterDeleteRecursively(t, Resolve([directory, personId])), Pass, Some(OnPersonDelete(personId)))
  }

  /** `deleteFace(personId, faceId)`. */
  function DeleteFaceEffect(t: Tree, directory: string, personId: string, faceId: string): Effect {
    Effect(AfterDeleteRecursively(t, Resolve([directory, personId, faceId])), Pass, Some(OnFaceDelete(personId, faceId)))
  }

  // ---------------------------------------------------------------------------------------
  // The stores

  /** `FaceFileReadOnlyStore`. */
  class FaceFileReadOnlyStore {
    const directory: string
    const codec: Codec
    const disk: Disk

    ghost predicate Valid()
      reads this, disk
    {
      disk.Valid()
    }

    /** The `init` block: `File(directory).mkdirs()`. */
    constructor (directory: string, codec: Codec, disk: Disk)
      requires disk.Valid()
      modifies disk
      ensures Valid() && this.directory == directory && this.codec == codec && this.disk == disk
      ensures disk.tree == AfterMkdirs(old(disk.tree), Root(directory))
    {
      this.directory := directory;
      this.codec := codec;
      this.disk := disk;
      new;
      ResolveIsValid([directory]);
      disk.Mkdirs(Root(directory));
    }

    function GetPersonIds(): Result<set<string>, StoreError>
      reads disk
    {
      PersonIdsIn(disk.tree, directory)
    }

    function GetPerson(personId: string): Result<Option<Meta>, StoreError>
      reads disk
    {
      PersonIn(disk.tree, codec, directory, personId)
    }

    function GetFaceIdList(personId: string): Result<set<string>, StoreError>
      reads disk
    {
      FaceIdsIn(disk.tree, directory, personId)
    }

    function GetFace(personId: string, faceId: string): Result<Option<Meta>, StoreError>
      reads disk
    {
      FaceIn(disk.tree, codec, directory, personId, faceId)
    }
  }

  /** `FaceFileReadWriteStore`: the read-only store it extends, the listener list, and the
      calls made to the listeners so far. */
  class FaceFileReadWriteStore {
    const readOnly: FaceFileReadOnlyStore
    var listeners: seq<ListenerRef>
    var calls: seq<ListenerCall>

    ghost predicate Valid()
      reads this, readOnly, readOnly.disk
    {
      readOnly.Valid()
    }

    constructor (directory: string, codec: Codec, disk: Disk, listeners: seq<ListenerRef> := [])
      requires disk.Valid()
      modifies disk
      ensures Valid() && fresh(readOnly)
      ensures readOnly.directory == directory && readOnly.codec == codec && readOnly.disk == disk
      ensures disk.tree == AfterMkdirs(old(disk.tree), Root(directory))
      ensures this.listeners == listeners && calls == []
    {
      readOnly := new FaceFileReadOnlyStore(directory, codec, disk);
      this.listeners := listeners;
      calls := [];
    }

    method SavePerson(person: Meta) returns (outcome: Outcome<StoreError>)
      requires Valid()
      modifies readOnly.disk, this`calls
      ensures Valid()
      ensures var e := SavePersonEffect(old(readOnly.disk.tree), readOnly.codec, readOnly.directory, person);
        readOnly.disk.tree == e.tree && outcome == e.outcome && calls == old(calls) + CallsOf(e, listeners)
    {
      var oldData := readOnly.GetPerson(person.id);
      if oldData.Failure? {
        return Fail(oldData.error);
      }
      if oldData.value.None? || oldData.value.value.updateTime < person.updateTime {
        outcome := SaveDataFile(person, [readOnly.directory, person.id]);
        if outcome.Fail? {
          return;
        }
        Notify(OnPersonUpdate(person));
      }
      outcome := Pass;
    }

    method SaveFace(personId: string, face: Meta) returns (outcome: Outcome<StoreError>)
      requires Valid()
      modifies readOnly.disk, this`calls
      ensures Valid()
      ensures var e := SaveFaceEffect(old(readOnly.disk.tree), readOnly.codec, readOnly.directory, personId, face);
        readOnly.disk.tree == e.tree && outcome == e.outcome && calls == old(calls) + CallsOf(e, listeners)
    {
      var oldData := readOnly.GetFace(personId, face.id);
      if oldData.Failure? {
        return Fail(oldData.error);
      }
      if oldData.value.None? || oldData.value.value.updateTime < face.updateTime {
        outcome := SaveDataFile(face, [readOnly.directory, personId, face.id]);
        if outcome.Fail? {
          return;
        }
        Notify(OnFaceUpdate(personId, face));
      }
      outcome := Pass;
    }

    method DeletePerson(personId: string)
      requires Valid()
      modifies readOnly.disk, this`calls
      ensures Valid()
      ensures var e := DeletePersonEffect(old(readOnly.disk.tree), readOnly.directory, personId);
        readOnly.disk.tree == e.tree && calls == old(calls) + CallsOf(e, listeners)
    {
      readOnly.disk.DeleteRecursively(Resolve([readOnly.directory, personId]));
      Notify(OnPersonDelete(personId));
    }

    method DeleteFace(personId: string, faceId: string)
      requires Valid()
      modifies readOnly.disk, this`calls
      ensures Valid()
      ensures var e := DeleteFaceEffect(old(readOnly.disk.tree), readOnly.directory, personId, faceId);
        readOnly.disk.tree == e.tree && calls == old(calls) + CallsOf(e, listeners)
    {
      readOnly.disk.DeleteRecursively(Resolve([readOnly.directory, personId, faceId]));
      Notify(OnFaceDelete(personId, faceId));
    }

    /** `saveDataFile(target, path...)`. */
    method SaveDataFile(target: Meta, path: seq<string>) returns (outcome: Outcome<StoreError>)
      requires Valid()
      modifies readOnly.disk
      ensures Valid()
      ensures var e := SaveDataFileEffect(old(readOnly.disk.tree), readOnly.codec, target, path);
        readOnly.disk.tree == e.tree && outcome == e.outcome
    {
      ResolveIsValid(path);
      ResolveIsValid(path + [DataFileName]);
      readOnly.disk.Mkdirs(Resolve(path));
      var ok := readOnly.disk.WriteText(DataFile(path), readOnly.codec.encode(target));
      outcome := if ok then Pass else Fail(WriteFailure);
    }

    /** `listeners.forEach { ... }` for one hook. */
    method Notify(event: Event)
      modifies this`calls
      ensures calls == old(calls) + Broadcast(listeners, event)
    {
      for i := 0 to |listeners|
        invariant calls == old(calls) + Broadcast(listeners[..i], event)
      {
        assert listeners[..i + 1][..i] == listeners[..i];
        calls := calls + [ListenerCall(listeners[i], event)];
      }
      assert listeners[..|listeners|] == listeners;
    }
  }
}
