/** What the file store promises, proved of the snapshot functions and effects the store
    classes are specified by. */
module FaceFileStoreProperties {
  import opened Wrappers
  import Paths
  import opened FileTree
  import opened FaceStore
  import opened FaceFileStore

  // ---------------------------------------------------------------------------------------
  // Locations

  lemma DataFileNameIsValid()
    ensures Paths.ValidSegment(DataFileName) && PlainId(DataFileName)
  {
  }

  /** The store directory alone is joined to itself. */
  lemma PathnameOfDirectory(directory: string)
    ensures Pathname([directory]) == directory
  {
    assert Paths.Somes([directory]) == [Some(directory)];
    Paths.GetOfOneSegment([Some(directory)], 0, directory);
  }

  /** A person's pathname is never empty, whatever the store directory. */
  lemma PathnameOfPerson(directory: string, personId: string)
    requires PlainId(personId)
    ensures Pathname([directory, personId]) == directory + [Paths.Separator] + personId
    ensures Pathname([directory, personId]) != ""
  {
    Paths.FilterNotNullOfSomes([directory, personId]);
    assert [directory, personId][1..] == [personId];
    assert Paths.JoinToString([directory, personId]) == directory + [Paths.Separator] + personId;
  }

  lemma {:induction false} ResolveAppend(a: seq<string>, b: seq<string>)
    ensures Resolve(a + b) == Resolve(a) + Paths.ComponentsAll(b)
  {
    Paths.GetLocation(a + b);
    Paths.GetLocation(a);
    Paths.ComponentsAllAppend(a, b);
  }

  lemma DataFileUnder(names: seq<string>)
    ensures DataFile(names) == Resolve(names) + [DataFileName]
  {
    ResolveAppend(names, [DataFileName]);
    DataFileNameIsValid();
    Paths.ComponentsAllOfValid([DataFileName]);
  }

  /** For valid identifiers, `Paths.get(directory, ids...)` lies under the root as expected. */
  lemma ResolveUnderRoot(directory: string, ids: seq<string>)
    requires forall i | 0 <= i < |ids| :: PlainId(ids[i])
    ensures Resolve([directory] + ids) == Root(directory) + ids
  {
    ResolveAppend([directory], ids);
    Paths.ComponentsAllOfValid(ids);
  }

  /** `Paths.get(dir.absolutePath, name).toFile()` is the entry `name` of `dir`. */
  lemma EntryLocation(dir: Location, name: string)
    requires ValidLocation(dir) && Paths.ValidSegment(name)
    ensures Resolve([AbsolutePath(dir), name]) == dir + [name]
  {
    ResolveAppend([AbsolutePath(dir)], [name]);
    Paths.GetLocation([AbsolutePath(dir)]);
    assert Paths.ComponentsAll([AbsolutePath(dir)]) == Paths.Components(AbsolutePath(dir)) + Paths.ComponentsAll([]);
    AbsolutePathResolves(dir);
    Paths.ComponentsAllOfValid([name]);
  }

  /** Two locations that differ at some depth are not prefixes of one another. */
  lemma DifferAt(p: Location, q: Location, k: nat)
    requires k < |p| && k < |q| && p[k] != q[k]
    ensures !IsPrefix(p, q)
  {
    if |p| <= |q| {
      assert q[..|p|][k] == q[k];
    }
  }

  // ---------------------------------------------------------------------------------------
  // Listener notification

  /** Each listener is called exactly once, in list order. */
  lemma {:induction false} BroadcastInOrder(listeners: seq<ListenerRef>, event: Event)
    ensures |Broadcast(listeners, event)| == |listeners|
    ensures forall k | 0 <= k < |listeners| :: Broadcast(listeners, event)[k] == ListenerCall(listeners[k], event)
    decreases |listeners|
  {
    if listeners != [] {
      BroadcastInOrder(listeners[..|listeners| - 1], event);
    }
  }

  /** `savePerson` calls every listener once, in list order, when it writes, and no listener
      otherwise. */
  lemma SavePersonCalls(t: Tree, codec: Codec, directory: string, person: Meta, listeners: seq<ListenerRef>)
    ensures var e := SavePersonEffect(t, codec, directory, person);
      var calls := CallsOf(e, listeners);
      && (e.notified.None? ==> calls == [])
      && (e.notified.Some? ==>
            && |calls| == |listeners|
            && forall k | 0 <= k < |listeners| :: calls[k] == ListenerCall(listeners[k], OnPersonUpdate(person)))
  {
    BroadcastInOrder(listeners, OnPersonUpdate(person));
  }

  /** The same for `saveFace`. */
  lemma SaveFaceCalls(t: Tree, codec: Codec, directory: string, personId: string, face: Meta, listeners: seq<ListenerRef>)
    ensures var e := SaveFaceEffect(t, codec, directory, personId, face);
      var calls := CallsOf(e, listeners);
      && (e.notified.None? ==> calls == [])
      && (e.notified.Some? ==>
            && |calls| == |listeners|
            && forall k | 0 <= k < |listeners| :: calls[k] == ListenerCall(listeners[k], OnFaceUpdate(personId, face)))
  {
    BroadcastInOrder(listeners, OnFaceUpdate(personId, face));
  }

  /** The deletes call every listener once, in list order, whatever was on disk. */
  lemma DeleteCalls(t: Tree, directory: string, personId: string, faceId: string, listeners: seq<ListenerRef>)
    ensures var calls := CallsOf(DeletePersonEffect(t, directory, personId), listeners);
      |calls| == |listeners| &&
      forall k | 0 <= k < |listeners| :: calls[k] == ListenerCall(listeners[k], OnPersonDelete(personId))
    ensures var calls := CallsOf(DeleteFaceEffect(t, directory, personId, faceId), listeners);
      |calls| == |listeners| &&
      forall k | 0 <= k < |listeners| :: calls[k] == ListenerCall(listeners[k], OnFaceDelete(personId, faceId))
  {
    BroadcastInOrder(listeners, OnPersonDelete(personId));
    BroadcastInOrder(listeners, OnFaceDelete(personId, faceId));
  }

  // ---------------------------------------------------------------------------------------
  // Reading

  lemma {:induction false} UpToNewlineOfLine(line: string)
    requires '\n' !in line
    ensures UpToNewline(line) == line
  {
    if line != [] {
      UpToNewlineOfLine(line[1..]);
      assert [line[0]] + line[1..] == line;
    }
  }

  /** A data file holding one non-empty line yields that line as its first token. */
  lemma FirstTokenOfLine(line: string)
    requires line != "" && '\n' !in line
    ensures FirstToken(line) == Some(line)
  {
    UpToNewlineOfLine(line);
  }

  /** A read depends on the disk only at the data file it reads. */
  lemma LoadDependsOnDataFileOnly(t: Tree, u: Tree, codec: Codec, names: seq<string>)
    requires DataFile(names) in t <==> DataFile(names) in u
    requires DataFile(names) in t ==> t[DataFile(names)] == u[DataFile(names)]
    ensures LoadDataFile(t, codec, names) == LoadDataFile(u, codec, names)
  {
  }

  /** `listValidSubDirs` lists exactly the sub-directories with an entry named `data.json`
      (directory or file alike), and throws exactly when the directory is missing. */
  lemma ListValidSubDirsExactly(t: Tree, paths: seq<string>)
    requires WellFormed(t)
    ensures ListValidSubDirs(t, paths).Success? <==> Pathname(paths) != "" && IsDirectory(t, Resolve(paths))
    ensures ListValidSubDirs(t, paths).Success? ==> forall name ::
      name in ListValidSubDirs(t, paths).value <==>
        IsDirectory(t, Resolve(paths) + [name]) && Resolve(paths) + [name, DataFileName] in t
  {
    var dir := Resolve(paths);
    if Pathname(paths) != "" && IsDirectory(t, dir) {
      ResolveIsValid(paths);
      forall name
        ensures name in ListValidSubDirs(t, paths).value <==>
          IsDirectory(t, dir + [name]) && dir + [name, DataFileName] in t
      {
        ChildrenExactly(t, dir, name);
        if dir + [name] in t {
          assert ValidLocation(dir + [name]);
          assert (dir + [name])[|dir|] == name;
          EntryLocation(dir, name);
          ChildrenExactly(t, dir + [name], DataFileName);
          assert dir + [name] + [DataFileName] == dir + [name, DataFileName];
        }
      }
    }
  }

  /** `getPersonIds()` on a well-formed disk: the persons whose directory holds a `data.json`
      entry. */
  lemma PersonIdsExactly(t: Tree, directory: string)
    requires WellFormed(t)
    ensures PersonIdsIn(t, directory).Success? <==> directory != "" && IsDirectory(t, Root(directory))
    ensures PersonIdsIn(t, directory).Success? ==> forall personId ::
      personId in PersonIdsIn(t, directory).value <==>
        IsDirectory(t, Root(directory) + [personId]) && Root(directory) + [personId, DataFileName] in t
  {
    ListValidSubDirsExactly(t, [directory]);
    PathnameOfDirectory(directory);
  }

  /** `getFaceIdList(personId)` on a well-formed disk, for a valid person id: the faces whose
      directory holds a `data.json` entry; it throws when the person has no directory. */
  lemma FaceIdsExactly(t: Tree, directory: string, personId: string)
    requires WellFormed(t) && PlainId(personId)
    ensures var dir := Root(directory) + [personId];
      && (FaceIdsIn(t, directory, personId).Success? <==> IsDirectory(t, dir))
      && (FaceIdsIn(t, directory, personId).Success? ==> forall faceId ::
            faceId in FaceIdsIn(t, directory, personId).value <==>
              IsDirectory(t, dir + [faceId]) && dir + [faceId, DataFileName] in t)
  {
    ListValidSubDirsExactly(t, [directory, personId]);
    PathnameOfPerson(directory, personId);
    ResolveUnderRoot(directory, [personId]);
    assert [directory] + [personId] == [directory, personId];
  }

  /** `getPerson(personId)`, for a valid person id, is absent exactly when
      `root/personId/data.json` is not a regular file, and otherwise the decoded first token. */
  lemma GetPersonReadsItsDataFile(t: Tree, codec: Codec, directory: string, personId: string)
    requires PlainId(personId)
    ensures var file := Root(directory) + [personId, DataFileName];
      && (PersonIn(t, codec, directory, personId) == Success(None) <==> !IsFile(t, file) || HoldsNull(t, codec, [directory, personId]))
      && (IsFile(t, file) ==>
            PersonIn(t, codec, directory, personId) ==
              (match FirstToken(t[file].content)
               case None => Failure(NoSuchElement)
               case Some(line) =>
                 match codec.decode(line)
                 case Record(m) => Success(Some(m))
                 case Null => Success(None)
                 case Malformed => Failure(DecodeFailure)))
  {
    DataFileNameIsValid();
    ResolveUnderRoot(directory, [personId, DataFileName]);
    assert [directory, personId] + [DataFileName] == [directory] + [personId, DataFileName];
  }

  /** `getFace(personId, faceId)`, for valid ids, reads `root/personId/faceId/data.json`. */
  lemma GetFaceReadsItsDataFile(t: Tree, codec: Codec, directory: string, personId: string, faceId: string)
    requires PlainId(personId) && PlainId(faceId)
    ensures var file := Root(directory) + [personId, faceId, DataFileName];
      && (FaceIn(t, codec, directory, personId, faceId) == Success(None) <==> !IsFile(t, file) || HoldsNull(t, codec, [directory, personId, faceId]))
      && (IsFile(t, file) ==>
            FaceIn(t, codec, directory, personId, faceId) ==
              (match FirstToken(t[file].content)
               case None => Failure(NoSuchElement)
               case Some(line) =>
                 match codec.decode(line)
                 case Record(m) => Success(Some(m))
                 case Null => Success(None)
                 case Malformed => Failure(DecodeFailure)))
  {
    DataFileNameIsValid();
    ResolveUnderRoot(directory, [personId, faceId, DataFileName]);
    assert [directory, personId, faceId] + [DataFileName] == [directory] + [personId, faceId, DataFileName];
  }

  // ---------------------------------------------------------------------------------------
  // Writing one data file

  /** `saveDataFile` keeps every other entry, and adds only directories on the way down. */
  lemma PrefixOfLonger(q: Location, a: Location, b: Location)
    requires IsPrefix(q, a)
    ensures IsPrefix(q, a + b)
  {
    assert (a + b)[..|q|] == a[..|q|];
  }

  lemma SaveDataFileFrame(t: Tree, codec: Codec, target: Meta, path: seq<string>)
    ensures var e := SaveDataFileEffect(t, codec, target, path);
      && (forall q | q in t && q != DataFile(path) :: q in e.tree && e.tree[q] == t[q])
      && (forall q | q in e.tree && q !in t :: IsPrefix(q, DataFile(path)))
  {
    var dir := Resolve(path);
    var file := DataFile(path);
    var made := AfterMkdirs(t, dir);
    var e := SaveDataFileEffect(t, codec, target, path);
    MkdirsFrame(t, dir);
    DataFileUnder(path);
    assert e.tree == made || e.tree == made[file := File(codec.encode(target))];
    forall q | q in e.tree && q !in t
      ensures IsPrefix(q, file)
    {
      if q != file {
        PrefixOfLonger(q, dir, [DataFileName]);
      }
    }
  }

  /** One location that is neither the data file nor on the way to it: `saveDataFile` leaves it
      as it was. */
  lemma SaveDataFileKeeps(t: Tree, codec: Codec, target: Meta, path: seq<string>, q: Location)
    requires !IsPrefix(q, DataFile(path))
    ensures var e := SaveDataFileEffect(t, codec, target, path);
      && (q in e.tree <==> q in t)
      && (q in t ==> e.tree[q] == t[q])
  {
    assert q != DataFile(path) by {
      assert DataFile(path)[..|DataFile(path)|] == DataFile(path);
    }
    SaveDataFileFrame(t, codec, target, path);
  }

  lemma SaveDataFileWellFormed(t: Tree, codec: Codec, target: Meta, path: seq<string>)
    requires WellFormed(t)
    ensures WellFormed(SaveDataFileEffect(t, codec, target, path).tree)
  {
    ResolveIsValid(path);
    ResolveIsValid(path + [DataFileName]);
    MkdirsWellFormed(t, Resolve(path));
    var made := AfterMkdirs(t, Resolve(path));
    if AfterWriteText(made, DataFile(path), codec.encode(target)).Some? {
      WriteTextWellFormed(made, DataFile(path), codec.encode(target));
    }
  }

  /** What `saveDataFile` wrote, `loadDataFile` reads back. */
  lemma SaveDataFileThenLoad(t: Tree, codec: Codec, target: Meta, path: seq<string>)
    requires ValidCodec(codec)
    requires SaveDataFileEffect(t, codec, target, path).outcome == Pass
    ensures LoadDataFile(SaveDataFileEffect(t, codec, target, path).tree, codec, path) == Success(Some(target))
  {
    FirstTokenOfLine(codec.encode(target));
  }

  /** With no regular file on the way to the directory and no directory where `data.json`
      goes, the write succeeds. */
  lemma SaveDataFileSucceeds(t: Tree, codec: Codec, target: Meta, path: seq<string>)
    requires WellFormed(t) && NoFileOnPath(t, Resolve(path)) && !IsDirectory(t, DataFile(path))
    ensures SaveDataFileEffect(t, codec, target, path).outcome == Pass
  {
    MkdirsMakesDirectory(t, Resolve(path));
    MkdirsFrame(t, Resolve(path));
    DataFileUnder(path);
    assert Parent(DataFile(path)) == Resolve(path);
  }

  /** A `data.json` that is a directory can never be written over. */
  lemma SaveDataFileFailsOnDirectory(t: Tree, codec: Codec, target: Meta, path: seq<string>)
    requires IsDirectory(t, DataFile(path))
    ensures SaveDataFileEffect(t, codec, target, path).outcome == Fail(WriteFailure)
  {
    MkdirsFrame(t, Resolve(path));
  }

  // ---------------------------------------------------------------------------------------
  // The conditional save protocol

  /** A save is carried out, and the listeners notified, exactly when the stored record was read
      without error, the guard accepts, and the write succeeds. */
  lemma ConditionalSaveNotifiesIff(t: Tree, codec: Codec, path: seq<string>, record: Meta, event: Event)
    ensures var e := ConditionalSaveEffect(t, codec, path, record, event);
      && (e.notified.Some? <==>
            && LoadDataFile(t, codec, path).Success?
            && Accepts(LoadDataFile(t, codec, path).value, record)
            && SaveDataFileEffect(t, codec, record, path).outcome == Pass)
      && (e.notified.Some? ==> e.notified == Some(event) && e.outcome == Pass)
  {
  }

  /** A record that is not strictly newer than the stored one changes nothing and notifies no
      one. */
  lemma StaleSaveIsNoOp(t: Tree, codec: Codec, path: seq<string>, record: Meta, event: Event, stored: Meta)
    requires LoadDataFile(t, codec, path) == Success(Some(stored))
    requires record.updateTime <= stored.updateTime
    ensures ConditionalSaveEffect(t, codec, path, record, event) == Effect(t, Pass, None)
  {
  }

  /** After an accepted save the record reads back as it was saved. */
  lemma ConditionalSaveThenLoad(t: Tree, codec: Codec, path: seq<string>, record: Meta, event: Event)
    requires ValidCodec(codec)
    requires ConditionalSaveEffect(t, codec, path, record, event).notified.Some?
    ensures LoadDataFile(ConditionalSaveEffect(t, codec, path, record, event).tree, codec, path) == Success(Some(record))
  {
    SaveDataFileThenLoad(t, codec, record, path);
  }

  /** Once `data.json` is a regular file, writing it again succeeds and makes no directory. */
  lemma RewriteSucceeds(t: Tree, codec: Codec, target: Meta, path: seq<string>)
    requires WellFormed(t) && IsFile(t, DataFile(path))
    ensures SaveDataFileEffect(t, codec, target, path).outcome == Pass
  {
    DataFileUnder(path);
    assert Parent(DataFile(path)) == Resolve(path);
    assert AfterMkdirs(t, Resolve(path)) == t;
  }

  /** A second save of the same record path wins exactly when its `updateTime` is strictly later. */
  lemma ConditionalLastWriteWins(t: Tree, codec: Codec, path: seq<string>, x: Meta, ex: Event, y: Meta, ey: Event)
    requires WellFormed(t) && ValidCodec(codec)
    requires ConditionalSaveEffect(t, codec, path, x, ex).notified.Some?
    ensures var first := ConditionalSaveEffect(t, codec, path, x, ex);
      var second := ConditionalSaveEffect(first.tree, codec, path, y, ey);
      && (x.updateTime < y.updateTime ==>
            second.notified == Some(ey) && LoadDataFile(second.tree, codec, path) == Success(Some(y)))
      && (y.updateTime <= x.updateTime ==>
            second == Effect(first.tree, Pass, None) && LoadDataFile(second.tree, codec, path) == Success(Some(x)))
  {
    var u := ConditionalSaveEffect(t, codec, path, x, ex).tree;
    ConditionalSaveThenLoad(t, codec, path, x, ex);
    assert u == SaveDataFileEffect(t, codec, x, path).tree;
    SaveDataFileWellFormed(t, codec, x, path);
    if x.updateTime < y.updateTime {
      RewriteSucceeds(u, codec, y, path);
      ConditionalSaveThenLoad(u, codec, path, y, ey);
    } else {
      StaleSaveIsNoOp(u, codec, path, y, ey, x);
    }
  }

  /** A `data.json` whose first token decodes to null reads as no record, so any save over it
      is accepted and overwrites it. */
  lemma SaveOverNullRecord(t: Tree, codec: Codec, path: seq<string>, record: Meta, event: Event)
    requires WellFormed(t) && ValidCodec(codec) && HoldsNull(t, codec, path)
    ensures LoadDataFile(t, codec, path) == Success(None)
    ensures var e := ConditionalSaveEffect(t, codec, path, record, event);
      && e.notified == Some(event) && e.outcome == Pass
      && LoadDataFile(e.tree, codec, path) == Success(Some(record))
  {
    RewriteSucceeds(t, codec, record, path);
    ConditionalSaveThenLoad(t, codec, path, record, event);
  }

  // ---------------------------------------------------------------------------------------
  // savePerson

  /** `savePerson` writes, and notifies every listener once, exactly when the stored person was
      read without error, is absent or strictly older, and the write succeeds. */
  lemma SavePersonNotifiesIff(t: Tree, codec: Codec, directory: string, person: Meta)
    ensures var e := SavePersonEffect(t, codec, directory, person);
      var stored := PersonIn(t, codec, directory, person.id);
      && (e.notified.Some? <==>
            stored.Success? && Accepts(stored.value, person) &&
            SaveDataFileEffect(t, codec, person, [directory, person.id]).outcome == Pass)
      && (e.notified.Some? ==> e.notified == Some(OnPersonUpdate(person)) && e.outcome == Pass)
      && (stored.Success? && !Accepts(stored.value, person) ==> e == Effect(t, Pass, None))
      && (stored.Failure? ==> e == Effect(t, Fail(stored.error), None))
  {
    ConditionalSaveNotifiesIff(t, codec, [directory, person.id], person, OnPersonUpdate(person));
  }

  /** After an accepted `savePerson(person)`, `getPerson(person.id)` returns `person`. */
  lemma SavePersonThenGet(t: Tree, codec: Codec, directory: string, person: Meta)
    requires ValidCodec(codec)
    requires SavePersonEffect(t, codec, directory, person).notified.Some?
    ensures PersonIn(SavePersonEffect(t, codec, directory, person).tree, codec, directory, person.id) == Success(Some(person))
  {
    ConditionalSaveThenLoad(t, codec, [directory, person.id], person, OnPersonUpdate(person));
  }

  /** Of two saves of the same person, the second is kept exactly when it is strictly newer;
      otherwise nothing changes and no listener is called. */
  lemma SavePersonLastWriteWins(t: Tree, codec: Codec, directory: string, x: Meta, y: Meta)
    requires WellFormed(t) && ValidCodec(codec) && x.id == y.id
    requires SavePersonEffect(t, codec, directory, x).notified.Some?
    ensures var first := SavePersonEffect(t, codec, directory, x);
      var second := SavePersonEffect(first.tree, codec, directory, y);
      && (x.updateTime < y.updateTime ==>
            second.notified == Some(OnPersonUpdate(y)) && PersonIn(second.tree, codec, directory, y.id) == Success(Some(y)))
      && (y.updateTime <= x.updateTime ==>
            second == Effect(first.tree, Pass, None) && PersonIn(second.tree, codec, directory, y.id) == Success(Some(x)))
  {
    ConditionalLastWriteWins(t, codec, [directory, x.id], x, OnPersonUpdate(x), y, OnPersonUpdate(y));
  }

  /** A person record stored as JSON `null` is overwritten by the next `savePerson`, whatever
      its `updateTime`. */
  lemma SavePersonOverwritesNullRecord(t: Tree, codec: Codec, directory: string, person: Meta)
    requires WellFormed(t) && ValidCodec(codec) && HoldsNull(t, codec, [directory, person.id])
    ensures PersonIn(t, codec, directory, person.id) == Success(None)
    ensures var e := SavePersonEffect(t, codec, directory, person);
      && e.notified == Some(OnPersonUpdate(person))
      && PersonIn(e.tree, codec, directory, person.id) == Success(Some(person))
  {
    SaveOverNullRecord(t, codec, [directory, person.id], person, OnPersonUpdate(person));
  }

  /** A save anywhere below a person that has no directory yet finds nothing stored, makes its
      directories and writes. */
  lemma SaveUnderNewPersonSucceeds(t: Tree, codec: Codec, root: Location, personId: string, target: Meta, path: seq<string>)
    requires WellFormed(t) && IsDirectory(t, root) && root + [personId] !in t
    requires IsPrefix(root + [personId], Resolve(path))
    ensures LoadDataFile(t, codec, path) == Success(None)
    ensures SaveDataFileEffect(t, codec, target, path).outcome == Pass
    ensures IsDirectory(SaveDataFileEffect(t, codec, target, path).tree, Resolve(path))
  {
    DataFileUnder(path);
    PrefixOfLonger(root + [personId], Resolve(path), [DataFileName]);
    BelowMissingEntry(t, DataFile(path), |root| + 1);
    NewPersonHasNothingOnPath(t, root, personId, Resolve(path));
    SaveDataFileSucceeds(t, codec, target, path);
    MkdirsMakesDirectory(t, Resolve(path));
  }

  /** With the root in place and nothing in the way, a first save of a person succeeds. */
  lemma SaveNewPersonSucceeds(t: Tree, codec: Codec, directory: string, person: Meta)
    requires WellFormed(t) && PlainId(person.id)
    requires IsDirectory(t, Root(directory)) && Root(directory) + [person.id] !in t
    ensures SavePersonEffect(t, codec, directory, person).notified == Some(OnPersonUpdate(person))
  {
    var root := Root(directory);
    ResolveUnderRoot(directory, [person.id]);
    assert [directory] + [person.id] == [directory, person.id];
    assert (root + [person.id])[..|root + [person.id]|] == root + [person.id];
    SaveUnderNewPersonSucceeds(t, codec, root, person.id, person, [directory, person.id]);
  }

  /** A person whose `data.json` is a directory is never saved: the write throws every time. */
  lemma SavePersonFailsOnDirectoryDataFile(t: Tree, codec: Codec, directory: string, person: Meta)
    requires IsDirectory(t, DataFile([directory, person.id]))
    ensures SavePersonEffect(t, codec, directory, person) ==
      Effect(AfterMkdirs(t, Resolve([directory, person.id])), Fail(WriteFailure), None)
  {
    SaveDataFileFailsOnDirectory(t, codec, person, [directory, person.id]);
  }

  lemma PrefixOfEntry(t: Tree, root: Location, ids: seq<string>, q: Location)
    requires WellFormed(t) && IsDirectory(t, root)
    requires IsPrefix(q, root + ids) && |q| <= |root|
    ensures IsDirectory(t, q)
  {
    assert q == root[..|q|];
    if |q| < |root| {
      AncestorsAreDirectories(t, root, |q|);
    }
  }

  /** Nothing exists below a missing entry of a well-formed disk. */
  lemma BelowMissingEntry(t: Tree, q: Location, k: nat)
    requires WellFormed(t) && k < |q| && q[..k] !in t
    ensures q !in t
  {
    if q in t {
      AncestorsAreDirectories(t, q, k);
    }
  }

  /** Under an existing root, no regular file lies on the way to any location below a person
      that has no directory yet. */
  lemma NewPersonHasNothingOnPath(t: Tree, root: Location, personId: string, loc: Location)
    requires WellFormed(t) && IsDirectory(t, root)
    requires IsPrefix(root + [personId], loc) && root + [personId] !in t
    ensures NoFileOnPath(t, loc)
  {
    forall k | 0 <= k <= |loc|
      ensures !IsFile(t, loc[..k])
    {
      if k <= |root| {
        assert loc[..k] == root[..k];
        if k < |root| {
          AncestorsAreDirectories(t, root, k);
        } else {
          assert root[..k] == root;
        }
      } else if k == |root| + 1 {
        assert loc[..k] == root + [personId];
      } else {
        assert loc[..k][..|root| + 1] == root + [personId];
        BelowMissingEntry(t, loc[..k], |root| + 1);
      }
    }
  }

  /** An accepted or failed `savePerson`, for a valid id under an existing root, creates or
      changes nothing but `root/person.id` and `root/person.id/data.json`. */
  lemma SavePersonTouchesOnlyItsDirectory(t: Tree, codec: Codec, directory: string, person: Meta)
    requires WellFormed(t) && PlainId(person.id) && IsDirectory(t, Root(directory))
    ensures var e := SavePersonEffect(t, codec, directory, person);
      var root := Root(directory);
      forall q | q != root + [person.id] && q != root + [person.id, DataFileName] ::
        (q in e.tree <==> q in t) && (q in t ==> e.tree[q] == t[q])
  {
    var e := SavePersonEffect(t, codec, directory, person);
    var root := Root(directory);
    var path := [directory, person.id];
    DataFileNameIsValid();
    ResolveUnderRoot(directory, [person.id, DataFileName]);
    assert path + [DataFileName] == [directory] + [person.id, DataFileName];
    SaveDataFileFrame(t, codec, person, path);
    forall q | IsPrefix(q, root + [person.id, DataFileName])
      ensures IsDirectory(t, q) || q == root + [person.id] || q == root + [person.id, DataFileName]
    {
      if |q| <= |root| {
        PrefixOfEntry(t, root, [person.id, DataFileName], q);
      } else if |q| == |root| + 1 {
        assert q == root + [person.id];
      } else {
        assert q == root + [person.id, DataFileName];
      }
    }
  }

  // ---------------------------------------------------------------------------------------
  // saveFace

  /** After an accepted `saveFace(personId, face)`, `getFace(personId, face.id)` returns `face`. */
  lemma SaveFaceThenGet(t: Tree, codec: Codec, directory: string, personId: string, face: Meta)
    requires ValidCodec(codec)
    requires SaveFaceEffect(t, codec, directory, personId, face).notified.Some?
    ensures FaceIn(SaveFaceEffect(t, codec, directory, personId, face).tree, codec, directory, personId, face.id) == Success(Some(face))
  {
    ConditionalSaveThenLoad(t, codec, [directory, personId, face.id], face, OnFaceUpdate(personId, face));
  }

  /** `saveFace` follows the same strict-timestamp protocol as `savePerson`. */
  lemma SaveFaceLastWriteWins(t: Tree, codec: Codec, directory: string, personId: string, x: Meta, y: Meta)
    requires WellFormed(t) && ValidCodec(codec) && x.id == y.id
    requires SaveFaceEffect(t, codec, directory, personId, x).notified.Some?
    ensures var first := SaveFaceEffect(t, codec, directory, personId, x);
      var second := SaveFaceEffect(first.tree, codec, directory, personId, y);
      && (x.updateTime < y.updateTime ==>
            second.notified == Some(OnFaceUpdate(personId, y)) &&
            FaceIn(second.tree, codec, directory, personId, y.id) == Success(Some(y)))
      && (y.updateTime <= x.updateTime ==>
            second == Effect(first.tree, Pass, None) &&
            FaceIn(second.tree, codec, directory, personId, y.id) == Success(Some(x)))
  {
    ConditionalLastWriteWins(t, codec, [directory, personId, x.id], x, OnFaceUpdate(personId, x), y, OnFaceUpdate(personId, y));
  }

  /** `saveFace` creates the missing person and face directories: with the root in place and no
      regular file in the way, it succeeds for a face not stored before. */
  lemma SaveFaceCreatesDirectories(t: Tree, codec: Codec, directory: string, personId: string, face: Meta)
    requires WellFormed(t) && ValidCodec(codec)
    requires NoFileOnPath(t, Resolve([directory, personId, face.id]))
    requires DataFile([directory, personId, face.id]) !in t
    ensures var e := SaveFaceEffect(t, codec, directory, personId, face);
      && e.notified == Some(OnFaceUpdate(personId, face))
      && IsDirectory(e.tree, Resolve([directory, personId, face.id]))
      && IsDirectory(e.tree, Resolve([directory, personId]))
  {
    var path := [directory, personId, face.id];
    SaveDataFileSucceeds(t, codec, face, path);
    MkdirsMakesDirectory(t, Resolve(path));
    DataFileUnder(path);
    var made := AfterMkdirs(t, Resolve(path));
    ResolveIsValid(path);
    MkdirsWellFormed(t, Resolve(path));
    ResolveAppend([directory, personId], [face.id]);
    assert [directory, personId] + [face.id] == path;
    var personDir := Resolve([directory, personId]);
    assert IsPrefix(personDir, Resolve(path));
    if |personDir| < |Resolve(path)| {
      AncestorsAreDirectories(made, Resolve(path), |personDir|);
      assert Resolve(path)[..|personDir|] == personDir;
    } else {
      assert personDir == Resolve(path);
    }
  }

  /** The entry `root/personId/data.json` is not on the way to a face's `data.json` (valid ids,
      a face not named `data.json`), so `saveFace` leaves it as it was. */
  lemma SaveFaceKeepsPersonEntry(t: Tree, codec: Codec, directory: string, personId: string, face: Meta)
    requires PlainId(personId) && PlainId(face.id) && face.id != DataFileName
    ensures var e := SaveFaceEffect(t, codec, directory, personId, face);
      var personFile := DataFile([directory, personId]);
      && (personFile in e.tree <==> personFile in t)
      && (personFile in t ==> e.tree[personFile] == t[personFile])
  {
    var root := Root(directory);
    var facePath := [directory, personId, face.id];
    DataFileNameIsValid();
    ResolveUnderRoot(directory, [personId, face.id, DataFileName]);
    ResolveUnderRoot(directory, [personId, DataFileName]);
    assert facePath + [DataFileName] == [directory] + [personId, face.id, DataFileName];
    assert [directory, personId] + [DataFileName] == [directory] + [personId, DataFileName];
    DifferAt(DataFile([directory, personId]), DataFile(facePath), |root| + 1);
    SaveDataFileKeeps(t, codec, face, facePath, DataFile([directory, personId]));
  }

  /** `saveFace` never writes `root/personId/data.json` (for valid ids, and a face not itself
      named `data.json`): the person record reads the same afterwards, and a person with no data
      file is still not listed. */
  lemma SaveFaceLeavesPersonFile(t: Tree, codec: Codec, directory: string, personId: string, face: Meta)
    requires WellFormed(t) && PlainId(personId) && PlainId(face.id) && face.id != DataFileName
    ensures var e := SaveFaceEffect(t, codec, directory, personId, face);
      && PersonIn(e.tree, codec, directory, personId) == PersonIn(t, codec, directory, personId)
      && (Root(directory) + [personId, DataFileName] !in t && PersonIdsIn(e.tree, directory).Success? ==>
            personId !in PersonIdsIn(e.tree, directory).value)
  {
    var e := SaveFaceEffect(t, codec, directory, personId, face);
    SaveFaceKeepsPersonEntry(t, codec, directory, personId, face);
    LoadDependsOnDataFileOnly(t, e.tree, codec, [directory, personId]);
    if Root(directory) + [personId, DataFileName] !in t && PersonIdsIn(e.tree, directory).Success? {
      DataFileNameIsValid();
      ResolveUnderRoot(directory, [personId, DataFileName]);
      assert [directory, personId] + [DataFileName] == [directory] + [personId, DataFileName];
      SaveDataFileWellFormed(t, codec, face, [directory, personId, face.id]);
      PersonIdsExactly(e.tree, directory);
    }
  }

  /** Saving a face named `data.json` under a new person succeeds, and `mkdirs` leaves
      `root/personId/data.json` a directory. */
  lemma FaceNamedDataJsonMakesDirectory(t: Tree, codec: Codec, directory: string, personId: string, face: Meta)
    requires WellFormed(t) && PlainId(personId) && face.id == DataFileName
    requires IsDirectory(t, Root(directory)) && Root(directory) + [personId] !in t
    ensures var e := SaveFaceEffect(t, codec, directory, personId, face);
      && e.notified == Some(OnFaceUpdate(personId, face))
      && IsDirectory(e.tree, Root(directory) + [personId, DataFileName])
      && WellFormed(e.tree)
  {
    var root := Root(directory);
    var facePath := [directory, personId, face.id];
    var faceDir := root + [personId, DataFileName];
    DataFileNameIsValid();
    ResolveUnderRoot(directory, [personId, DataFileName]);
    assert facePath == [directory] + [personId, DataFileName];
    assert faceDir[..|root| + 1] == root + [personId];
    SaveUnderNewPersonSucceeds(t, codec, root, personId, face, facePath);
    SaveDataFileWellFormed(t, codec, face, facePath);
  }

  /** A face named `data.json`, saved under a person that does not exist, makes `mkdirs` create
      `root/personId/data.json` as a directory: the person is then listed by `getPersonIds`
      although `getPerson` finds no record. */
  lemma FaceNamedDataJsonListsPerson(t: Tree, codec: Codec, directory: string, personId: string, face: Meta)
    requires WellFormed(t) && PlainId(personId) && face.id == DataFileName && directory != ""
    requires IsDirectory(t, Root(directory)) && Root(directory) + [personId] !in t
    ensures var e := SaveFaceEffect(t, codec, directory, personId, face);
      && e.notified == Some(OnFaceUpdate(personId, face))
      && PersonIdsIn(e.tree, directory).Success? && personId in PersonIdsIn(e.tree, directory).value
      && PersonIn(e.tree, codec, directory, personId) == Success(None)
  {
    var root := Root(directory);
    var e := SaveFaceEffect(t, codec, directory, personId, face);
    FaceNamedDataJsonMakesDirectory(t, codec, directory, personId, face);
    var faceDir := root + [personId, DataFileName];
    assert Parent(faceDir) == root + [personId];
    assert IsDirectory(e.tree, root + [personId]);
    assert Parent(root + [personId]) == root;
    PersonIdsExactly(e.tree, directory);
    GetPersonReadsItsDataFile(e.tree, codec, directory, personId);
  }

  // ---------------------------------------------------------------------------------------
  // Deletes

  /** `deletePerson(personId)` always notifies, leaves no person record and no face record of
      that person, and keeps everything outside the person's directory; for a valid id the
      person is no longer listed and its face listing throws. */
  lemma DeletePersonRemovesPerson(t: Tree, codec: Codec, directory: string, personId: string)
    ensures var e := DeletePersonEffect(t, directory, personId);
      && e.notified == Some(OnPersonDelete(personId)) && e.outcome == Pass
      && PersonIn(e.tree, codec, directory, personId) == Success(None)
      && (forall faceId :: FaceIn(e.tree, codec, directory, personId, faceId) == Success(None))
      && (forall q | q in t && !IsPrefix(Resolve([directory, personId]), q) :: q in e.tree && e.tree[q] == t[q])
      && (PlainId(personId) ==> FaceIdsIn(e.tree, directory, personId) == Failure(NullListing))
      && (WellFormed(t) && PlainId(personId) && PersonIdsIn(e.tree, directory).Success? ==>
            personId !in PersonIdsIn(e.tree, directory).value)
  {
    var e := DeletePersonEffect(t, directory, personId);
    var dir := Resolve([directory, personId]);
    DataFileUnder([directory, personId]);
    forall faceId
      ensures FaceIn(e.tree, codec, directory, personId, faceId) == Success(None)
    {
      DataFileUnder([directory, personId, faceId]);
      ResolveAppend([directory, personId], [faceId]);
      assert [directory, personId] + [faceId] == [directory, personId, faceId];
      assert IsPrefix(dir, DataFile([directory, personId, faceId]));
    }
    if PlainId(personId) {
      ResolveUnderRoot(directory, [personId]);
      assert [directory] + [personId] == [directory, personId];
      assert dir != [] && IsPrefix(dir, dir);
      if WellFormed(t) && PersonIdsIn(e.tree, directory).Success? {
        DeleteWellFormed(t, dir);
        PersonIdsExactly(e.tree, directory);
      }
    }
  }

  /** `deleteFace(personId, faceId)` always notifies and removes that face; for valid ids (the
      face not named `data.json`) the person record and every other face read as before. */
  lemma DeleteFaceRemovesOnlyThatFace(t: Tree, codec: Codec, directory: string, personId: string, faceId: string)
    ensures var e := DeleteFaceEffect(t, directory, personId, faceId);
      && e.notified == Some(OnFaceDelete(personId, faceId)) && e.outcome == Pass
      && FaceIn(e.tree, codec, directory, personId, faceId) == Success(None)
      && (PlainId(personId) && PlainId(faceId) && faceId != DataFileName ==>
            && PersonIn(e.tree, codec, directory, personId) == PersonIn(t, codec, directory, personId)
            && forall otherId | PlainId(otherId) && otherId != faceId ::
                 FaceIn(e.tree, codec, directory, personId, otherId) == FaceIn(t, codec, directory, personId, otherId))
  {
    var e := DeleteFaceEffect(t, directory, personId, faceId);
    var facePath := [directory, personId, faceId];
    DataFileUnder(facePath);
    if PlainId(personId) && PlainId(faceId) && faceId != DataFileName {
      var root := Root(directory);
      DataFileNameIsValid();
      ResolveUnderRoot(directory, [personId, faceId]);
      assert facePath == [directory] + [personId, faceId];
      var faceDir := root + [personId, faceId];
      ResolveUnderRoot(directory, [personId, DataFileName]);
      assert [directory, personId] + [DataFileName] == [directory] + [personId, DataFileName];
      DifferAt(faceDir, root + [personId, DataFileName], |root| + 1);
      LoadDependsOnDataFileOnly(t, e.tree, codec, [directory, personId]);
      forall otherId | PlainId(otherId) && otherId != faceId
        ensures FaceIn(e.tree, codec, directory, personId, otherId) == FaceIn(t, codec, directory, personId, otherId)
      {
        ResolveUnderRoot(directory, [personId, otherId, DataFileName]);
        assert [directory, personId, otherId] + [DataFileName] == [directory] + [personId, otherId, DataFileName];
        var other := root + [personId, otherId, DataFileName];
        DifferAt(faceDir, other, |root| + 1);
        LoadDependsOnDataFileOnly(t, e.tree, codec, [directory, personId, otherId]);
      }
    }
  }

  // ---------------------------------------------------------------------------------------
  // Construction

  /** The constructor's `mkdirs`, on a disk with nothing under the root and no regular file in
      the way, gives a store whose `getPersonIds()` is empty. */
  lemma FreshRootListsNoPersons(t: Tree, directory: string)
    requires WellFormed(t) && directory != "" && NoFileOnPath(t, Root(directory))
    requires forall q | q in t :: !IsPrefix(Root(directory), q) || q == Root(directory)
    ensures PersonIdsIn(AfterMkdirs(t, Root(directory)), directory) == Success({})
  {
    var root := Root(directory);
    var made := AfterMkdirs(t, root);
    MkdirsMakesDirectory(t, root);
    MkdirsFrame(t, root);
    ResolveIsValid([directory]);
    forall name
      ensures name !in Children(made, root)
    {
      ChildrenExactly(made, root, name);
      var q := root + [name];
      assert IsPrefix(root, q) && q != root;
      assert q !in t;
      assert !IsPrefix(q, root);
    }
    assert Children(made, root) == {};
    assert List(made, root) == Some({});
    PathnameOfDirectory(directory);
    assert ListValidSubDirs(made, [directory]).value == {};
  }

  /** A store constructed on an empty disk lists no persons. */
  lemma NewStoreListsNoPersons(directory: string)
    requires directory != ""
    ensures PersonIdsIn(AfterMkdirs(EmptyTree, Root(directory)), directory) == Success({})
  {
    forall k | 0 <= k <= |Root(directory)|
      ensures !IsFile(EmptyTree, Root(directory)[..k])
    {
    }
    FreshRootListsNoPersons(EmptyTree, directory);
  }

  /** With the empty pathname as store directory, `File("").list()` is null: `getPersonIds()`
      throws whatever the disk holds. */
  lemma EmptyDirectoryListsNothing(t: Tree)
    ensures PersonIdsIn(t, "") == Failure(NullListing)
  {
    PathnameOfDirectory("");
  }
}
