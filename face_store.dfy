/** The record types and capability interfaces of FaceStore.kt. An interface is modelled as a
    datatype holding one function per operation over the state `S` the implementation works on
    (a read returns a value of the state, a mutator returns the new state); overriding a
    method is replacing that function, and a default method body is the function given here. */
module FaceStore {
  import opened Wrappers

  /** A `LocalDateTime`; `isBefore` is `<`. */
  type Time = int

  /** `Meta`: what the store knows of a person or a face record. */
  datatype Meta = Meta(id: string, createTime: Time, updateTime: Time)

  /** `FaceData`: a person with a list of faces, empty unless given. */
  datatype FaceData = FaceData(person: Meta, faces: seq<Meta> := [])

  /** A `Class<T>` token, by name. */
  type ClassName = string

  datatype FaceDataType = FaceDataType(personClass: ClassName, faceClass: ClassName)

  /** `ReadOnlyFaceStore`. */
  datatype ReadOnlyFaceStore<!S> = ReadOnlyFaceStore(
    dataType: FaceDataType,
    getPersonIds: S -> seq<string>,
    getFaceData: (S, string) -> Option<FaceData>,
    getPerson: (S, string) -> Option<Meta>,
    getFaceIdList: (S, string) -> seq<string>,
    getFace: (S, string, string) -> Option<Meta>)

  /** `ReadWriteFaceStore`: the reads it inherits (`readOnly`) and its six mutators. */
  datatype ReadWriteFaceStore<!S> = ReadWriteFaceStore(
    readOnly: ReadOnlyFaceStore<S>,
    savePerson: (S, Meta) -> S,
    saveFace: (S, string, Meta) -> S,
    saveFaceData: (S, FaceData) -> S,
    deleteFaceData: (S, string) -> S,
    deleteFace: (S, string, string) -> S,
    clearFace: (S, string) -> S)

  /** `FaceStoreChangeListener`. */
  datatype FaceStoreChangeListener<!S> = FaceStoreChangeListener(
    onPersonUpdate: (S, Meta) -> S,
    onFaceUpdate: (S, string, Meta) -> S,
    onFaceDataDelete: (S, string) -> S,
    onFaceDelete: (S, string, string) -> S,
    onPersonFaceClear: (S, string) -> S)

  /** A call of one of the mutators, with its arguments. */
  datatype Mutation =
    | SavePerson(person: Meta)
    | SaveFace(personId: string, face: Meta)
    | SaveFaceData(faceData: FaceData)
    | DeleteFaceData(personId: string)
    | DeleteFace(personId: string, faceId: string)
    | ClearFace(personId: string)

  /** A call of one of the listener hooks, with its arguments. */
  datatype Change =
    | PersonUpdated(person: Meta)
    | FaceUpdated(personId: string, face: Meta)
    | FaceDataDeleted(personId: string)
    | FaceDeleted(personId: string, faceId: string)
    | PersonFaceCleared(personId: string)

  /** A `FaceData` built from a person alone. */
  function FaceDataOf(person: Meta): (d: FaceData)
    ensures d.person == person && d.faces == []
  {
    FaceData(person)
  }

  // ---------------------------------------------------------------------------------------
  // Default method bodies

  /** A read-only store that overrides nothing but `dataType`. */
  function ReadOnlyDefaults<S(!new)>(dataType: FaceDataType): (store: ReadOnlyFaceStore<S>)
    ensures store.dataType == dataType
    ensures forall s :: store.getPersonIds(s) == []
    ensures forall s, personId :: store.getFaceData(s, personId) == None
    ensures forall s, personId :: store.getPerson(s, personId) == None
    ensures forall s, personId :: store.getFaceIdList(s, personId) == []
    ensures forall s, personId, faceId :: store.getFace(s, personId, faceId) == None
  {
    ReadOnlyFaceStore(
      dataType,
      (s: S) => [],
      (s: S, personId: string) => None,
      (s: S, personId: string) => None,
      (s: S, personId: string) => [],
      (s: S, personId: string, faceId: string) => None)
  }

  /** A read-write store that overrides none of the mutators. */
  function ReadWriteDefaults<S>(readOnly: ReadOnlyFaceStore<S>): ReadWriteFaceStore<S> {
    ReadWriteFaceStore(
      readOnly,
      (s: S, person: Meta) => s,
      (s: S, personId: string, face: Meta) => s,
      (s: S, faceData: FaceData) => s,
      (s: S, personId: string) => s,
      (s: S, personId: string, faceId: string) => s,
      (s: S, personId: string) => s)
  }

  /** A listener that overrides none of the hooks. */
  function ListenerDefaults<S>(): FaceStoreChangeListener<S> {
    FaceStoreChangeListener(
      (s: S, person: Meta) => s,
      (s: S, personId: string, face: Meta) => s,
      (s: S, personId: string) => s,
      (s: S, personId: string, faceId: string) => s,
      (s: S, personId: string) => s)
  }

  /** The state after a mutator call. */
  function Perform<S>(store: ReadWriteFaceStore<S>, s: S, m: Mutation): S {
    match m
    case SavePerson(person) => store.savePerson(s, person)
    case SaveFace(personId, face) => store.saveFace(s, personId, face)
    case SaveFaceData(faceData) => store.saveFaceData(s, faceData)
    case DeleteFaceData(personId) => store.deleteFaceData(s, personId)
    case DeleteFace(personId, faceId) => store.deleteFace(s, personId, faceId)
    case ClearFace(personId) => store.clearFace(s, personId)
  }

  /** The state after a sequence of mutator calls, first to last. */
  function PerformAll<S>(store: ReadWriteFaceStore<S>, s: S, ms: seq<Mutation>): S
    decreases |ms|
  {
    if ms == [] then s else PerformAll(store, Perform(store, s, ms[0]), ms[1..])
  }

  /** The state after a listener hook call. */
  function Hear<S>(listener: FaceStoreChangeListener<S>, s: S, c: Change): S {
    match c
    case PersonUpdated(person) => listener.onPersonUpdate(s, person)
    case FaceUpdated(personId, face) => listener.onFaceUpdate(s, personId, face)
    case FaceDataDeleted(personId) => listener.onFaceDataDelete(s, personId)
    case FaceDeleted(personId, faceId) => listener.onFaceDelete(s, personId, faceId)
    case PersonFaceCleared(personId) => listener.onPersonFaceClear(s, personId)
  }

  function HearAll<S>(listener: FaceStoreChangeListener<S>, s: S, cs: seq<Change>): S
    decreases |cs|
  {
    if cs == [] then s else HearAll(listener, Hear(listener, s, cs[0]), cs[1..])
  }

  /** Each default mutator leaves the state as it was. */
  lemma DefaultMutatorChangesNothing<S>(readOnly: ReadOnlyFaceStore<S>, s: S, m: Mutation)
    ensures Perform(ReadWriteDefaults(readOnly), s, m) == s
  {
  }

  /** So does any sequence of calls of them. */
  lemma {:induction false} DefaultMutatorsChangeNothing<S>(readOnly: ReadOnlyFaceStore<S>, s: S, ms: seq<Mutation>)
    ensures PerformAll(ReadWriteDefaults(readOnly), s, ms) == s
    decreases |ms|
  {
    if ms != [] {
      DefaultMutatorChangesNothing(readOnly, s, ms[0]);
      DefaultMutatorsChangeNothing(readOnly, s, ms[1..]);
    }
  }

  /** Each default listener hook leaves the state as it was. */
  lemma DefaultHookChangesNothing<S>(s: S, c: Change)
    ensures Hear(ListenerDefaults(), s, c) == s
  {
  }

  lemma {:induction false} DefaultHooksChangeNothing<S>(s: S, cs: seq<Change>)
    ensures HearAll(ListenerDefaults(), s, cs) == s
    decreases |cs|
  {
    if cs != [] {
      DefaultHookChangesNothing(s, cs[0]);
      DefaultHooksChangeNothing(s, cs[1..]);
    }
  }

  // ---------------------------------------------------------------------------------------
  // The composite store

  /** `CompositeReadWriteFaceStore(readOnlyStore)`: its `dataType` and its five reads are
      final and forward to `readOnlyStore`; its mutators are those of the concrete subclass,
      given as `subclass` (whose own reads the final members hide). */
  function CompositeReadWriteFaceStore<S(!new)>(readOnlyStore: ReadOnlyFaceStore<S>, subclass: ReadWriteFaceStore<S>)
    : (store: ReadWriteFaceStore<S>)
    ensures store.readOnly.dataType == readOnlyStore.dataType
    ensures forall s :: store.readOnly.getPersonIds(s) == readOnlyStore.getPersonIds(s)
    ensures forall s, personId :: store.readOnly.getPerson(s, personId) == readOnlyStore.getPerson(s, personId)
    ensures forall s, personId :: store.readOnly.getFaceData(s, personId) == readOnlyStore.getFaceData(s, personId)
    ensures forall s, personId :: store.readOnly.getFaceIdList(s, personId) == readOnlyStore.getFaceIdList(s, personId)
    ensures forall s, personId, faceId :: store.readOnly.getFace(s, personId, faceId) == readOnlyStore.getFace(s, personId, faceId)
    ensures forall s, m :: Perform(store, s, m) == Perform(subclass, s, m)
  {
    subclass.(readOnly := readOnlyStore)
  }

  /** Running any sequence of mutations through the composite ends in the state the subclass
      alone would reach. */
  lemma {:induction false} CompositeMutatesLikeSubclass<S(!new)>(
    readOnlyStore: ReadOnlyFaceStore<S>, subclass: ReadWriteFaceStore<S>, s: S, ms: seq<Mutation>)
    ensures PerformAll(CompositeReadWriteFaceStore(readOnlyStore, subclass), s, ms) == PerformAll(subclass, s, ms)
    decreases |ms|
  {
    if ms != [] {
      var store := CompositeReadWriteFaceStore(readOnlyStore, subclass);
      assert Perform(store, s, ms[0]) == Perform(subclass, s, ms[0]);
      CompositeMutatesLikeSubclass(readOnlyStore, subclass, Perform(subclass, s, ms[0]), ms[1..]);
    }
  }
}
