/** The filesystem the store runs on, modelled in memory: a tree of locations (sequences of
    directory-entry names) mapped to directories and regular files, and the java.io.File
    operations the store uses (`exists`, `isDirectory`, `isFile`, `list`, `mkdirs`,
    `writeText`, `deleteRecursively`). The empty location is the top of the tree. */
module FileTree {
  import opened Wrappers
  import Paths

  datatype Node = Dir | File(content: string)

  type Location = seq<string>

  type Tree = map<Location, Node>

  /** A filesystem holding nothing but its top directory. */
  const EmptyTree: Tree := map[[] := Dir]

  function Parent(loc: Location): Location
    requires loc != []
  {
    loc[..|loc| - 1]
  }

  predicate IsPrefix(p: Location, q: Location) {
    |p| <= |q| && q[..|p|] == p
  }

  ghost predicate ValidLocation(loc: Location) {
    forall i | 0 <= i < |loc| :: Paths.ValidSegment(loc[i])
  }

  /** What every real filesystem satisfies: the top is a directory, every entry has a valid
      name and sits in a directory. */
  ghost predicate WellFormed(t: Tree) {
    && [] in t && t[[]] == Dir
    && forall loc | loc in t :: ValidLocation(loc) && (loc != [] ==> IsDirectory(t, Parent(loc)))
  }

  predicate Exists(t: Tree, loc: Location) {
    loc in t
  }

  predicate IsDirectory(t: Tree, loc: Location) {
    loc in t && t[loc] == Dir
  }

  predicate IsFile(t: Tree, loc: Location) {
    loc in t && t[loc].File?
  }

  /** The names of the entries directly inside `loc`. */
  function Children(t: Tree, loc: Location): set<string> {
    set q | q in t && |q| == |loc| + 1 && q[..|loc|] == loc :: q[|loc|]
  }

  /** `File.list()`: the entry names of a directory, null for anything else. */
  function List(t: Tree, loc: Location): Option<set<string>> {
    if IsDirectory(t, loc) then Some(Children(t, loc)) else None
  }

  /** `File.absolutePath` of a location. */
  function AbsolutePath(loc: Location): string {
    [Paths.Separator] + Paths.JoinToString(loc)
  }

  /** `File.mkdirs()`: creates the missing directories from the top down; a regular file on
      the way stops it. */
  function AfterMkdirs(t: Tree, loc: Location): Tree
    decreases |loc|
  {
    if loc == [] || loc in t then t
    else
      var u := AfterMkdirs(t, Parent(loc));
      if IsDirectory(u, Parent(loc)) then u[loc := Dir] else u
  }

  /** `File.writeText(text)`: replaces a regular file or creates one in an existing directory;
      None where opening the file for writing fails. */
  function AfterWriteText(t: Tree, loc: Location, text: string): Option<Tree> {
    if loc != [] && IsDirectory(t, Parent(loc)) && !IsDirectory(t, loc) then Some(t[loc := File(text)])
    else None
  }

  /** `File.deleteRecursively()`: removes the location and everything beneath it. The top of the
      tree itself cannot be removed. */
  function AfterDeleteRecursively(t: Tree, loc: Location): Tree {
    map q | q in t && (q == [] || !IsPrefix(loc, q)) :: t[q]
  }

  /** No regular file stands at `loc` or at any location above it. */
  ghost predicate NoFileOnPath(t: Tree, loc: Location) {
    forall k | 0 <= k <= |loc| :: !IsFile(t, loc[..k])
  }

  // ---------------------------------------------------------------------------------------
  // Lemmas

  lemma AbsolutePathResolves(loc: Location)
    requires ValidLocation(loc)
    ensures Paths.Components(AbsolutePath(loc)) == loc
  {
    assert AbsolutePath(loc) == [] + [Paths.Separator] + Paths.JoinToString(loc);
    Paths.ComponentsAppend([], Paths.JoinToString(loc));
    Paths.ComponentsJoin(loc);
    Paths.ComponentsAllOfValid(loc);
  }

  /** An entry named `name` is directly inside `loc` exactly when `loc + [name]` exists. */
  lemma ChildrenExactly(t: Tree, loc: Location, name: string)
    ensures name in Children(t, loc) <==> loc + [name] in t
  {
    if loc + [name] in t {
      var q := loc + [name];
      assert q[..|loc|] == loc && q[|loc|] == name;
    }
    if name in Children(t, loc) {
      var q :| q in t && |q| == |loc| + 1 && q[..|loc|] == loc && q[|loc|] == name;
      assert q == loc + [name];
    }
  }

  /** In a well-formed tree every location above an entry is a directory. */
  lemma {:induction false} AncestorsAreDirectories(t: Tree, loc: Location, k: nat)
    requires WellFormed(t) && loc in t && k < |loc|
    ensures IsDirectory(t, loc[..k])
    decreases |loc| - k
  {
    assert Parent(loc) in t;
    if k == |loc| - 1 {
      assert loc[..k] == Parent(loc);
    } else {
      AncestorsAreDirectories(t, Parent(loc), k);
      assert Parent(loc)[..k] == loc[..k];
    }
  }

  /** `mkdirs` keeps every existing entry and adds only directories above or at `loc`. */
  lemma {:induction false} MkdirsFrame(t: Tree, loc: Location)
    ensures forall q | q in t :: q in AfterMkdirs(t, loc) && AfterMkdirs(t, loc)[q] == t[q]
    ensures forall q | q in AfterMkdirs(t, loc) && q !in t :: IsPrefix(q, loc) && AfterMkdirs(t, loc)[q] == Dir
    decreases |loc|
  {
    if loc != [] && loc !in t {
      MkdirsFrame(t, Parent(loc));
      var u := AfterMkdirs(t, Parent(loc));
      forall q | q in AfterMkdirs(t, loc) && q !in t
        ensures IsPrefix(q, loc)
      {
        if q != loc {
          assert q in u && IsPrefix(q, Parent(loc));
          assert loc[..|q|] == Parent(loc)[..|q|];
        }
      }
    }
  }

  lemma {:induction false} MkdirsWellFormed(t: Tree, loc: Location)
    requires WellFormed(t) && ValidLocation(loc)
    ensures WellFormed(AfterMkdirs(t, loc))
    decreases |loc|
  {
    if loc != [] && loc !in t {
      assert ValidLocation(Parent(loc));
      MkdirsWellFormed(t, Parent(loc));
      var u := AfterMkdirs(t, Parent(loc));
      if IsDirectory(u, Parent(loc)) {
        MkdirsFrame(t, Parent(loc));
        assert loc !in u;
      }
    }
  }

  /** With no regular file in the way, `mkdirs` leaves `loc` a directory. */
  lemma {:induction false} MkdirsMakesDirectory(t: Tree, loc: Location)
    requires WellFormed(t) && NoFileOnPath(t, loc)
    ensures IsDirectory(AfterMkdirs(t, loc), loc)
    decreases |loc|
  {
    assert loc[..|loc|] == loc;
    if loc != [] && loc !in t {
      forall k | 0 <= k <= |Parent(loc)|
        ensures !IsFile(t, Parent(loc)[..k])
      {
        assert Parent(loc)[..k] == loc[..k];
      }
      MkdirsMakesDirectory(t, Parent(loc));
    }
  }

  lemma WriteTextWellFormed(t: Tree, loc: Location, text: string)
    requires WellFormed(t) && ValidLocation(loc) && AfterWriteText(t, loc, text).Some?
    ensures WellFormed(AfterWriteText(t, loc, text).value)
  {
  }

  lemma PrefixOfParent(p: Location, q: Location)
    requires q != []
    ensures IsPrefix(p, Parent(q)) ==> IsPrefix(p, q)
  {
    if IsPrefix(p, Parent(q)) {
      assert q[..|p|] == Parent(q)[..|p|];
    }
  }

  lemma DeleteWellFormed(t: Tree, loc: Location)
    requires WellFormed(t)
    ensures WellFormed(AfterDeleteRecursively(t, loc))
  {
    var r := AfterDeleteRecursively(t, loc);
    forall q | q in r && q != []
      ensures IsDirectory(r, Parent(q))
    {
      PrefixOfParent(loc, q);
    }
  }

  /** The in-memory disk the store objects share. */
  class Disk {
    var tree: Tree

    ghost predicate Valid()
      reads this
    {
      WellFormed(tree)
    }

    constructor ()
      ensures Valid() && tree == EmptyTree
    {
      tree := EmptyTree;
    }

    method Mkdirs(loc: Location)
      requires Valid() && ValidLocation(loc)
      modifies this
      ensures Valid() && tree == AfterMkdirs(old(tree), loc)
    {
      MkdirsWellFormed(tree, loc);
      tree := AfterMkdirs(tree, loc);
    }

    method WriteText(loc: Location, text: string) returns (ok: bool)
      requires Valid() && ValidLocation(loc)
      modifies this
      ensures Valid()
      ensures ok == AfterWriteText(old(tree), loc, text).Some?
      ensures tree == if ok then AfterWriteText(old(tree), loc, text).value else old(tree)
    {
      var written := AfterWriteText(tree, loc, text);
      ok := written.Some?;
      if ok {
        WriteTextWellFormed(tree, loc, text);
        tree := written.value;
      }
    }

    method DeleteRecursively(loc: Location)
      requires Valid()
      modifies this
      ensures Valid() && tree == AfterDeleteRecursively(old(tree), loc)
    {
      DeleteWellFormed(tree, loc);
      tree := AfterDeleteRecursively(tree, loc);
    }
  }
}
