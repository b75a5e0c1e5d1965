/** Path joining (Path.kt): `Paths.get` drops the null segments and joins the rest with the
    separator; `Path.toFile` names the filesystem location of the joined string. The split
    functions below are the partner of the join: they read a pathname back into segments the way
    java.io.File does, and the lemmas relate the two. */
module Paths {
  import opened Wrappers

  /** `File.separator`, fixed for the model. */
  const Separator: char := '/'

  /** A segment a directory entry can be named by: non-empty and free of the separator. */
  predicate ValidSegment(s: string) {
    s != "" && Separator !in s
  }

  /** The joined pathname. `ToFile` gives the location it denotes as its list of non-empty
      components: repeated and trailing separators add no level, and the model also drops a
      leading separator, so an absolute and a relative pathname with the same components name
      the same location (java.io.File would resolve the relative one against the working
      directory). */
  datatype Path = Path(absolutePath: string) {
    function ToFile(): seq<string> {
      Components(absolutePath)
    }
  }

  /** `path.filterNotNull()`. */
  function FilterNotNull(path: seq<Option<string>>): seq<string> {
    if path == [] then []
    else match path[0]
      case None => FilterNotNull(path[1..])
      case Some(s) => [s] + FilterNotNull(path[1..])
  }

  /** `joinToString(File.separator)`. */
  function JoinToString(segments: seq<string>): string {
    if |segments| == 0 then ""
    else if |segments| == 1 then segments[0]
    else segments[0] + [Separator] + JoinToString(segments[1..])
  }

  /** `Paths.get(vararg path: String?)`. */
  function Get(path: seq<Option<string>>): Path {
    Path(JoinToString(FilterNotNull(path)))
  }

  /** The non-null arguments a Kotlin caller passes as `String` to the `String?` vararg. */
  function Somes(segments: seq<string>): seq<Option<string>> {
    if segments == [] then [] else [Some(segments[0])] + Somes(segments[1..])
  }

  /** The parts of `s` between separators, empty parts included. */
  function Split(s: string): (parts: seq<string>)
    ensures |parts| >= 1
  {
    if s == [] then [[]]
    else
      var rest := Split(s[1..]);
      if s[0] == Separator then [[]] + rest
      else [[s[0]] + rest[0]] + rest[1..]
  }

  function NonEmpty(parts: seq<string>): seq<string> {
    if parts == [] then []
    else if parts[0] == [] then NonEmpty(parts[1..])
    else [parts[0]] + NonEmpty(parts[1..])
  }

  /** The directory levels a pathname names. */
  function Components(s: string): seq<string> {
    NonEmpty(Split(s))
  }

  /** The levels named by each segment in turn. */
  function ComponentsAll(segments: seq<string>): seq<string> {
    if segments == [] then [] else Components(segments[0]) + ComponentsAll(segments[1..])
  }

  // ---------------------------------------------------------------------------------------
  // Null segments

  lemma {:induction false} FilterNotNullAppend(a: seq<Option<string>>, b: seq<Option<string>>)
    ensures FilterNotNull(a + b) == FilterNotNull(a) + FilterNotNull(b)
  {
    if a == [] {
      assert a + b == b;
    } else {
      assert (a + b)[0] == a[0];
      assert (a + b)[1..] == a[1..] + b;
      FilterNotNullAppend(a[1..], b);
    }
  }

  lemma {:induction false} FilterNotNullOfNulls(path: seq<Option<string>>)
    requires forall i | 0 <= i < |path| :: path[i] == None
    ensures FilterNotNull(path) == []
  {
    if path != [] {
      FilterNotNullOfNulls(path[1..]);
    }
  }

  lemma {:induction false} FilterNotNullOfSomes(segments: seq<string>)
    ensures FilterNotNull(Somes(segments)) == segments
  {
    if segments != [] {
      FilterNotNullOfSomes(segments[1..]);
    }
  }

  /** A null argument anywhere makes no difference: `get(a, null, b) == get(a, b)`. */
  lemma GetIgnoresNull(a: seq<Option<string>>, b: seq<Option<string>>)
    ensures Get(a + [None] + b) == Get(a + b)
  {
    assert a + [None] + b == a + ([None] + b);
    FilterNotNullAppend(a, [None] + b);
    assert ([None] + b)[1..] == b;
    FilterNotNullAppend(a, b);
  }

  /** With no non-null argument the pathname is empty. */
  lemma GetOfNulls(path: seq<Option<string>>)
    requires forall i | 0 <= i < |path| :: path[i] == None
    ensures Get(path).absolutePath == ""
  {
    FilterNotNullOfNulls(path);
  }

  /** With exactly one non-null argument the pathname is that argument, unchanged. */
  lemma GetOfOneSegment(path: seq<Option<string>>, k: nat, s: string)
    requires k < |path| && path[k] == Some(s)
    requires forall i | 0 <= i < |path| && i != k :: path[i] == None
    ensures Get(path).absolutePath == s
  {
    assert path == path[..k] + [Some(s)] + path[k + 1..];
    FilterNotNullOfNulls(path[..k]);
    FilterNotNullOfNulls(path[k + 1..]);
    FilterNotNullAppend(path[..k] + [Some(s)], path[k + 1..]);
    FilterNotNullAppend(path[..k], [Some(s)]);
  }

  // ---------------------------------------------------------------------------------------
  // Join and split

  lemma {:induction false} SplitWithoutSeparator(s: string)
    requires Separator !in s
    ensures Split(s) == [s]
  {
    if s != [] {
      SplitWithoutSeparator(s[1..]);
      assert [s[0]] + s[1..] == s;
    }
  }

  /** A separator splits the pathname into the parts of either side. */
  lemma {:induction false} SplitAppend(a: string, b: string)
    ensures Split(a + [Separator] + b) == Split(a) + Split(b)
  {
    if a == [] {
      assert a + [Separator] + b == [Separator] + b;
      assert ([Separator] + b)[1..] == b;
    } else {
      var s := a + [Separator] + b;
      assert s[0] == a[0];
      assert s[1..] == a[1..] + [Separator] + b;
      SplitAppend(a[1..], b);
    }
  }

  /** The segments are joined in order with exactly one separator between neighbours:
      splitting the joined string gives back exactly the segments, as long as none contains the
      separator (an empty segment is given back too; only the empty list cannot be told from
      the list holding one empty segment). */
  lemma {:induction false} SplitJoin(segments: seq<string>)
    requires |segments| >= 1
    requires forall i | 0 <= i < |segments| :: Separator !in segments[i]
    ensures Split(JoinToString(segments)) == segments
  {
    if |segments| == 1 {
      SplitWithoutSeparator(segments[0]);
    } else {
      SplitAppend(segments[0], JoinToString(segments[1..]));
      SplitWithoutSeparator(segments[0]);
      SplitJoin(segments[1..]);
    }
  }

  /** Joining two non-empty runs of segments puts exactly one separator between them. */
  lemma {:induction false} JoinToStringAppend(a: seq<string>, b: seq<string>)
    requires a != [] && b != []
    ensures JoinToString(a + b) == JoinToString(a) + [Separator] + JoinToString(b)
  {
    if |a| > 1 {
      assert (a + b)[1..] == a[1..] + b;
      JoinToStringAppend(a[1..], b);
    } else {
      assert (a + b)[1..] == b;
    }
  }

  /** `get(a..., b...)` is `get(a...)`, one separator, and `get(b...)`, whenever both sides hold
      a non-null argument: the non-null arguments keep their order. */
  lemma GetAppend(a: seq<Option<string>>, b: seq<Option<string>>)
    requires FilterNotNull(a) != [] && FilterNotNull(b) != []
    ensures Get(a + b).absolutePath == Get(a).absolutePath + [Separator] + Get(b).absolutePath
  {
    FilterNotNullAppend(a, b);
    JoinToStringAppend(FilterNotNull(a), FilterNotNull(b));
  }

  /** Splitting `get(path...)` on the separator gives back the non-null arguments, when there is
      at least one and none contains the separator. */
  lemma GetSplitsBack(path: seq<Option<string>>)
    requires |FilterNotNull(path)| >= 1
    requires forall i | 0 <= i < |FilterNotNull(path)| :: Separator !in FilterNotNull(path)[i]
    ensures Split(Get(path).absolutePath) == FilterNotNull(path)
  {
    SplitJoin(FilterNotNull(path));
  }

  lemma {:induction false} NonEmptyAppend(a: seq<string>, b: seq<string>)
    ensures NonEmpty(a + b) == NonEmpty(a) + NonEmpty(b)
  {
    if a == [] {
      assert a + b == b;
    } else {
      assert (a + b)[0] == a[0];
      assert (a + b)[1..] == a[1..] + b;
      NonEmptyAppend(a[1..], b);
    }
  }

  lemma ComponentsAppend(a: string, b: string)
    ensures Components(a + [Separator] + b) == Components(a) + Components(b)
  {
    SplitAppend(a, b);
    NonEmptyAppend(Split(a), Split(b));
  }

  lemma ComponentsOfValidSegment(s: string)
    requires ValidSegment(s)
    ensures Components(s) == [s]
  {
    SplitWithoutSeparator(s);
    assert Split(s) == [s];
    assert [s][0] == s && s != [];
    assert NonEmpty([s]) == [s] + NonEmpty([s][1..]);
    assert [s][1..] == [];
  }

  /** The location of a joined pathname is the levels of its segments, in order; an empty
      segment, or a separator inside a segment, changes the levels but not their order. */
  lemma {:induction false} ComponentsJoin(segments: seq<string>)
    ensures Components(JoinToString(segments)) == ComponentsAll(segments)
  {
    if |segments| == 1 {
      assert segments[1..] == [];
    } else if |segments| > 1 {
      ComponentsAppend(segments[0], JoinToString(segments[1..]));
      ComponentsJoin(segments[1..]);
    }
  }

  lemma {:induction false} ComponentsAllOfValid(segments: seq<string>)
    requires forall i | 0 <= i < |segments| :: ValidSegment(segments[i])
    ensures ComponentsAll(segments) == segments
  {
    if segments != [] {
      ComponentsOfValidSegment(segments[0]);
      ComponentsAllOfValid(segments[1..]);
    }
  }

  lemma {:induction false} ComponentsAllAppend(a: seq<string>, b: seq<string>)
    ensures ComponentsAll(a + b) == ComponentsAll(a) + ComponentsAll(b)
  {
    if a == [] {
      assert a + b == b;
    } else {
      assert (a + b)[0] == a[0];
      assert (a + b)[1..] == a[1..] + b;
      ComponentsAllAppend(a[1..], b);
    }
  }

  lemma {:induction false} SplitPartsHaveNoSeparator(s: string)
    ensures forall i | 0 <= i < |Split(s)| :: Separator !in Split(s)[i]
  {
    if s != [] {
      SplitPartsHaveNoSeparator(s[1..]);
    }
  }

  lemma {:induction false} NonEmptyKeepsValid(parts: seq<string>)
    requires forall i | 0 <= i < |parts| :: Separator !in parts[i]
    ensures forall i | 0 <= i < |NonEmpty(parts)| :: ValidSegment(NonEmpty(parts)[i])
  {
    if parts != [] {
      NonEmptyKeepsValid(parts[1..]);
    }
  }

  /** Every level a pathname names is a valid directory-entry name. */
  lemma ComponentsAreValid(s: string)
    ensures forall i | 0 <= i < |Components(s)| :: ValidSegment(Components(s)[i])
  {
    SplitPartsHaveNoSeparator(s);
    NonEmptyKeepsValid(Split(s));
  }

  lemma {:induction false} ComponentsAllAreValid(segments: seq<string>)
    ensures forall i | 0 <= i < |ComponentsAll(segments)| :: ValidSegment(ComponentsAll(segments)[i])
  {
    if segments != [] {
      ComponentsAreValid(segments[0]);
      ComponentsAllAreValid(segments[1..]);
    }
  }

  /** Where `Paths.get(s1, ..., sn).toFile()` points, for non-null arguments. */
  lemma GetLocation(segments: seq<string>)
    ensures Get(Somes(segments)).ToFile() == ComponentsAll(segments)
  {
    FilterNotNullOfSomes(segments);
    ComponentsJoin(segments);
  }

  /** Reading the joined path back recovers the segments when none is empty and none contains
      the separator. */
  lemma RecoverSegments(segments: seq<string>)
    requires forall i | 0 <= i < |segments| :: ValidSegment(segments[i])
    ensures Get(Somes(segments)).ToFile() == segments
  {
    GetLocation(segments);
    ComponentsAllOfValid(segments);
  }
}
