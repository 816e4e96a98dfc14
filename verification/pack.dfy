/** `Presso.zip_dir`: after the version gate, walk the enumeration of the
    source directory and turn every regular file and every directory into one
    archive entry, in enumeration order. The enumeration (the recursive glob)
    is a parameter; what `File.file?` and `File.directory?` report for each
    path is the source tree. */
module Pack {
  import opened RubyText
  import opened Paths
  import opened Archive
  import opened Failures
  import opened VersionGate

  /** What the two file tests see at a path of the source directory. */
  datatype SourceNode =
    | RegularFile(data: seq<byte>) // File.file?
    | Directory                     // File.directory?
    | Special                       // neither: sockets, devices, dangling links

  /** The source directory: each path, relative to it, and what is there. */
  type SourceTree = map<Path, SourceNode>

  /** A path that yields an entry: it exists and is a file or a directory. */
  predicate Packable(tree: SourceTree, p: Path) {
    p in tree && !tree[p].Special?
  }

  /** `e` is the entry for the node at `p`: its name is the path string,
      with a trailing '/' for a directory, and reads back as `p`; it is a
      directory entry exactly when `p` is a directory; and it carries the
      file's bytes unchanged (a directory carries none). */
  predicate Describes(e: Entry, tree: SourceTree, p: Path) {
    && p in tree
    && e.name == PathString(p) + (if tree[p].Directory? then "/" else "")
    && Components(e.name) == p
    && (IsDirectoryEntry(e) <==> tree[p].Directory?)
    && (tree[p].RegularFile? ==> e.data == tree[p].data)
    && (tree[p].Directory? ==> e.data == [])
  }

  /** The entries one enumerated path contributes: a file keeps its path as
      the name, a directory gets a trailing '/', anything else nothing. */
  function EntriesFor(tree: SourceTree, p: Path): (r: seq<Entry>)
    requires ValidPath(p)
    ensures |r| <= 1
    ensures r == [] <==> !Packable(tree, p)
    ensures r != [] ==> Describes(r[0], tree, p)
  {
    if p !in tree then []
    else
      match tree[p]
      case RegularFile(data) =>
        var e := Entry(PathString(p), data);
        assert Components(e.name) == p by {
          assert PathString(p) + "" == PathString(p);
          ComponentsOfPathString(p, "");
        }
        assert !IsDirectoryEntry(e) by {
          if p != [] {
            PathStringLast(p);
          }
        }
        [e]
      case Directory =>
        var e := Entry(PathString(p) + "/", []);
        assert Components(e.name) == p by {
          ComponentsOfPathString(p, "/");
        }
        [e]
      case Special => []
  }

  /** Every path of the listing yields an entry. */
  predicate AllPackable(tree: SourceTree, listing: seq<Path>) {
    forall i :: 0 <= i < |listing| ==> Packable(tree, listing[i])
  }

  /** The body of the glob loop: the entries of every enumerated path, in
      enumeration order. When every path is a file or a directory, entry `i`
      is the entry of path `i`. */
  function EmitEntries(tree: SourceTree, listing: seq<Path>): (r: seq<Entry>)
    requires ValidPaths(listing)
    ensures |r| <= |listing|
    ensures AllPackable(tree, listing) ==>
              |r| == |listing| && forall i :: 0 <= i < |r| ==> Describes(r[i], tree, listing[i])
  {
    if listing == [] then []
    else
      var head := EntriesFor(tree, listing[0]);
      var rest := EmitEntries(tree, listing[1..]);
      assert AllPackable(tree, listing) ==>
               forall i :: 0 <= i < |head + rest| ==> Describes((head + rest)[i], tree, listing[i]) by {
        if AllPackable(tree, listing) {
          PackedCons(tree, listing, head, rest);
        }
      }
      head + rest
  }

  /** The inductive step of `EmitEntries`, stated apart to keep its proof
      small. */
  lemma PackedCons(tree: SourceTree, listing: seq<Path>, head: seq<Entry>, rest: seq<Entry>)
    requires listing != [] && ValidPaths(listing) && AllPackable(tree, listing)
    requires |head| == 1 && Describes(head[0], tree, listing[0])
    requires AllPackable(tree, listing[1..]) ==>
               |rest| == |listing| - 1 && forall i :: 0 <= i < |rest| ==> Describes(rest[i], tree, listing[1..][i])
    ensures |head + rest| == |listing|
    ensures forall i :: 0 <= i < |head + rest| ==> Describes((head + rest)[i], tree, listing[i])
  {
    assert AllPackable(tree, listing[1..]) by {
      forall i | 0 <= i < |listing[1..]|
        ensures Packable(tree, listing[1..][i])
      {
        assert listing[1..][i] == listing[i + 1];
      }
    }
    forall i | 0 < i < |head + rest|
      ensures Describes((head + rest)[i], tree, listing[i])
    {
      assert (head + rest)[i] == rest[i - 1];
      assert listing[i] == listing[1..][i - 1];
    }
  }

  /** `e` is the entry of some path of the listing. */
  predicate DescribesSome(e: Entry, tree: SourceTree, listing: seq<Path>) {
    exists i :: 0 <= i < |listing| && Describes(e, tree, listing[i])
  }

  /** Whatever the listing holds, each emitted entry is the entry of some
      listed path: nothing is invented. */
  lemma {:induction false} EmittedEntriesDescribe(tree: SourceTree, listing: seq<Path>)
    requires ValidPaths(listing)
    ensures forall k :: 0 <= k < |EmitEntries(tree, listing)| ==>
              DescribesSome(EmitEntries(tree, listing)[k], tree, listing)
    decreases |listing|
  {
    var r := EmitEntries(tree, listing);
    if listing != [] {
      var head := EntriesFor(tree, listing[0]);
      var rest := EmitEntries(tree, listing[1..]);
      assert r == head + rest;
      EmittedEntriesDescribe(tree, listing[1..]);
      forall k | 0 <= k < |r|
        ensures DescribesSome(r[k], tree, listing)
      {
        if k < |head| {
          DescribedFirst(tree, listing, r[k]);
        } else {
          assert r[k] == rest[k - |head|];
          assert DescribesSome(rest[k - |head|], tree, listing[1..]);
          DescribedLater(tree, listing, r[k]);
        }
      }
    } else {
      assert r == [];
    }
  }

  /** The entry of the first listed path is the entry of a listed path. */
  lemma DescribedFirst(tree: SourceTree, listing: seq<Path>, e: Entry)
    requires listing != [] && Describes(e, tree, listing[0])
    ensures DescribesSome(e, tree, listing)
  {
  }

  /** An entry of some path of the listing's tail is the entry of some path
      of the listing. */
  lemma DescribedLater(tree: SourceTree, listing: seq<Path>, e: Entry)
    requires listing != []
    requires DescribesSome(e, tree, listing[1..])
    ensures DescribesSome(e, tree, listing)
  {
    var j :| 0 <= j < |listing[1..]| && Describes(e, tree, listing[1..][j]);
    assert listing[1..][j] == listing[j + 1];
  }

  /** Enumerating two lists one after the other emits their entries one
      after the other: the order of the archive is the order of the glob. */
  lemma {:induction false} EmitEntriesAppend(tree: SourceTree, a: seq<Path>, b: seq<Path>)
    requires ValidPaths(a) && ValidPaths(b)
    ensures ValidPaths(a + b)
    ensures EmitEntries(tree, a + b) == EmitEntries(tree, a) + EmitEntries(tree, b)
    decreases |a|
  {
    ValidPathsConcat(a, b);
    if a == [] {
      assert a + b == b;
    } else {
      assert (a + b)[0] == a[0];
      assert (a + b)[1..] == a[1..] + b;
      EmitEntriesAppend(tree, a[1..], b);
      var head := EntriesFor(tree, a[0]);
      assert EmitEntries(tree, a + b) == head + EmitEntries(tree, a[1..] + b);
      assert EmitEntries(tree, a) == head + EmitEntries(tree, a[1..]);
      var x, y := EmitEntries(tree, a[1..]), EmitEntries(tree, b);
      assert head + (x + y) == (head + x) + y;
    }
  }

  /** A listing of one path that yields no entry emits nothing. */
  lemma EmitsNothing(tree: SourceTree, p: Path)
    requires ValidPath(p) && !Packable(tree, p)
    ensures ValidPaths([p])
    ensures EmitEntries(tree, [p]) == []
  {
    assert [p][1..] == [];
  }

  /** A listing cut around position `i`. */
  lemma CutAround(listing: seq<Path>, i: nat)
    requires ValidPaths(listing) && i < |listing|
    ensures ValidPaths(listing[..i]) && ValidPaths(listing[i + 1..]) && ValidPath(listing[i])
    ensures listing == listing[..i] + ([listing[i]] + listing[i + 1..])
  {
    assert ValidPath(listing[i]);
    var rest := listing[i + 1..];
    forall j | 0 <= j < |rest|
      ensures ValidPath(rest[j])
    {
      assert rest[j] == listing[i + 1 + j];
    }
  }

  /** A path that is neither file nor directory leaves no trace: the archive
      is what the enumeration without it would give. */
  lemma SkipsSpecial(tree: SourceTree, listing: seq<Path>, i: nat)
    requires ValidPaths(listing)
    requires i < |listing| && !Packable(tree, listing[i])
    ensures ValidPaths(listing[..i] + listing[i + 1..])
    ensures EmitEntries(tree, listing) == EmitEntries(tree, listing[..i] + listing[i + 1..])
  {
    CutAround(listing, i);
    var a, b, x := listing[..i], listing[i + 1..], [listing[i]];
    EmitsNothing(tree, listing[i]);
    EmitEntriesAppend(tree, x, b);
    assert EmitEntries(tree, x + b) == EmitEntries(tree, b);
    EmitEntriesAppend(tree, a, x + b);
    EmitEntriesAppend(tree, a, b);
  }

  /** `zip_dir`: the version gate runs first and, when it refuses, no entry
      is produced; otherwise the archive holds the emitted entries. */
  function ZipDir(version: string, tree: SourceTree, listing: seq<Path>): (r: Result<seq<Entry>>)
    requires ValidPaths(listing)
    ensures r.Ok? <==> LexLess(LastIncompatible, ParseVersion(version))
    ensures r.Err? ==> r.error == IncompatibleVersion(IncompatibleMessage)
    ensures r.Ok? ==> r.value == EmitEntries(tree, listing)
  {
    match CheckJRubyVersion(version)
    case Err(e) => Err(e)
    case Ok(_) => Ok(EmitEntries(tree, listing))
  }
}
