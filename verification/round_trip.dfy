/** What the integration tests check end to end: unzipping what `zip_dir`
    made of a directory gives back the same paths, the same kinds of node
    and the same bytes (hence the same sizes), on a JRuby the gate accepts. */
module RoundTrip {
  import opened Paths
  import opened Archive
  import opened Failures
  import opened VersionGate
  import opened Pack
  import opened Unpack

  /** The node at `p` can travel: a file or a directory under a valid
      relative name, at the top or inside a directory of the tree. */
  predicate Carried(tree: SourceTree, p: Path)
    requires p in tree
  {
    && p != []
    && ValidPath(p)
    && !tree[p].Special?
    && (|p| > 1 ==> Parent(p) in tree && tree[Parent(p)].Directory?)
  }

  /** A source directory the archive can carry whole. (The trigger keeps
      the solver from chasing parents of parents on its own.) */
  predicate PackableTree(tree: SourceTree) {
    forall p {:trigger Carried(tree, p)} :: p in tree ==> Carried(tree, p)
  }

  /** The node at `p` is in the listing. */
  predicate Listed(listing: seq<Path>, p: Path) {
    p in listing
  }

  /** The directory holding listed path `i` is listed before it. */
  predicate ParentListedBefore(listing: seq<Path>, i: nat)
    requires i < |listing|
  {
    |listing[i]| > 1 ==> exists j :: 0 <= j < i && listing[j] == Parent(listing[i])
  }

  /** The recursive glob as the round trip needs it: every node of the tree
      exactly once, each directory before anything inside it. */
  predicate EnumeratesTree(tree: SourceTree, listing: seq<Path>) {
    && (forall i :: 0 <= i < |listing| ==> listing[i] in tree)
    && (forall p {:trigger Listed(listing, p)} :: p in tree ==> Listed(listing, p))
    && (forall i, j :: 0 <= i < j < |listing| ==> listing[i] != listing[j])
    && (forall i {:trigger ParentListedBefore(listing, i)} :: 0 <= i < |listing| ==> ParentListedBefore(listing, i))
  }

  /** A destination the archive can be extracted into: an empty directory,
      or nothing yet inside an existing directory. */
  predicate FreshDestination(fs: FileSystem, dest: Path) {
    && WellFormed(fs)
    && ValidPath(dest)
    && ((dest in fs && fs[dest].Dir?) || (dest !in fs && ParentIsDir(fs, dest)))
    && (forall q :: q in fs ==> !IsStrictPrefix(dest, q))
  }

  /** The node extraction makes for a source node. */
  function NodeOf(n: SourceNode): (m: Node)
    requires !n.Special?
    ensures m.Dir? <==> n.Directory?
    ensures m.File? ==> m.data == n.data
  {
    if n.Directory? then Dir else File(n.data)
  }

  /** `fs` holds under `dest` a copy of `tree`: a node of the same kind at
      every path, with the same bytes for files, and nothing more. */
  predicate Mirrors(tree: SourceTree, fs: FileSystem, dest: Path) {
    && dest in fs && fs[dest].Dir?
    && (forall p :: p in tree ==>
          && dest + p in fs
          && (tree[p].Directory? <==> fs[dest + p].Dir?)
          && (tree[p].RegularFile? ==> fs[dest + p] == File(tree[p].data)))
    && (forall q :: q in fs && IsStrictPrefix(dest, q) ==> q[|dest|..] in tree)
  }

  /** What the disk holds after the first `k` entries have been replayed on
      `fs1`: `fs1` unchanged, plus the node of each of the first `k` listed
      paths under `dest`. */
  predicate ReplayedUpTo(tree: SourceTree, listing: seq<Path>, fs1: FileSystem, dest: Path, f: FileSystem, k: nat)
    requires k <= |listing| && AllPackable(tree, listing)
  {
    && (forall q :: q in f ==> q in fs1 || exists i :: 0 <= i < k && q == dest + listing[i])
    && (forall q :: q in fs1 ==> q in f && f[q] == fs1[q])
    && (forall i :: 0 <= i < k ==> dest + listing[i] in f && f[dest + listing[i]] == NodeOf(tree[listing[i]]))
  }

  lemma ListingIsValid(tree: SourceTree, listing: seq<Path>)
    requires PackableTree(tree) && EnumeratesTree(tree, listing)
    ensures ValidPaths(listing)
    ensures AllPackable(tree, listing)
  {
    forall i | 0 <= i < |listing|
      ensures ValidPath(listing[i]) && Packable(tree, listing[i])
    {
      assert Carried(tree, listing[i]);
    }
  }

  lemma ConcatCancel(dest: Path, a: Path, b: Path)
    requires dest + a == dest + b
    ensures a == b
  {
    PrefixOfConcat(dest, a);
    PrefixOfConcat(dest, b);
  }

  /** Entry `k` lands on a free path whose directory already exists. */
  lemma {:induction false} NextTargetIsFree(tree: SourceTree, listing: seq<Path>, fs1: FileSystem, dest: Path, f: FileSystem, k: nat)
    requires PackableTree(tree) && EnumeratesTree(tree, listing) && AllPackable(tree, listing)
    requires ValidPath(dest) && dest in fs1 && fs1[dest].Dir?
    requires forall q :: q in fs1 ==> !IsStrictPrefix(dest, q)
    requires k < |listing|
    requires ReplayedUpTo(tree, listing, fs1, dest, f, k)
    ensures dest + listing[k] !in f
    ensures ParentIsDir(f, dest + listing[k])
  {
    var p := listing[k];
    var t := dest + p;
    assert Carried(tree, p);
    PrefixOfConcat(dest, p);
    assert t !in fs1;
    forall i | 0 <= i < k
      ensures dest + listing[i] != t
    {
      if dest + listing[i] == t {
        ConcatCancel(dest, listing[i], p);
      }
    }
    ParentOfConcat(dest, p);
    if |p| > 1 {
      var pp := Parent(p);
      assert ParentListedBefore(listing, k);
      var j :| 0 <= j < k && listing[j] == pp;
      assert f[dest + listing[j]] == NodeOf(tree[pp]);
    } else {
      assert Parent(p) == [];
      assert dest + [] == dest;
    }
  }

  /** The entry of a listed path, on a disk where its target is free and
      its directory exists, adds exactly that path's node. */
  lemma EntryLands(tree: SourceTree, f: FileSystem, dest: Path, e: Entry, p: Path)
    requires ValidPath(dest) && ValidPath(p) && p != []
    requires Describes(e, tree, p) && !tree[p].Special?
    requires dest + p !in f && ParentIsDir(f, dest + p)
    ensures ApplyEntry(f, dest, e) == Ok(f[dest + p := NodeOf(tree[p])])
  {
    ResolvePathString(dest, p, if tree[p].Directory? then "/" else "");
    assert Target(dest, e) == dest + p;
  }

  /** `ReplayedUpTo` survives adding the node of the next listed path at
      its free target. */
  lemma ReplayStep(tree: SourceTree, listing: seq<Path>, fs1: FileSystem, dest: Path, f: FileSystem, k: nat)
    requires k < |listing| && AllPackable(tree, listing)
    requires dest + listing[k] !in f
    requires ReplayedUpTo(tree, listing, fs1, dest, f, k)
    ensures ReplayedUpTo(tree, listing, fs1, dest, f[dest + listing[k] := NodeOf(tree[listing[k]])], k + 1)
  {
    var t := dest + listing[k];
    var f' := f[t := NodeOf(tree[listing[k]])];
    forall q | q in f'
      ensures q in fs1 || exists i :: 0 <= i < k + 1 && q == dest + listing[i]
    {
      if q != t && q !in fs1 {
        var i :| 0 <= i < k && q == dest + listing[i];
      }
    }
    forall q | q in fs1
      ensures q in f' && f'[q] == fs1[q]
    {
      assert q in f;
    }
    forall i | 0 <= i < k + 1
      ensures dest + listing[i] in f' && f'[dest + listing[i]] == NodeOf(tree[listing[i]])
    {
      if i < k {
        assert dest + listing[i] in f;
      }
    }
  }

  /** Entry `i` of the archive is the entry of listed path `i`. */
  predicate ArchiveOf(tree: SourceTree, listing: seq<Path>, entries: seq<Entry>) {
    |entries| == |listing| && forall i :: 0 <= i < |entries| ==> Describes(entries[i], tree, listing[i])
  }

  /** The names of an archive of a listing never leave the destination:
      each is a valid relative path string. */
  lemma ArchiveStaysInside(tree: SourceTree, listing: seq<Path>, entries: seq<Entry>)
    requires PackableTree(tree) && EnumeratesTree(tree, listing)
    requires ArchiveOf(tree, listing, entries)
    ensures StaysInside(entries)
  {
    forall i | 0 <= i < |entries|
      ensures Relative(entries[i].name)
    {
      var p := listing[i];
      assert Carried(tree, p);
      ResolvePathString([], p, if tree[p].Directory? then "/" else "");
    }
  }

  /** One more entry of the archive replays without error. */
  lemma ReplayOne(tree: SourceTree, listing: seq<Path>, entries: seq<Entry>, fs1: FileSystem, dest: Path, k: nat, f: FileSystem)
    requires PackableTree(tree) && EnumeratesTree(tree, listing) && AllPackable(tree, listing)
    requires ArchiveOf(tree, listing, entries)
    requires ValidPath(dest) && dest in fs1 && fs1[dest].Dir?
    requires forall q :: q in fs1 ==> !IsStrictPrefix(dest, q)
    requires k < |listing|
    requires ApplyEntries(fs1, dest, entries[..k]) == Finished(f)
    requires ReplayedUpTo(tree, listing, fs1, dest, f, k)
    ensures ApplyEntries(fs1, dest, entries[..k + 1]).Finished?
    ensures ReplayedUpTo(tree, listing, fs1, dest, ApplyEntries(fs1, dest, entries[..k + 1]).fs, k + 1)
  {
    var e := entries[k];
    var p := listing[k];
    assert Carried(tree, p);
    NextTargetIsFree(tree, listing, fs1, dest, f, k);
    EntryLands(tree, f, dest, e, p);
    ExtendFinished(fs1, dest, entries, k, f, f[dest + p := NodeOf(tree[p])]);
    ReplayStep(tree, listing, fs1, dest, f, k);
  }

  /** Replaying the first `k` entries of the archive never fails and leaves
      the disk as `ReplayedUpTo` describes. */
  lemma {:induction false} Replay(tree: SourceTree, listing: seq<Path>, entries: seq<Entry>, fs1: FileSystem, dest: Path, k: nat)
    requires PackableTree(tree) && EnumeratesTree(tree, listing) && AllPackable(tree, listing)
    requires ArchiveOf(tree, listing, entries)
    requires ValidPath(dest) && dest in fs1 && fs1[dest].Dir?
    requires forall q :: q in fs1 ==> !IsStrictPrefix(dest, q)
    requires k <= |listing|
    ensures ApplyEntries(fs1, dest, entries[..k]).Finished?
    ensures ReplayedUpTo(tree, listing, fs1, dest, ApplyEntries(fs1, dest, entries[..k]).fs, k)
  {
    if k == 0 {
      assert entries[..0] == [];
    } else {
      Replay(tree, listing, entries, fs1, dest, k - 1);
      var r := ApplyEntries(fs1, dest, entries[..k - 1]);
      assert r == Finished(r.fs);
      ReplayOne(tree, listing, entries, fs1, dest, k - 1, r.fs);
    }
  }

  /** A fresh destination is ready after the set-up step: a directory with
      nothing inside it, and nothing else on the disk changed. */
  lemma DestinationReady(fs: FileSystem, dest: Path)
    requires FreshDestination(fs, dest)
    ensures PrepareDestination(fs, dest).Ok?
    ensures var fs1 := PrepareDestination(fs, dest).value;
            && dest in fs1 && fs1[dest].Dir?
            && (forall q :: q in fs1 ==> !IsStrictPrefix(dest, q))
            && AgreesOutside(fs, fs1, dest)
  {
    var fs1 := PrepareDestination(fs, dest).value;
    assert forall q :: q in fs1 ==> q == dest || q in fs;
  }

  /** Replaying the whole archive of the listing leaves a copy of the tree
      under `dest`. */
  lemma ReplayAll(tree: SourceTree, listing: seq<Path>, entries: seq<Entry>, fs1: FileSystem, dest: Path)
    requires PackableTree(tree) && EnumeratesTree(tree, listing) && AllPackable(tree, listing)
    requires ArchiveOf(tree, listing, entries)
    requires ValidPath(dest) && dest in fs1 && fs1[dest].Dir?
    requires forall q :: q in fs1 ==> !IsStrictPrefix(dest, q)
    ensures ApplyEntries(fs1, dest, entries).Finished?
    ensures Mirrors(tree, ApplyEntries(fs1, dest, entries).fs, dest)
  {
    Replay(tree, listing, entries, fs1, dest, |listing|);
    assert entries[..|listing|] == entries;
    var f := ApplyEntries(fs1, dest, entries).fs;
    assert ReplayedUpTo(tree, listing, fs1, dest, f, |listing|);
    forall p | p in tree
      ensures Packable(tree, p) && dest + p in f && f[dest + p] == NodeOf(tree[p])
    {
      assert Listed(listing, p);
      var i :| 0 <= i < |listing| && listing[i] == p;
    }
    forall q | q in f && IsStrictPrefix(dest, q)
      ensures q[|dest|..] in tree
    {
      var i :| 0 <= i < |listing| && q == dest + listing[i];
      PrefixOfConcat(dest, listing[i]);
    }
  }

  lemma AgreesOutsideTrans(fs: FileSystem, fs1: FileSystem, fs2: FileSystem, dest: Path)
    requires AgreesOutside(fs, fs1, dest) && AgreesOutside(fs1, fs2, dest)
    ensures AgreesOutside(fs, fs2, dest)
  {
  }

  /** Zipping a directory and unzipping the archive into a fresh destination
      reproduces the directory there and touches nothing outside it. */
  lemma RoundTrip(version: string, tree: SourceTree, listing: seq<Path>, fs: FileSystem, dest: Path)
    requires CheckJRubyVersion(version).Ok?
    requires PackableTree(tree) && EnumeratesTree(tree, listing)
    requires FreshDestination(fs, dest)
    ensures ValidPaths(listing)
    ensures ZipDir(version, tree, listing).Ok?
    ensures Unzip(version, ZipDir(version, tree, listing).value, fs, dest).Finished?
    ensures Mirrors(tree, Unzip(version, ZipDir(version, tree, listing).value, fs, dest).fs, dest)
    ensures AgreesOutside(fs, Unzip(version, ZipDir(version, tree, listing).value, fs, dest).fs, dest)
  {
    ListingIsValid(tree, listing);
    var entries := EmitEntries(tree, listing);
    assert ZipDir(version, tree, listing) == Ok(entries);
    assert ArchiveOf(tree, listing, entries);
    DestinationReady(fs, dest);
    var fs1 := PrepareDestination(fs, dest).value;
    assert Unzip(version, entries, fs, dest) == ApplyEntries(fs1, dest, entries);
    ReplayAll(tree, listing, entries, fs1, dest);
    ArchiveStaysInside(tree, listing, entries);
    AgreesOutsideTrans(fs, fs1, ApplyEntries(fs1, dest, entries).fs, dest);
  }

  /** The size check of the integration tests: every file comes back with as
      many bytes as it had. */
  lemma RoundTripKeepsSizes(version: string, tree: SourceTree, listing: seq<Path>, fs: FileSystem, dest: Path, p: Path)
    requires CheckJRubyVersion(version).Ok?
    requires PackableTree(tree) && EnumeratesTree(tree, listing)
    requires FreshDestination(fs, dest)
    requires p in tree && tree[p].RegularFile?
    ensures ValidPaths(listing)
    ensures var out := Unzip(version, ZipDir(version, tree, listing).value, fs, dest).fs;
            dest + p in out && out[dest + p].File? && |out[dest + p].data| == |tree[p].data|
  {
    RoundTrip(version, tree, listing, fs, dest);
  }
}
