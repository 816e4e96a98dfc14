/** `Presso.unzip`: after the version gate, make sure the destination is a
    directory, then replay the archive entry by entry: a directory entry is a
    `Dir.mkdir`, any other entry writes a file. The disk is a map from
    absolute paths to nodes; the first failing step raises, and whatever the
    steps before it did stays on disk. */
module Unpack {
  import opened Paths
  import opened Archive
  import opened Failures
  import opened VersionGate

  datatype Node = File(data: seq<byte>) | Dir

  /** The disk: every existing path, from the root `[]`, and what is there. */
  type FileSystem = map<Path, Node>

  /** The directory that would hold `p` exists. */
  predicate ParentIsDir(fs: FileSystem, p: Path) {
    p != [] && Parent(p) in fs && fs[Parent(p)].Dir?
  }

  /** A disk a real file system can be in: the root is a directory, every
      path is made of valid names, and everything else sits in a directory. */
  predicate WellFormed(fs: FileSystem) {
    && [] in fs && fs[[]].Dir?
    && (forall p :: p in fs ==> ValidPath(p))
    && (forall p {:trigger ParentIsDir(fs, p)} :: p in fs && p != [] ==> ParentIsDir(fs, p))
  }

  /** Adding a node at a path whose directory exists keeps a disk well
      formed. (The trigger in `WellFormed` keeps the solver from walking up
      parents on its own, so the old parents are named here.) */
  lemma AddKeepsWellFormed(fs: FileSystem, p: Path, n: Node)
    requires WellFormed(fs) && ValidPath(p) && ParentIsDir(fs, p)
    requires p in fs ==> fs[p].File? && n.File?
    ensures WellFormed(fs[p := n])
  {
    var fs' := fs[p := n];
    forall q | q in fs' && q != []
      ensures ParentIsDir(fs', q)
    {
      if q != p {
        assert ParentIsDir(fs, q);
      }
    }
  }

  /** `fs'` is `fs` with `p` set to `n`, and nothing else different. */
  predicate ChangedOnly(fs: FileSystem, fs': FileSystem, p: Path, n: Node) {
    && fs'.Keys == fs.Keys + {p}
    && fs'[p] == n
    && (forall q :: q in fs && q != p ==> fs'[q] == fs[q])
  }

  /** Nothing outside the directory `dest` (the directory itself included)
      differs between `fs` and `fs'`. */
  predicate AgreesOutside(fs: FileSystem, fs': FileSystem, dest: Path) {
    && (forall q :: q in fs && !IsPrefix(dest, q) ==> q in fs' && fs'[q] == fs[q])
    && (forall q :: q in fs' && !IsPrefix(dest, q) ==> q in fs)
  }

  /** `Dir.mkdir(p)`: fails with EEXIST when anything is at `p`, with
      ENOENT / ENOTDIR when its parent is not a directory. */
  function MakeDirectory(fs: FileSystem, p: Path): (r: Result<FileSystem>)
    ensures r.Ok? <==> p !in fs && ParentIsDir(fs, p)
    ensures r.Ok? ==> ChangedOnly(fs, r.value, p, Dir)
    ensures r.Err? && p in fs ==> r.error == AlreadyExists(p)
    ensures r.Err? && p !in fs ==> r.error == NoParentDirectory(p)
    ensures r.Ok? && WellFormed(fs) && ValidPath(p) ==> WellFormed(r.value)
  {
    if p in fs then Err(AlreadyExists(p))
    else if !ParentIsDir(fs, p) then Err(NoParentDirectory(p))
    else
      assert WellFormed(fs) && ValidPath(p) ==> WellFormed(fs[p := Dir]) by {
        if WellFormed(fs) && ValidPath(p) {
          AddKeepsWellFormed(fs, p, Dir);
        }
      }
      Ok(fs[p := Dir])
  }

  /** Writing a file at `p` (the destination side of `IO.copy_stream`): an
      existing file is overwritten; a directory at `p` is EISDIR; a parent
      that is not a directory is ENOENT / ENOTDIR. */
  function WriteFile(fs: FileSystem, p: Path, data: seq<byte>): (r: Result<FileSystem>)
    ensures r.Ok? <==> (p !in fs || fs[p].File?) && ParentIsDir(fs, p)
    ensures r.Ok? ==> ChangedOnly(fs, r.value, p, File(data))
    ensures r.Err? && p in fs && fs[p].Dir? ==> r.error == IsADirectory(p)
    ensures r.Err? && !(p in fs && fs[p].Dir?) ==> r.error == NoParentDirectory(p)
    ensures r.Ok? && WellFormed(fs) && ValidPath(p) ==> WellFormed(r.value)
  {
    if p in fs && fs[p].Dir? then Err(IsADirectory(p))
    else if !ParentIsDir(fs, p) then Err(NoParentDirectory(p))
    else
      assert WellFormed(fs) && ValidPath(p) ==> WellFormed(fs[p := File(data)]) by {
        if WellFormed(fs) && ValidPath(p) {
          AddKeepsWellFormed(fs, p, File(data));
        }
      }
      Ok(fs[p := File(data)])
  }

  /** Where an entry lands: the entry's name, unchanged, opened with the
      destination as working directory. A relative name without `..` lands
      inside the destination; an absolute name or one climbing with `..`
      can land anywhere. */
  function Target(dest: Path, e: Entry): (p: Path)
    requires ValidPath(dest)
    ensures ValidPath(p)
    ensures Relative(e.name) ==> IsPrefix(dest, p)
  {
    var p := Resolve(dest, e.name);
    assert Relative(e.name) ==> IsPrefix(dest, p) by {
      if Relative(e.name) {
        ResolveStaysInside(dest, e.name);
      }
    }
    p
  }

  /** One turn of the entry loop: a directory entry makes a directory at
      its target, which must be free; any other entry writes its bytes
      there, over a file but not over a directory. Either way the target's
      directory must exist, and nothing but the target changes. */
  function ApplyEntry(fs: FileSystem, dest: Path, e: Entry): (r: Result<FileSystem>)
    requires ValidPath(dest)
    ensures var t := Target(dest, e);
            r.Ok? <==> ParentIsDir(fs, t) && (if IsDirectoryEntry(e) then t !in fs else !(t in fs && fs[t].Dir?))
    ensures r.Ok? ==> ChangedOnly(fs, r.value, Target(dest, e), if IsDirectoryEntry(e) then Dir else File(e.data))
    ensures var t := Target(dest, e);
            r.Err? && IsDirectoryEntry(e) ==> r.error == (if t in fs then AlreadyExists(t) else NoParentDirectory(t))
    ensures var t := Target(dest, e);
            r.Err? && !IsDirectoryEntry(e) ==> r.error == (if t in fs && fs[t].Dir? then IsADirectory(t) else NoParentDirectory(t))
    ensures r.Ok? && WellFormed(fs) ==> WellFormed(r.value)
  {
    if IsDirectoryEntry(e) then MakeDirectory(fs, Target(dest, e))
    else WriteFile(fs, Target(dest, e), e.data)
  }

  /** A directory entry named `./` is a `mkdir` of the destination itself,
      which exists, so it raises EEXIST. */
  lemma DotDirectoryEntryRaises(fs: FileSystem, dest: Path)
    requires ValidPath(dest) && dest in fs
    ensures ApplyEntry(fs, dest, Entry(['.', '/'], [])) == Err(AlreadyExists(dest))
  {
    DotNameIsHere(dest, "/");
    assert ['.'] + "/" == ['.', '/'];
  }

  /** A file entry named `../n` writes next to the destination, outside
      it. */
  lemma ParentEntryWritesOutside(fs: FileSystem, dest: Path, n: Name, data: seq<byte>)
    requires ValidPath(dest) && dest != [] && ValidName(n)
    requires ParentIsDir(fs, Parent(dest) + [n]) && Parent(dest) + [n] !in fs
    ensures ApplyEntry(fs, dest, Entry(['.', '.', '/'] + n, data)) == Ok(fs[Parent(dest) + [n] := File(data)])
    ensures !IsStrictPrefix(dest, Parent(dest) + [n])
  {
    ParentNameEscapes(dest, n);
    var e := Entry(['.', '.', '/'] + n, data);
    assert !IsDirectoryEntry(e) by {
      assert e.name[|e.name| - 1] == n[|n| - 1];
    }
  }

  /** How `unzip` ends: normally, or by an exception; either way the disk is
      left as the steps so far made it. */
  datatype Outcome = Finished(fs: FileSystem) | Raised(error: Error, fs: FileSystem)

  /** Every entry name is relative and free of `..`. */
  predicate StaysInside(entries: seq<Entry>) {
    forall i :: 0 <= i < |entries| ==> Relative(entries[i].name)
  }

  /** The entry loop: replay the entries in archive order and stop at the
      first failure. It only ever adds or replaces paths, and when every
      name stays inside, only paths inside `dest`. */
  function ApplyEntries(fs: FileSystem, dest: Path, entries: seq<Entry>): (r: Outcome)
    requires ValidPath(dest)
    ensures WellFormed(fs) ==> WellFormed(r.fs)
    ensures fs.Keys <= r.fs.Keys
    ensures StaysInside(entries) ==> AgreesOutside(fs, r.fs, dest)
    ensures r.Raised? ==> !r.error.IncompatibleVersion?
    ensures entries == [] ==> r == Finished(fs)
    decreases |entries|
  {
    if entries == [] then Finished(fs)
    else
      match ApplyEntry(fs, dest, entries[0])
      case Err(e) => Raised(e, fs)
      case Ok(fs') =>
        assert StaysInside(entries) ==> StaysInside(entries[1..]) && AgreesOutside(fs, fs', dest) by {
          if StaysInside(entries) {
            assert Relative(entries[0].name);
            assert IsPrefix(dest, Target(dest, entries[0]));
            forall i | 0 <= i < |entries[1..]|
              ensures Relative(entries[1..][i].name)
            {
              assert entries[1..][i] == entries[i + 1];
            }
          }
        }
        ApplyEntries(fs', dest, entries[1..])
  }

  /** Replaying two archives one after the other is replaying the second on
      the disk the first leaves, unless the first raises. */
  lemma {:induction false} ApplyEntriesAppend(fs: FileSystem, dest: Path, a: seq<Entry>, b: seq<Entry>)
    requires ValidPath(dest)
    ensures ApplyEntries(fs, dest, a + b) ==
              match ApplyEntries(fs, dest, a)
              case Finished(fs') => ApplyEntries(fs', dest, b)
              case Raised(e, fs') => Raised(e, fs')
    decreases |a|
  {
    if a == [] {
      assert a + b == b;
    } else {
      assert (a + b)[0] == a[0];
      assert (a + b)[1..] == a[1..] + b;
      match ApplyEntry(fs, dest, a[0])
      case Err(_) =>
      case Ok(fs') => ApplyEntriesAppend(fs', dest, a[1..], b);
    }
  }

  /** `Dir.mkdir(directory) unless File.directory?(directory)`: an existing
      directory is reused as it is; anything else goes through `mkdir`, so
      an existing file there raises EEXIST. */
  function PrepareDestination(fs: FileSystem, dest: Path): (r: Result<FileSystem>)
    ensures r.Ok? <==> (dest in fs && fs[dest].Dir?) || (dest !in fs && ParentIsDir(fs, dest))
    ensures r.Ok? ==> dest in r.value && r.value[dest].Dir?
    ensures r.Ok? && dest in fs ==> r.value == fs
    ensures r.Ok? && dest !in fs ==> ChangedOnly(fs, r.value, dest, Dir)
    ensures r.Err? ==> r.error == (if dest in fs then AlreadyExists(dest) else NoParentDirectory(dest))
    ensures r.Ok? && WellFormed(fs) && ValidPath(dest) ==> WellFormed(r.value)
  {
    if dest in fs && fs[dest].Dir? then Ok(fs) else MakeDirectory(fs, dest)
  }

  /** `unzip(zip, directory)` on the archive's entries: the version gate
      first, so a refusal leaves the disk exactly as it was; then the
      destination; then the entries. An archive whose names all stay inside
      changes nothing outside the destination. */
  function Unzip(version: string, archive: seq<Entry>, fs: FileSystem, dest: Path): (r: Outcome)
    requires ValidPath(dest)
    ensures !LexLess(LastIncompatible, ParseVersion(version)) ==>
              r == Raised(IncompatibleVersion(IncompatibleMessage), fs)
    ensures r.Raised? && r.error.IncompatibleVersion? ==> r.fs == fs
    ensures WellFormed(fs) ==> WellFormed(r.fs)
    ensures fs.Keys <= r.fs.Keys
    ensures StaysInside(archive) ==> AgreesOutside(fs, r.fs, dest)
  {
    match CheckJRubyVersion(version)
    case Err(e) => Raised(e, fs)
    case Ok(_) =>
      match PrepareDestination(fs, dest)
      case Err(e) => Raised(e, fs)
      case Ok(fs') => ApplyEntries(fs', dest, archive)
  }

  /** A path no entry targets keeps what it held. */
  lemma {:induction false} UntouchedPathKept(fs: FileSystem, dest: Path, entries: seq<Entry>, p: Path)
    requires ValidPath(dest)
    requires p in fs
    requires forall i :: 0 <= i < |entries| ==> Target(dest, entries[i]) != p
    ensures p in ApplyEntries(fs, dest, entries).fs
    ensures ApplyEntries(fs, dest, entries).fs[p] == fs[p]
    decreases |entries|
  {
    if entries != [] {
      match ApplyEntry(fs, dest, entries[0])
      case Err(_) =>
      case Ok(fs') =>
        assert forall i :: 0 <= i < |entries[1..]| ==> entries[1..][i] == entries[i + 1];
        UntouchedPathKept(fs', dest, entries[1..], p);
    }
  }

  lemma TakeOneMore<T>(s: seq<T>, k: nat)
    requires 0 < k <= |s|
    ensures s[..k] == s[..k - 1] + [s[k - 1]]
  {
  }

  /** An archive of one entry that succeeds finishes on that entry's disk. */
  lemma ApplyOne(f: FileSystem, dest: Path, e: Entry, f': FileSystem)
    requires ValidPath(dest)
    requires ApplyEntry(f, dest, e) == Ok(f')
    ensures ApplyEntries(f, dest, [e]) == Finished(f')
  {
    assert [e][1..] == [];
  }

  /** Replaying one more entry after a prefix that finished. */
  lemma ExtendFinished(fs: FileSystem, dest: Path, entries: seq<Entry>, k: nat, f: FileSystem, f': FileSystem)
    requires ValidPath(dest)
    requires k < |entries|
    requires ApplyEntries(fs, dest, entries[..k]) == Finished(f)
    requires ApplyEntry(f, dest, entries[k]) == Ok(f')
    ensures ApplyEntries(fs, dest, entries[..k + 1]) == Finished(f')
  {
    var e := entries[k];
    ApplyOne(f, dest, e, f');
    TakeOneMore(entries, k + 1);
    ApplyEntriesAppend(fs, dest, entries[..k], [e]);
  }

  /** The first entry that fails ends the replay: its error is raised, on
      the disk the entries before it left. */
  lemma RaisedAt(fs: FileSystem, dest: Path, entries: seq<Entry>, k: nat, f: FileSystem, e: Error)
    requires ValidPath(dest)
    requires k < |entries|
    requires ApplyEntries(fs, dest, entries[..k]) == Finished(f)
    requires ApplyEntry(f, dest, entries[k]) == Err(e)
    ensures ApplyEntries(fs, dest, entries) == Raised(e, f)
  {
    assert entries == entries[..k] + entries[k..];
    assert entries[k..][0] == entries[k];
    ApplyEntriesAppend(fs, dest, entries[..k], entries[k..]);
  }

  /** A replay that finished finished on every prefix, and went on from the
      disk the prefix left. */
  lemma FinishedPrefix(fs: FileSystem, dest: Path, entries: seq<Entry>, k: nat)
    requires ValidPath(dest)
    requires k <= |entries|
    requires ApplyEntries(fs, dest, entries).Finished?
    ensures ApplyEntries(fs, dest, entries[..k]).Finished?
    ensures ApplyEntries(fs, dest, entries) ==
              ApplyEntries(ApplyEntries(fs, dest, entries[..k]).fs, dest, entries[k..])
  {
    assert entries == entries[..k] + entries[k..];
    ApplyEntriesAppend(fs, dest, entries[..k], entries[k..]);
  }

  /** When duplicates for a path are extracted without error, the path ends
      up holding the bytes of the last file entry for it: each write
      replaces the file the earlier one left. */
  lemma LastWriteWins(fs: FileSystem, dest: Path, entries: seq<Entry>, k: nat)
    requires ValidPath(dest)
    requires k < |entries| && !IsDirectoryEntry(entries[k])
    requires forall i :: k < i < |entries| ==> Target(dest, entries[i]) != Target(dest, entries[k])
    requires ApplyEntries(fs, dest, entries).Finished?
    ensures Target(dest, entries[k]) in ApplyEntries(fs, dest, entries).fs
    ensures ApplyEntries(fs, dest, entries).fs[Target(dest, entries[k])] == File(entries[k].data)
  {
    var p := Target(dest, entries[k]);
    FinishedPrefix(fs, dest, entries, k);
    FinishedPrefix(fs, dest, entries, k + 1);
    var f0 := ApplyEntries(fs, dest, entries[..k]).fs;
    var f1 := ApplyEntries(fs, dest, entries[..k + 1]).fs;
    assert ApplyEntry(f0, dest, entries[k]).Ok? by {
      TakeOneMore(entries, k + 1);
      ApplyEntriesAppend(fs, dest, entries[..k], [entries[k]]);
    }
    ExtendFinished(fs, dest, entries, k, f0, f0[p := File(entries[k].data)]);
    assert f1[p] == File(entries[k].data);
    var after := entries[k + 1..];
    assert forall i :: 0 <= i < |after| ==> after[i] == entries[k + 1 + i];
    UntouchedPathKept(f1, dest, after, p);
  }

  /** A directory entry after a file entry for the same path raises EEXIST,
      and the file stays. */
  lemma DirectoryOverFileFails(fs: FileSystem, dest: Path, e1: Entry, e2: Entry)
    requires ValidPath(dest)
    requires !IsDirectoryEntry(e1) && IsDirectoryEntry(e2)
    requires Target(dest, e1) == Target(dest, e2)
    requires ApplyEntry(fs, dest, e1).Ok?
    ensures ApplyEntries(fs, dest, [e1, e2]) ==
              Raised(AlreadyExists(Target(dest, e2)), fs[Target(dest, e1) := File(e1.data)])
  {
    var fs1 := fs[Target(dest, e1) := File(e1.data)];
    assert ApplyEntry(fs, dest, e1) == Ok(fs1);
    assert [e1, e2][1..] == [e2] && [e2][1..] == [];
  }

  /** A file entry after a directory entry for the same path raises EISDIR,
      and the directory stays. */
  lemma FileOverDirectoryFails(fs: FileSystem, dest: Path, e1: Entry, e2: Entry)
    requires ValidPath(dest)
    requires IsDirectoryEntry(e1) && !IsDirectoryEntry(e2)
    requires Target(dest, e1) == Target(dest, e2)
    requires ApplyEntry(fs, dest, e1).Ok?
    ensures ApplyEntries(fs, dest, [e1, e2]) ==
              Raised(IsADirectory(Target(dest, e2)), fs[Target(dest, e1) := Dir])
  {
    var fs1 := fs[Target(dest, e1) := Dir];
    assert ApplyEntry(fs, dest, e1) == Ok(fs1);
    assert [e1, e2][1..] == [e2] && [e2][1..] == [];
  }
}
