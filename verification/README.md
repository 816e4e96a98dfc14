# presso, modelled in Dafny

presso is a small JRuby library with two operations:

- `Presso.zip_dir(zip, directory)` writes every file and directory under `directory` into a ZIP archive.
- `Presso.unzip(zip, directory)` extracts such an archive into `directory`.

Before doing anything, both operations call `check_jruby_version!`. It refuses to run on JRuby 1.7.3 or older, because of JRUBY-7157.

This project models the logic of those three pieces over abstract data:

- **Version gate** (`version_gate.dfy`, with `ruby_text.dfy`). The gate follows Ruby's own string rules:
  - `String#split(".", 3)` with its limit;
  - `String#to_i`, which skips white space, takes one sign and an optional `0d` prefix, and allows `_` between digits;
  - `Array#<=>` and `Array#max`, as used in `[[1, 7, 3], parsed].max == [1, 7, 3]`.
- **Packing** (`pack.dfy`). The recursive glob is an input sequence of relative paths. What `File.file?` and `File.directory?` report is a source tree. `zip_dir` then emits one entry per file or directory, in glob order.
- **Unpacking** (`unpack.dfy`).
  - The disk is a map from absolute paths (sequences of names) to `File(bytes)` or `Dir`.
  - `unzip` makes sure the destination is a directory, then replays the entries in order: a directory entry is `Dir.mkdir`, and any other entry writes a file.
  - The first failing step raises. Whatever the earlier steps did stays on disk, so the result carries the disk in both outcomes.
- **Round trip** (`round_trip.dfy`). This is what the integration tests check. Zip a tree that holds only files and directories, with the listing naming every node once and each directory before its contents. Unzip the archive into a fresh destination. The result is a copy of the tree under the destination: same paths, same kinds of node, same bytes and hence same sizes. Nothing outside the destination changes.

Supporting modules:

- `paths.dfy`: paths as sequences of names, and resolving a slash-separated name against a working directory, name by name.
- `archive.dfy`: entries, and directory entries as names ending in `/`.
- `failures.dfy`: the exceptions, as values.

The model follows the code:

- `unzip` reuses an existing destination directory (`Dir.mkdir(directory) unless File.directory?(directory)`).
- `zip_dir` skips paths that are neither file nor directory.
- A directory entry is a plain `Dir.mkdir`. It fails when anything already exists at the path, a directory included, and it does not create missing parents.
- A file entry does not create missing parents either.
- A file entry overwrites an existing file. It fails on a directory or a missing parent.
- A failed `unzip` leaves the effects of its earlier steps on disk.
- An entry name is used as it stands, relative to the destination. A name starting with `/` lands from the root, and `..` climbs out of the destination. `.` on its own is the destination itself.

## Model

| member | source | states |
|---|---|---|
| RubyText.Fields | lib/presso.rb:52 | `split(".", 3)` on a non-empty string gives between one and three fields. Joined with `.` they give back the string. No field but the last holds a `.`, and the last holds one only when the limit was reached. |
| RubyText.Split | lib/presso.rb:52 | The empty version string splits into no fields. Any other string splits into at most three fields that join back into it. |
| RubyText.ScanDigits | lib/presso.rb:52 | The digits `to_i` reads are all decimal digits and no longer than the input. They are empty exactly when the input does not start with a digit, and otherwise start with that digit. |
| RubyText.ScanDigitsJoinsUnderscore | lib/presso.rb:52 | A single `_` between two digit runs is skipped, so `1_000` reads as `1000`. |
| RubyText.ScanDigitsStopsAtUnderscore | lib/presso.rb:52 | An `_` that no digit follows ends the number, so `1__2` and `1_` both read as `1`. |
| RubyText.ToI | lib/presso.rb:52 | `to_i` never fails. It gives 0 for the empty string and for a string starting with anything but white space, a sign or a digit. |
| RubyText.ToIOfNumeral | lib/presso.rb:52 | A run of digits followed by something that cannot continue the number reads as the decimal value of those digits, e.g. `"3.1".to_i == 3`. |
| RubyText.ToIOfDecimalPrefix | lib/presso.rb:52 | The `0d` / `0D` prefix of base 10 is skipped: `"0d12".to_i == 12`. |
| RubyText.ToISkipsSpace | lib/presso.rb:52 | Leading white space does not change the value `to_i` reads. |
| RubyText.ToINegative | lib/presso.rb:52 | A leading minus negates the value of the digits after it. |
| VersionGate.ParseVersion | lib/presso.rb:52 | The parsed version has at most three components. It is empty exactly when the version string is empty. |
| VersionGate.Compare | lib/presso.rb:53 | `Array#<=>` answers -1, 0 or 1, and answers 0 exactly when the arrays are equal. |
| VersionGate.CompareIsLexicographic | lib/presso.rb:53 | `<=>` is negative exactly when the first array is lexicographically smaller: a proper prefix, or smaller at the first difference. It is positive exactly when the first array is larger. |
| VersionGate.Max2 | lib/presso.rb:53 | `[a, b].max` is one of the two, and it is `a` exactly when `a` is not lexicographically smaller than `b`. |
| VersionGate.CheckJRubyVersion | lib/presso.rb:51-55 | The gate passes exactly when the parsed version is lexicographically greater than 1.7.3. Otherwise it raises the incompatibility error with its fixed message. |
| VersionGate.DottedVersion | lib/presso.rb:52 | `major.minor.patch` followed by anything that cannot continue the patch number parses to the three decimal values. |
| VersionGate.MajorMinorVersion | lib/presso.rb:52 | A two-part version parses to its two decimal values. |
| VersionGate.ParsesAs173 | lib/presso.rb:52 | Every 1.7.3 build parses as [1, 7, 3], four-part ones such as 1.7.3.1 included, because the third field keeps the rest and `to_i` stops at it. |
| VersionGate.ParsesAs17 | lib/presso.rb:52 | "1.7" parses as [1, 7]. |
| VersionGate.ParsesAs174 | lib/presso.rb:52 | "1.7.4" parses as [1, 7, 4]. |
| VersionGate.ParsesAs1710 | lib/presso.rb:52 | "1.7.10" parses as [1, 7, 10]: the third component is the number ten. |
| VersionGate.ParsesAs940 | lib/presso.rb:52 | "9.4.0.0" parses as [9, 4, 0]: the fourth part stays inside the third field and `to_i` drops it. |
| VersionGate.RefusesOldVersions | lib/presso.rb:52-54 | "1.7.3", "1.7.3.1" and "1.7" are refused. |
| VersionGate.AcceptsNewerVersions | lib/presso.rb:52-54 | "1.7.4", "1.7.10" and "9.4.0.0" are accepted. Components compare as numbers, so 10 > 4. |
| Paths.Components | lib/presso.rb:38-40 | An entry name splits into the non-empty, slash-free pieces between its slashes. |
| Paths.ResolveStaysInside | lib/presso.rb:35-40 | A name that does not start with `/` and has no `..` piece opens a path inside the working directory. |
| Paths.ResolvePathString | lib/presso.rb:19-22 | The path string of a valid path, with or without a directory's trailing `/`, is such a name, and it opens exactly that path below the working directory. |
| Paths.AbsoluteNameEscapes | lib/presso.rb:38-40 | A name starting with `/` opens a path from the root, whatever the working directory. |
| Paths.ParentNameEscapes | lib/presso.rb:38-40 | A name `../n` opens `n` next to the working directory, not inside it. |
| Paths.DotNameIsHere | lib/presso.rb:38 | `.` and `./` open the working directory itself. |
| Paths.ComponentsOfPathString | lib/presso.rb:19-22 | A path written with `/` between names, with or without the trailing `/` of a directory entry, reads back as the same path. |
| Pack.EntriesFor | lib/presso.rb:18-23 | A listed path gives one entry if it is a file or a directory and none otherwise. The entry's name is the path string, with a trailing `/` for a directory, and it reads back as the path. The entry is a directory entry exactly for a directory, and a file's bytes are carried unchanged. |
| Pack.EmitEntries | lib/presso.rb:17-24 | There are never more entries than listed paths. When every listed path is a file or a directory, entry i is the entry of path i. |
| Pack.EmittedEntriesDescribe | lib/presso.rb:17-24 | Every emitted entry is the entry of some listed path. |
| Pack.EmitEntriesAppend | lib/presso.rb:17-24 | Listing one sequence after another emits their entries one after the other, so archive order is glob order. |
| Pack.SkipsSpecial | lib/presso.rb:18-23 | A path that is neither file nor directory leaves no trace: the archive is the one its removal from the listing gives. |
| Pack.ZipDir | lib/presso.rb:12-28 | The gate runs first. On refusal there is no archive and the error is the gate's. Otherwise the archive is the emitted entries. |
| Unpack.MakeDirectory | lib/presso.rb:38 | `Dir.mkdir` succeeds exactly when nothing is at the path and its parent is a directory. It then adds a directory there and changes nothing else. It raises EEXIST when something is there and ENOENT/ENOTDIR otherwise, and it keeps the disk well formed. |
| Unpack.WriteFile | lib/presso.rb:40 | Writing succeeds exactly when the path is free or a file and its parent is a directory. It then sets the file's bytes and changes nothing else. It raises EISDIR on a directory and ENOENT/ENOTDIR on a missing parent, and it keeps the disk well formed. |
| Unpack.AddKeepsWellFormed | lib/presso.rb:38-40 | Adding a node inside an existing directory keeps every path's parent a directory. |
| Unpack.ApplyEntry | lib/presso.rb:37-41 | An entry succeeds exactly when the directory of its target exists and the target is free (directory entry) or not a directory (file entry). Success sets the target to a directory or to the entry's bytes and changes nothing else. Failure raises EEXIST, EISDIR or ENOENT/ENOTDIR as the case may be. |
| Unpack.DotDirectoryEntryRaises | lib/presso.rb:37-38 | A directory entry named `./` is a `mkdir` of the destination itself and raises EEXIST. |
| Unpack.ParentEntryWritesOutside | lib/presso.rb:39-40 | A file entry named `../n` writes `n` next to the destination, outside it. |
| Unpack.ApplyEntries | lib/presso.rb:36-43 | Replaying entries keeps the disk well formed, removes nothing and never raises the version error. When no name starts with `/` or climbs with `..`, nothing outside the destination changes. |
| Unpack.ApplyEntriesAppend | lib/presso.rb:36-43 | Replaying two archives in a row is replaying the second on the disk the first left, unless the first raised. |
| Unpack.ExtendFinished | lib/presso.rb:36-43 | A prefix that finished, followed by an entry that succeeds, finishes on that entry's disk. |
| Unpack.RaisedAt | lib/presso.rb:36-43 | The first entry that fails ends the replay: its error is raised on the disk the entries before it left. |
| Unpack.FinishedPrefix | lib/presso.rb:36-43 | A replay that finished finished on each prefix and went on from the disk that prefix left. |
| Unpack.UntouchedPathKept | lib/presso.rb:36-43 | A path no entry targets keeps what it held. |
| Unpack.LastWriteWins | lib/presso.rb:40 | After a replay that finished, a path holds the bytes of the last file entry for it. |
| Unpack.DirectoryOverFileFails | lib/presso.rb:37-38 | A directory entry after a file entry for the same path raises EEXIST and leaves the file. |
| Unpack.FileOverDirectoryFails | lib/presso.rb:39-40 | A file entry after a directory entry for the same path raises EISDIR and leaves the directory. |
| Unpack.PrepareDestination | lib/presso.rb:34 | An existing destination directory is reused unchanged. Otherwise the destination is made by `mkdir`, so an existing file there raises EEXIST. |
| Unpack.Unzip | lib/presso.rb:30-47 | A refused version raises before anything else and leaves the disk exactly as it was. Otherwise the disk stays well formed and loses nothing. When no entry name starts with `/` or climbs with `..`, nothing outside the destination changes: no path there is altered, removed or added. |
| RoundTrip.NodeOf | lib/presso.rb:18-22 | A source directory becomes a directory and a source file becomes a file with the same bytes. |
| RoundTrip.ListingIsValid | lib/presso.rb:17 | A listing of a tree that can be packed names only valid paths of files and directories. |
| RoundTrip.NextTargetIsFree | lib/presso.rb:36-41 | During the replay, the next entry's target is free and its directory already exists. |
| RoundTrip.EntryLands | lib/presso.rb:37-41 | The entry of a listed path adds exactly that path's node when its target is free and its directory exists. |
| RoundTrip.ReplayStep | lib/presso.rb:36-43 | The replay invariant survives adding the next path's node. |
| RoundTrip.ArchiveStaysInside | lib/presso.rb:17-23 | No name in an archive made from a listing starts with `/` or holds a `..` piece. |
| RoundTrip.ReplayOne | lib/presso.rb:36-43 | One more entry of the archive replays without error and keeps the invariant. |
| RoundTrip.Replay | lib/presso.rb:36-43 | Every prefix of the archive replays without error onto a fresh destination. It leaves the destination's earlier contents and adds exactly the nodes of those paths. |
| RoundTrip.DestinationReady | lib/presso.rb:34 | A fresh destination is an empty directory after set-up, with nothing else changed. |
| RoundTrip.ReplayAll | lib/presso.rb:36-43 | Replaying the whole archive of a listing leaves a copy of the tree under the destination. |
| RoundTrip.RoundTrip | spec/integration/presso_spec.rb:27-33 | Unzipping what `zip_dir` made of a tree into a fresh destination finishes and yields the same paths, kinds and bytes, and changes nothing outside the destination. |
| RoundTrip.RoundTripKeepsSizes | spec/integration/presso_spec.rb:35-40 | Every file comes back with as many bytes as it had. |

## Left out

- The ZIP container (framing, compression, checksums) and `java.util.zip` itself: an archive is the sequence of its entries, and `ZipEntry#isDirectory` is "the name ends in `/`".
- `ZipOutputStream` refuses a second entry with the same name. This cannot arise from a glob listing, and it is not modelled.
- Real I/O. `File.open`, `IO.copy_stream`, `close_entry` and `close` are replaced by the abstract disk and byte sequences. The archive file itself, including its truncation by `'wb'`, a missing or unreadable archive, and a missing source directory for `Dir.chdir`, is not part of this model.
- The glob `Dir['**/*']` (ordering, hidden names, symbolic links): the listing is a parameter, and the round trip states the ordering it needs as a precondition. `File.file?` and `File.directory?` are folded into the source tree.
- The process-wide `Dir.chdir`: entry names are read relative to an explicit destination path instead.
- `JRUBY_VERSION`: the running version is a string parameter.
- Paths.Resolve: `.` and `..` are resolved by name, without looking at the disk. The operating system walks through each directory on the way. So where the name before a `.` or `..` is missing or is a file, it raises ENOENT or ENOTDIR. `a/./` is one such name: the model makes `a`, and `Dir.mkdir` raises ENOENT when `a` is missing. `a/.` over a file `a` is another: the model overwrites `a`, and the write raises ENOTDIR. The empty name resolves to the working directory, so a file entry with an empty name raises EISDIR where the operating system raises ENOENT. Symbolic links are not modelled. Empty pieces are dropped, as the operating system drops repeated slashes.
- Paths.Components: gives the pieces of a name, `.` and `..` included. What they mean is left to `Paths.Resolve`.
- Unpack.ApplyEntries: says nothing about paths outside the destination when a name starts with `/` or climbs with `..`, beyond that nothing is removed. The code writes such entries outside the destination; `Unpack.ParentEntryWritesOutside` shows one.
- Unpack.Unzip: its promise to leave everything outside the destination unchanged holds only for archives whose names stay inside, for the same reason.
- Unpack.ApplyEntry: its target is the `Paths.Resolve` of the entry name. Names with `.` or `..` after a missing or non-directory name, and the empty name, succeed or fail as that line describes, not as the operating system does.
- ENOENT and ENOTDIR are one error, `NoParentDirectory`.
- RubyText.ToI: its contract pins down the value only for the empty and the non-numeric start. The other rules are stated by lemmas: digits by `ToIOfNumeral`, sign by `ToINegative`, white space by `ToISkipsSpace`, the `0d` prefix by `ToIOfDecimalPrefix`, and the `_` separator by `ScanDigitsJoinsUnderscore` and `ScanDigitsStopsAtUnderscore`.
