/** Paths as the model sees them: a sequence of names from the root, read
    from and written to the slash-separated strings Ruby passes around. */
module Paths {
  import opened RubyText

  type Name = string
  type Path = seq<Name>

  /** What stands between two slashes of a path string. */
  predicate IsPiece(n: string) {
    n != [] && '/' !in n
  }

  /** `.` and `..`, the two names every directory reserves. */
  predicate IsDot(n: string) {
    n == ['.'] || n == ['.', '.']
  }

  /** A name the file system can store: a piece other than `.` and `..`. */
  predicate ValidName(n: Name) {
    IsPiece(n) && !IsDot(n)
  }

  predicate ValidPath(p: Path) {
    forall i :: 0 <= i < |p| ==> ValidName(p[i])
  }

  predicate ValidPaths(ps: seq<Path>) {
    forall i :: 0 <= i < |ps| ==> ValidPath(ps[i])
  }

  lemma ValidPathsConcat(a: seq<Path>, b: seq<Path>)
    requires ValidPaths(a) && ValidPaths(b)
    ensures ValidPaths(a + b)
  {
    forall i | 0 <= i < |a + b|
      ensures ValidPath((a + b)[i])
    {
      if i >= |a| {
        assert (a + b)[i] == b[i - |a|];
      }
    }
  }

  function Parent(p: Path): Path
    requires p != []
  {
    p[..|p| - 1]
  }

  predicate IsPrefix(a: Path, b: Path) {
    |a| <= |b| && b[..|a|] == a
  }

  /** `b` lies strictly inside the directory `a`. */
  predicate IsStrictPrefix(a: Path, b: Path) {
    |a| < |b| && b[..|a|] == a
  }

  /** The relative path string the recursive glob yields for `p`. */
  function PathString(p: Path): string {
    JoinWith(p, '/')
  }

  /** The pieces of a path string, in order: the runs of characters
      between slashes, with repeated, leading and trailing slashes ignored. */
  function Components(s: string): (p: seq<string>)
    ensures forall i :: 0 <= i < |p| ==> IsPiece(p[i])
    decreases |s|
  {
    if s == [] then []
    else if s[0] == '/' then Components(s[1..])
    else
      var i := IndexOf(s, '/');
      [s[..i]] + Components(s[i..])
  }

  /** One step of the walk the operating system makes along a path: `.`
      stays, `..` goes up (the root is its own parent), any other name goes
      down into it. */
  function Step(cwd: Path, n: string): (p: Path)
    requires ValidPath(cwd) && IsPiece(n)
    ensures ValidPath(p)
  {
    if n == ['.'] then cwd
    else if n == ['.', '.'] then (if cwd == [] then [] else Parent(cwd))
    else cwd + [n]
  }

  function Walk(cwd: Path, pieces: seq<string>): (p: Path)
    requires ValidPath(cwd)
    requires forall i :: 0 <= i < |pieces| ==> IsPiece(pieces[i])
    ensures ValidPath(p)
    decreases |pieces|
  {
    if pieces == [] then cwd else Walk(Step(cwd, pieces[0]), pieces[1..])
  }

  /** The path the operating system opens for the string `s` in the working
      directory `cwd`: from the root when `s` starts with '/', otherwise
      from `cwd`. `..` is resolved by name, as it is when every directory
      it passes through exists. */
  function Resolve(cwd: Path, s: string): (p: Path)
    requires ValidPath(cwd)
    ensures ValidPath(p)
  {
    Walk(if s != [] && s[0] == '/' then [] else cwd, Components(s))
  }

  /** A path string that names something inside the working directory:
      it does not start at the root and never climbs with `..`. */
  predicate Relative(s: string) {
    && (s == [] || s[0] != '/')
    && forall i :: 0 <= i < |Components(s)| ==> Components(s)[i] != ['.', '.']
  }

  lemma PrefixOfConcat(a: Path, b: Path)
    ensures IsPrefix(a, a + b)
    ensures b != [] ==> IsStrictPrefix(a, a + b)
    ensures (a + b)[|a|..] == b
  {
    assert (a + b)[..|a|] == a;
  }

  lemma ParentOfConcat(a: Path, b: Path)
    requires b != []
    ensures Parent(a + b) == a + Parent(b)
  {
    assert (a + b)[..|a + b| - 1] == a + b[..|b| - 1];
  }

  /** Reading a single name, with or without a trailing slash. */
  lemma ComponentsOfName(n: Name, tail: string)
    requires IsPiece(n)
    requires tail == "" || tail == "/"
    ensures Components(n + tail) == [n]
  {
    var s := n + tail;
    IndexOfConcat(n, tail, '/');
    assert s[..|n|] == n && s[|n|..] == tail;
    if tail == "/" {
      assert tail[1..] == "";
      assert Components(tail) == [];
    }
    assert Components(s) == [n] + Components(tail);
  }

  /** A name followed by a slash is read as that name, then the rest. */
  lemma ComponentsAfterName(n: Name, rest: string)
    requires IsPiece(n)
    ensures Components(n + "/" + rest) == [n] + Components(rest)
  {
    var s := n + ("/" + rest);
    assert n + "/" + rest == s;
    IndexOfConcat(n, "/" + rest, '/');
    assert s[..|n|] == n && s[|n|..] == "/" + rest;
    assert ("/" + rest)[1..] == rest;
  }

  /** Reading back the string of a valid path, with or without the trailing
      slash of a directory entry, gives the path again. */
  lemma {:induction false} ComponentsOfPathString(p: Path, tail: string)
    requires ValidPath(p)
    requires tail == "" || tail == "/"
    ensures Components(PathString(p) + tail) == p
    decreases |p|
  {
    if |p| == 0 {
      assert PathString(p) + tail == tail;
      if tail == "/" {
        assert tail[1..] == "";
      }
    } else if |p| == 1 {
      assert PathString(p) == p[0];
      assert IsPiece(p[0]);
      ComponentsOfName(p[0], tail);
    } else {
      var rest := PathString(p[1..]) + tail;
      assert IsPiece(p[0]);
      assert PathString(p) + tail == p[0] + "/" + rest;
      ComponentsAfterName(p[0], rest);
      assert ValidPath(p[1..]);
      ComponentsOfPathString(p[1..], tail);
      assert p == [p[0]] + p[1..];
    }
  }

  /** The string of a non-empty valid path never ends in '/', so its file
      entry is never mistaken for a directory entry. */
  lemma {:induction false} PathStringLast(p: Path)
    requires p != [] && ValidPath(p)
    ensures PathString(p) != []
    ensures PathString(p)[|PathString(p)| - 1] == p[|p| - 1][|p[|p| - 1]| - 1]
    decreases |p|
  {
    if |p| > 1 {
      assert ValidPath(p[1..]);
      PathStringLast(p[1..]);
      assert p[1..][|p[1..]| - 1] == p[|p| - 1];
    }
  }

  /** Walking down a path of plain names appends them. */
  lemma {:induction false} WalkNames(cwd: Path, p: Path)
    requires ValidPath(cwd) && ValidPath(p)
    ensures Walk(cwd, p) == cwd + p
    decreases |p|
  {
    if p != [] {
      var n, rest := p[0], p[1..];
      assert ValidName(n) && ValidPath(rest);
      assert Step(cwd, n) == cwd + [n];
      assert Walk(cwd, p) == Walk(cwd + [n], rest);
      WalkNames(cwd + [n], rest);
      assert cwd + [n] + rest == cwd + p;
    }
  }

  /** A walk that never takes `..` never leaves the directory it starts in. */
  lemma {:induction false} WalkStaysInside(cwd: Path, pieces: seq<string>)
    requires ValidPath(cwd)
    requires forall i :: 0 <= i < |pieces| ==> IsPiece(pieces[i]) && pieces[i] != ['.', '.']
    ensures IsPrefix(cwd, Walk(cwd, pieces))
    decreases |pieces|
  {
    if pieces != [] {
      var next := Step(cwd, pieces[0]);
      assert IsPrefix(cwd, next) by {
        if pieces[0] != ['.'] {
          assert next[..|cwd|] == cwd;
        }
      }
      WalkStaysInside(next, pieces[1..]);
      assert Walk(next, pieces[1..])[..|cwd|] == next[..|cwd|];
    }
  }

  /** A relative path string without `..` resolves to a path inside the
      working directory. */
  lemma ResolveStaysInside(cwd: Path, s: string)
    requires ValidPath(cwd) && Relative(s)
    ensures IsPrefix(cwd, Resolve(cwd, s))
  {
    WalkStaysInside(cwd, Components(s));
  }

  /** The string of a valid path, with or without the trailing slash of a
      directory entry, is relative and resolves to that path below the
      working directory. */
  lemma ResolvePathString(cwd: Path, p: Path, tail: string)
    requires ValidPath(cwd) && ValidPath(p)
    requires tail == "" || tail == "/"
    requires p != [] || tail == ""
    ensures Relative(PathString(p) + tail)
    ensures Resolve(cwd, PathString(p) + tail) == cwd + p
  {
    var s := PathString(p) + tail;
    ComponentsOfPathString(p, tail);
    if p != [] {
      assert s[0] == p[0][0];
    } else {
      assert s == [];
    }
    WalkNames(cwd, p);
  }

  /** Walking one plain name goes down into it. */
  lemma WalkOneName(cwd: Path, n: Name)
    requires ValidPath(cwd) && ValidName(n)
    ensures Walk(cwd, [n]) == cwd + [n]
  {
    assert [n][1..] == [];
  }

  /** A name starting at the root ignores the working directory. */
  lemma AbsoluteNameEscapes(cwd: Path, n: Name)
    requires ValidPath(cwd) && ValidName(n)
    ensures Resolve(cwd, ['/'] + n) == [n]
  {
    var s := ['/'] + n;
    assert s[1..] == n;
    assert n + "" == n;
    ComponentsOfName(n, "");
    assert Components(s) == [n];
    WalkOneName([], n);
  }

  /** `..` climbs out of the working directory: `../n` lands next to it,
      never inside it. */
  lemma ParentNameEscapes(cwd: Path, n: Name)
    requires ValidPath(cwd) && cwd != [] && ValidName(n)
    ensures Resolve(cwd, ['.', '.', '/'] + n) == Parent(cwd) + [n]
    ensures !IsStrictPrefix(cwd, Resolve(cwd, ['.', '.', '/'] + n))
  {
    var s := ['.', '.', '/'] + n;
    var up: string := ['.', '.'];
    var rest: string := ['/'] + n;
    assert s == up + rest;
    IndexOfConcat(up, rest, '/');
    assert s[..2] == up && s[2..] == rest;
    assert rest[1..] == n;
    assert n + "" == n;
    ComponentsOfName(n, "");
    assert Components(rest) == [n];
    assert Components(s) == [up] + [n];
    assert ([up] + [n])[1..] == [n];
    assert Step(cwd, up) == Parent(cwd);
    WalkOneName(Parent(cwd), n);
    assert Resolve(cwd, s) == Walk(Parent(cwd), [n]);
  }

  /** `.` is the working directory itself, with or without a slash. */
  lemma DotNameIsHere(cwd: Path, tail: string)
    requires ValidPath(cwd)
    requires tail == "" || tail == "/"
    ensures Resolve(cwd, ['.'] + tail) == cwd
  {
    var s := ['.'] + tail;
    var dot: string := ['.'];
    IndexOfConcat(dot, tail, '/');
    assert s[..1] == dot && s[1..] == tail;
    if tail == "/" {
      assert tail[1..] == [];
    }
    assert Components(s) == [dot] + Components(tail);
    assert Components(tail) == [];
    assert [dot][1..] == [];
    assert Step(cwd, dot) == cwd;
    assert Resolve(cwd, s) == Walk(cwd, [dot]);
  }
}
