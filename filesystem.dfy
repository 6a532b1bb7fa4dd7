/**
 * The filesystem as the file tools see it: a finite tree of named entries,
 * path lookup (what `pathlib.Path` joining and `exists`/`is_dir` answer),
 * and the recursive enumeration `Path.rglob("*")`.
 *
 * A path is the sequence of its components below the filesystem root, so
 * `/tmp/x/a.txt` is `["tmp", "x", "a.txt"]`.
 */
module FileSystem {
  import opened Results

  type Path = seq<string>

  /**
   * What opening a regular file in text mode and reading it to the end
   * gives: its text, a decoding failure (`UnicodeDecodeError`), a refused
   * open (`PermissionError`), or any other exception, named by its type.
   */
  datatype ReadOutcome =
    | Text(content: string)
    | DecodeError
    | PermissionDenied
    | OtherError(exception: string)

  /**
   * A directory entry. `Special` stands for everything that is neither a
   * regular file nor a directory (sockets, pipes, broken links), for which
   * `Path.is_file()` is false.
   */
  datatype Node =
    | File(name: string, read: ReadOutcome)
    | Dir(name: string, children: seq<Node>)
    | Special(name: string)

  /** One item of an enumeration: where it is and what is there. */
  datatype Entry = Entry(path: Path, node: Node)

  /** `Path.is_file()`: true only of regular files. */
  predicate IsRegularFile(n: Node) {
    n.File?
  }

  /** The names of a directory's children, in listing order. */
  function Names(cs: seq<Node>): (names: seq<string>)
    ensures |names| == |cs|
    ensures forall i :: 0 <= i < |cs| ==> names[i] == cs[i].name
  {
    if cs == [] then [] else [cs[0].name] + Names(cs[1..])
  }

  /** Two children of one directory never share a name. */
  predicate DistinctNames(cs: seq<Node>) {
    forall i, j :: 0 <= i < j < |cs| ==> cs[i].name != cs[j].name
  }

  /** A real filesystem tree: sibling names are distinct at every level. */
  predicate WellFormed(n: Node)
    decreases n
  {
    n.Dir? ==> WellFormedChildren(n.children)
  }

  predicate WellFormedChildren(cs: seq<Node>)
    decreases cs
  {
    DistinctNames(cs) && forall i :: 0 <= i < |cs| ==> WellFormed(cs[i])
  }

  /** The first child called `name`, if any. */
  function ChildNamed(cs: seq<Node>, name: string): (r: Option<Node>)
    ensures r.Some? ==> r.value in cs && r.value.name == name
    ensures r.None? <==> name !in Names(cs)
  {
    if cs == [] then None
    else if cs[0].name == name then Some(cs[0])
    else ChildNamed(cs[1..], name)
  }

  /** The entry reached from `n` by following the components of `p`. */
  function Lookup(n: Node, p: Path): Option<Node>
    decreases |p|, 1
  {
    if p == [] then Some(n)
    else if n.Dir? then Descend(n.children, p)
    else None
  }

  /** Lookup of a non-empty path starting among the children `cs`. */
  function Descend(cs: seq<Node>, p: Path): Option<Node>
    requires p != []
    decreases |p|, 0
  {
    match ChildNamed(cs, p[0])
    case Some(c) => Lookup(c, p[1..])
    case None => None
  }

  /**
   * `Path.rglob("*")` below the directory `dir` whose children are `cs`:
   * every descendant, each directory immediately followed by its own
   * descendants, siblings in listing order. The directory itself is not
   * enumerated.
   */
  function Walk(cs: seq<Node>, dir: Path): seq<Entry>
    decreases cs
  {
    if cs == [] then []
    else
      var c := cs[0];
      var here := dir + [c.name];
      [Entry(here, c)] + (if c.Dir? then Walk(c.children, here) else []) + Walk(cs[1..], dir)
  }

  /**
   * `Path(p).rglob("*")` in the filesystem `fs`: nothing when `p` does not
   * exist or is not a directory.
   */
  function RGlob(fs: Node, p: Path): seq<Entry> {
    match Lookup(fs, p)
    case Some(Dir(_, cs)) => Walk(cs, p)
    case _ => []
  }

  /** Why the operating system refuses a path: `ENOENT` or `ENOTDIR`. */
  datatype PathError = FileNotFound | NotADirectory

  /**
   * Path resolution as the operating system does it, one component at a
   * time: a missing name is `FileNotFound`, and a component that is not a
   * directory while names remain to be resolved is `NotADirectory`.
   */
  function Resolve(n: Node, p: Path): Result<Node, PathError>
    decreases |p|
  {
    if p == [] then Success(n)
    else if !n.Dir? then Failure(NotADirectory)
    else
      match ChildNamed(n.children, p[0])
      case None => Failure(FileNotFound)
      case Some(c) => Resolve(c, p[1..])
  }

  /** Some proper prefix of `p` leads to an entry that is not a directory. */
  predicate ThroughNonDirectory(n: Node, p: Path) {
    exists k :: 0 <= k < |p| && Lookup(n, p[..k]).Some? && !Lookup(n, p[..k]).value.Dir?
  }

  /** Resolution succeeds exactly where lookup finds an entry, and finds the same one. */
  lemma {:induction false} ResolveLookup(n: Node, p: Path)
    ensures Resolve(n, p).Success? <==> Lookup(n, p).Some?
    ensures Resolve(n, p).Success? ==> Lookup(n, p) == Some(Resolve(n, p).value)
    decreases |p|
  {
    if p != [] && n.Dir? {
      match ChildNamed(n.children, p[0])
      case None =>
      case Some(c) => ResolveLookup(c, p[1..]);
    }
  }

  /**
   * Resolution fails with `NotADirectory` iff the path runs through an
   * entry that is not a directory; every other failure is `FileNotFound`.
   */
  lemma {:induction false} ResolveNotADirectory(n: Node, p: Path)
    ensures Resolve(n, p) == Failure(NotADirectory) <==> ThroughNonDirectory(n, p)
    decreases |p|
  {
    if p == [] {
    } else if !n.Dir? {
      assert p[..0] == [];
      assert Lookup(n, p[..0]) == Some(n);
    } else {
      match ChildNamed(n.children, p[0])
      case None =>
        forall k | 0 <= k < |p| ensures !(Lookup(n, p[..k]).Some? && !Lookup(n, p[..k]).value.Dir?) {
          if k == 0 {
            assert p[..k] == [];
          } else {
            assert p[..k][0] == p[0];
          }
        }
      case Some(c) =>
        ResolveNotADirectory(c, p[1..]);
        if ThroughNonDirectory(c, p[1..]) {
          var k :| 0 <= k < |p[1..]| && Lookup(c, p[1..][..k]).Some? && !Lookup(c, p[1..][..k]).value.Dir?;
          assert p[..k + 1][0] == p[0];
          assert p[..k + 1][1..] == p[1..][..k];
          assert Lookup(n, p[..k + 1]) == Lookup(c, p[1..][..k]);
        }
        if ThroughNonDirectory(n, p) {
          var k :| 0 <= k < |p| && Lookup(n, p[..k]).Some? && !Lookup(n, p[..k]).value.Dir?;
          assert k != 0 by {
            assert p[..0] == [];
          }
          assert p[..k][0] == p[0];
          assert p[..k][1..] == p[1..][..k - 1];
          assert Lookup(c, p[1..][..k - 1]) == Lookup(n, p[..k]);
        }
    }
  }

  /** Looking up `p + q` is looking up `q` from where `p` leads. */
  lemma {:induction false} LookupAppend(n: Node, p: Path, q: Path)
    ensures Lookup(n, p + q) == match Lookup(n, p) case Some(m) => Lookup(m, q) case None => None
    decreases |p|
  {
    if p == [] {
      assert p + q == q;
    } else if n.Dir? {
      assert (p + q)[0] == p[0];
      assert (p + q)[1..] == p[1..] + q;
      match ChildNamed(n.children, p[0])
      case Some(c) => LookupAppend(c, p[1..], q);
      case None =>
    }
  }

  /** Every entry reachable from a well-formed tree is itself well formed. */
  lemma {:induction false} LookupWellFormed(n: Node, p: Path)
    requires WellFormed(n)
    ensures Lookup(n, p).Some? ==> WellFormed(Lookup(n, p).value)
    decreases |p|
  {
    if p != [] && n.Dir? {
      match ChildNamed(n.children, p[0])
      case Some(c) => LookupWellFormed(c, p[1..]);
      case None =>
    }
  }

  /** An enumerated entry lies strictly below `dir`, under one of its children. */
  predicate Below(e: Entry, dir: Path, cs: seq<Node>) {
    && |e.path| > |dir|
    && e.path[..|dir|] == dir
    && e.path[|dir|] in Names(cs)
    && e.path[|e.path| - 1] == e.node.name
  }

  /** Only entries under the searched directory are enumerated. */
  lemma {:induction false} WalkBelow(cs: seq<Node>, dir: Path, i: nat)
    requires i < |Walk(cs, dir)|
    ensures Below(Walk(cs, dir)[i], dir, cs)
    decreases cs, 1
  {
    var c := cs[0];
    var here := dir + [c.name];
    var sub := if c.Dir? then Walk(c.children, here) else [];
    var rest := Walk(cs[1..], dir);
    assert Walk(cs, dir) == [Entry(here, c)] + sub + rest;
    assert Names(cs)[0] == c.name;
    if i == 0 {
    } else if i < 1 + |sub| {
      assert Walk(cs, dir)[i] == sub[i - 1];
      WalkBelowInFirst(cs, dir, i - 1);
    } else {
      assert Walk(cs, dir)[i] == rest[i - 1 - |sub|];
      WalkBelow(cs[1..], dir, i - 1 - |sub|);
      assert Names(cs)[1..] == Names(cs[1..]);
    }
  }

  /** WalkBelow for an entry below the first child. */
  lemma {:induction false} WalkBelowInFirst(cs: seq<Node>, dir: Path, j: nat)
    requires cs != [] && cs[0].Dir?
    requires j < |Walk(cs[0].children, dir + [cs[0].name])|
    ensures Below(Walk(cs[0].children, dir + [cs[0].name])[j], dir, cs)
    decreases cs, 0
  {
    var c := cs[0];
    var here := dir + [c.name];
    var e := Walk(c.children, here)[j];
    WalkBelow(c.children, here, j);
    assert e.path[..|dir|] == e.path[..|here|][..|dir|];
    assert e.path[|dir|] == e.path[..|here|][|dir|];
    assert Names(cs)[0] == c.name;
  }

  /**
   * Every descendant is enumerated: whatever a non-empty path below the
   * directory leads to appears, with that path, in the walk.
   */
  lemma {:induction false} WalkComplete(cs: seq<Node>, dir: Path, rel: Path)
    requires rel != []
    requires Descend(cs, rel).Some?
    ensures Entry(dir + rel, Descend(cs, rel).value) in Walk(cs, dir)
    decreases cs
  {
    var m := Descend(cs, rel).value;
    var c := cs[0];
    var here := dir + [c.name];
    var sub := if c.Dir? then Walk(c.children, here) else [];
    assert Walk(cs, dir) == [Entry(here, c)] + sub + Walk(cs[1..], dir);
    if c.name == rel[0] {
      assert dir + rel == here + rel[1..];
      if rel[1..] == [] {
        assert dir + rel == here;
      } else {
        WalkComplete(c.children, here, rel[1..]);
      }
    } else {
      WalkComplete(cs[1..], dir, rel);
    }
  }

  /**
   * In a well-formed tree every enumerated entry is what its path leads to,
   * so the walk invents nothing.
   */
  lemma {:induction false} WalkSound(cs: seq<Node>, dir: Path, i: nat)
    requires WellFormedChildren(cs)
    requires i < |Walk(cs, dir)|
    ensures |Walk(cs, dir)[i].path| > |dir|
    ensures Descend(cs, Walk(cs, dir)[i].path[|dir|..]) == Some(Walk(cs, dir)[i].node)
    decreases cs, 1
  {
    var c := cs[0];
    var here := dir + [c.name];
    var sub := if c.Dir? then Walk(c.children, here) else [];
    var rest := Walk(cs[1..], dir);
    assert Walk(cs, dir) == [Entry(here, c)] + sub + rest;
    WalkBelow(cs, dir, i);
    if i == 0 {
      assert Walk(cs, dir)[i].path[|dir|..] == [c.name];
      assert ChildNamed(cs, c.name) == Some(c);
    } else if i < 1 + |sub| {
      assert Walk(cs, dir)[i] == sub[i - 1];
      WalkSoundInFirst(cs, dir, i - 1);
    } else {
      assert Walk(cs, dir)[i] == rest[i - 1 - |sub|];
      WalkSoundInRest(cs, dir, i - 1 - |sub|);
    }
  }

  /** WalkSound for an entry below the first child. */
  lemma {:induction false} WalkSoundInFirst(cs: seq<Node>, dir: Path, j: nat)
    requires WellFormedChildren(cs)
    requires cs != [] && cs[0].Dir?
    requires j < |Walk(cs[0].children, dir + [cs[0].name])|
    ensures
      var e := Walk(cs[0].children, dir + [cs[0].name])[j];
      |e.path| > |dir| && Descend(cs, e.path[|dir|..]) == Some(e.node)
    decreases cs, 0
  {
    var c := cs[0];
    var here := dir + [c.name];
    var e := Walk(c.children, here)[j];
    assert WellFormed(cs[0]);
    WalkSound(c.children, here, j);
    WalkBelow(c.children, here, j);
    var rel := e.path[|dir|..];
    assert e.path[..|here|] == here;
    assert rel[0] == here[|dir|] == c.name;
    assert rel[1..] == e.path[|here|..];
    assert ChildNamed(cs, rel[0]) == Some(c);
  }

  /** WalkSound for an entry below one of the later children. */
  lemma {:induction false} WalkSoundInRest(cs: seq<Node>, dir: Path, j: nat)
    requires WellFormedChildren(cs)
    requires cs != []
    requires j < |Walk(cs[1..], dir)|
    ensures
      var e := Walk(cs[1..], dir)[j];
      |e.path| > |dir| && Descend(cs, e.path[|dir|..]) == Some(e.node)
    decreases cs, 0
  {
    var e := Walk(cs[1..], dir)[j];
    assert WellFormedChildren(cs[1..]) by {
      forall m | 0 <= m < |cs[1..]| ensures WellFormed(cs[1..][m]) {
        assert cs[1..][m] == cs[m + 1];
      }
    }
    WalkSound(cs[1..], dir, j);
    WalkBelow(cs[1..], dir, j);
    var rel := e.path[|dir|..];
    var k :| 0 <= k < |cs[1..]| && Names(cs[1..])[k] == rel[0];
    assert cs[1 + k].name == rel[0];
    assert ChildNamed(cs, rel[0]) == ChildNamed(cs[1..], rel[0]);
  }

  /** No path is enumerated twice. */
  predicate DistinctPaths(es: seq<Entry>) {
    forall i, j :: 0 <= i < j < |es| ==> es[i].path != es[j].path
  }

  /** Two duplicate-free enumerations with no path in common concatenate to one. */
  lemma DistinctPathsConcat(a: seq<Entry>, b: seq<Entry>)
    requires DistinctPaths(a) && DistinctPaths(b)
    requires forall i, j :: 0 <= i < |a| && 0 <= j < |b| ==> a[i].path != b[j].path
    ensures DistinctPaths(a + b)
  {
    forall i, j | 0 <= i < j < |a + b| ensures (a + b)[i].path != (a + b)[j].path {
      if j < |a| {
        assert (a + b)[i] == a[i] && (a + b)[j] == a[j];
      } else if i < |a| {
        assert (a + b)[i] == a[i] && (a + b)[j] == b[j - |a|];
      } else {
        assert (a + b)[i] == b[i - |a|] && (a + b)[j] == b[j - |a|];
      }
    }
  }

  /** In a well-formed tree the walk enumerates each path once. */
  lemma {:induction false} WalkDistinct(cs: seq<Node>, dir: Path)
    requires WellFormedChildren(cs)
    ensures DistinctPaths(Walk(cs, dir))
    decreases cs
  {
    if cs != [] {
      var c := cs[0];
      var here := dir + [c.name];
      var head := [Entry(here, c)];
      var sub := if c.Dir? then Walk(c.children, here) else [];
      var rest := Walk(cs[1..], dir);
      assert Walk(cs, dir) == head + sub + rest;
      if c.Dir? {
        assert WellFormed(cs[0]);
        WalkDistinct(c.children, here);
        forall j | 0 <= j < |sub| ensures head[0].path != sub[j].path {
          WalkBelow(c.children, here, j);
        }
      }
      DistinctPathsConcat(head, sub);
      assert WellFormedChildren(cs[1..]) by {
        forall j | 0 <= j < |cs[1..]| ensures WellFormed(cs[1..][j]) {
          assert cs[1..][j] == cs[j + 1];
        }
      }
      WalkDistinct(cs[1..], dir);
      var block := head + sub;
      forall i, j | 0 <= i < |block| && 0 <= j < |rest| ensures block[i].path != rest[j].path {
        WalkBelow(cs[1..], dir, j);
        var k :| 0 <= k < |cs[1..]| && Names(cs[1..])[k] == rest[j].path[|dir|];
        assert cs[1 + k].name == rest[j].path[|dir|];
        if i == 0 {
          assert block[i].path[|dir|] == c.name;
        } else {
          assert block[i] == sub[i - 1];
          WalkBelow(c.children, here, i - 1);
          assert block[i].path[..|here|] == here;
          assert block[i].path[|dir|] == here[|dir|];
        }
      }
      DistinctPathsConcat(block, rest);
    }
  }
}
