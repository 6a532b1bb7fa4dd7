/**
 * The keyword search and the directory listing of the file management
 * tools: `Tools.search_files` with its nested `check_file_content`, and
 * the output of `Tools.list_files`.
 *
 * The filesystem is a parameter `fs` (the tree under `/`); every result
 * path is a component sequence starting with the searched directory.
 */
module FileTools {
  import opened Results
  import opened Strings
  import opened FileSystem

  // ---------------------------------------------------------------------
  // search_files: what one enumerated entry contributes
  // ---------------------------------------------------------------------

  /**
   * `check_file_content`: whether the keyword occurs in the file's text.
   * The two exceptions it catches count as "no match"; any other
   * exception escapes, as `Failure` carrying its name.
   */
  function CheckFileContent(keyword: string, read: ReadOutcome): Result<bool, string> {
    match read
    case Text(content) => Success(Contains(content, keyword))
    case DecodeError => Success(false)
    case PermissionDenied => Success(false)
    case OtherError(exception) => Failure(exception)
  }

  /**
   * The test the loop applies to one entry: `is_file()`, then the base
   * name test, and only when that fails the content test (`or`
   * short-circuits).
   */
  function Keep(keyword: string, n: Node): Result<bool, string> {
    if !IsRegularFile(n) then Success(false)
    else if Contains(n.name, keyword) then Success(true)
    else CheckFileContent(keyword, n.read)
  }

  /**
   * The list the search loop builds over the enumeration `es`, one append
   * per kept entry, or the exception that ends the loop early.
   */
  function Filter(keyword: string, es: seq<Entry>): Result<seq<Path>, string>
    decreases |es|
  {
    if es == [] then Success([])
    else
      match Filter(keyword, es[..|es| - 1])
      case Failure(exception) => Failure(exception)
      case Success(found) =>
        var e := es[|es| - 1];
        match Keep(keyword, e.node)
        case Failure(exception) => Failure(exception)
        case Success(kept) => Success(if kept then found + [e.path] else found)
  }

  /** `search_files` on the directory `searchPath` of the filesystem `fs`. */
  function Search(fs: Node, searchPath: Path, keyword: string): Result<seq<Path>, string> {
    Filter(keyword, RGlob(fs, searchPath))
  }

  // ---------------------------------------------------------------------
  // Properties of the filter over an enumeration
  // ---------------------------------------------------------------------

  /**
   * The positions of the enumeration whose entry is kept, in increasing
   * order: exactly the kept ones, each once.
   */
  function KeptPositions(keyword: string, es: seq<Entry>): (idx: seq<nat>)
    ensures forall j :: 0 <= j < |idx| ==> idx[j] < |es|
    ensures forall j1, j2 :: 0 <= j1 < j2 < |idx| ==> idx[j1] < idx[j2]
    ensures forall i :: 0 <= i < |es| ==> (i in idx <==> Keep(keyword, es[i].node) == Success(true))
    decreases |es|
  {
    if es == [] then []
    else
      var n := |es| - 1;
      var before := KeptPositions(keyword, es[..n]);
      assert forall i :: 0 <= i < n ==> es[..n][i] == es[i];
      before + (if Keep(keyword, es[n].node) == Success(true) then [n] else [])
  }

  /** A failure in a prefix of the enumeration is the failure of the whole loop. */
  lemma {:induction false} FilterPrefixFailure(keyword: string, es: seq<Entry>, n: nat)
    requires n <= |es|
    requires Filter(keyword, es[..n]).Failure?
    ensures Filter(keyword, es) == Filter(keyword, es[..n])
    decreases |es|
  {
    if n < |es| {
      var m := |es| - 1;
      assert es[..m][..n] == es[..n];
      FilterPrefixFailure(keyword, es[..m], n);
    } else {
      assert es[..n] == es;
    }
  }

  /**
   * The result lists the paths of the kept entries in enumeration order:
   * a subsequence of the walk, one element per kept position.
   */
  lemma {:induction false} FilterOrder(keyword: string, es: seq<Entry>)
    requires Filter(keyword, es).Success?
    ensures |Filter(keyword, es).value| == |KeptPositions(keyword, es)|
    ensures forall j :: 0 <= j < |Filter(keyword, es).value| ==>
      Filter(keyword, es).value[j] == es[KeptPositions(keyword, es)[j]].path
    decreases |es|
  {
    if es != [] {
      var n := |es| - 1;
      FilterOrder(keyword, es[..n]);
      var before := Filter(keyword, es[..n]).value;
      var idx := KeptPositions(keyword, es[..n]);
      assert forall j :: 0 <= j < |before| ==> before[j] == es[idx[j]].path by {
        forall j | 0 <= j < |before| ensures before[j] == es[idx[j]].path {
          assert es[..n][idx[j]] == es[idx[j]];
        }
      }
    }
  }

  /** A path is in the result iff some enumerated entry with that path is kept. */
  lemma FilterMembership(keyword: string, es: seq<Entry>)
    requires Filter(keyword, es).Success?
    ensures forall p :: p in Filter(keyword, es).value <==>
      exists i :: 0 <= i < |es| && es[i].path == p && Keep(keyword, es[i].node) == Success(true)
  {
    var r := Filter(keyword, es).value;
    var idx := KeptPositions(keyword, es);
    FilterOrder(keyword, es);
    forall p ensures p in r <==> exists i :: 0 <= i < |es| && es[i].path == p && Keep(keyword, es[i].node) == Success(true) {
      if p in r {
        var j :| 0 <= j < |r| && r[j] == p;
        assert idx[j] in idx;
        assert es[idx[j]].path == p;
      }
      if exists i :: 0 <= i < |es| && es[i].path == p && Keep(keyword, es[i].node) == Success(true) {
        var i :| 0 <= i < |es| && es[i].path == p && Keep(keyword, es[i].node) == Success(true);
        var j :| 0 <= j < |idx| && idx[j] == i;
        assert r[j] == p;
      }
    }
  }

  /**
   * The loop runs to the end iff no entry raises; when it does not, the
   * exception is that of the first entry that raises.
   */
  lemma {:induction false} FilterFailure(keyword: string, es: seq<Entry>)
    ensures Filter(keyword, es).Success? <==> forall i :: 0 <= i < |es| ==> Keep(keyword, es[i].node).Success?
    ensures Filter(keyword, es).Failure? ==>
      exists i :: (0 <= i < |es| &&
        Keep(keyword, es[i].node) == Failure(Filter(keyword, es).error) &&
        forall j :: 0 <= j < i ==> Keep(keyword, es[j].node).Success?)
    decreases |es|
  {
    if es != [] {
      var n := |es| - 1;
      FilterFailure(keyword, es[..n]);
      assert forall i :: 0 <= i < n ==> es[..n][i] == es[i];
      if Filter(keyword, es[..n]).Failure? {
        var i :| 0 <= i < n && Keep(keyword, es[..n][i].node) == Failure(Filter(keyword, es[..n]).error) &&
          forall j :: 0 <= j < i ==> Keep(keyword, es[..n][j].node).Success?;
        assert Keep(keyword, es[i].node) == Failure(Filter(keyword, es).error);
      } else if Keep(keyword, es[n].node).Failure? {
        assert Keep(keyword, es[n].node) == Failure(Filter(keyword, es).error);
      }
    }
  }

  /** How many entries of an enumeration are regular files. */
  function RegularFileCount(es: seq<Entry>): nat
    decreases |es|
  {
    if es == [] then 0
    else RegularFileCount(es[..|es| - 1]) + (if IsRegularFile(es[|es| - 1].node) then 1 else 0)
  }

  /** Only regular files are kept, so the result is no longer than their number. */
  lemma {:induction false} FilterBound(keyword: string, es: seq<Entry>)
    requires Filter(keyword, es).Success?
    ensures |Filter(keyword, es).value| <= RegularFileCount(es)
    decreases |es|
  {
    if es != [] {
      FilterBound(keyword, es[..|es| - 1]);
    }
  }

  /** The result repeats no path when the enumeration repeats none. */
  lemma FilterNoDuplicates(keyword: string, es: seq<Entry>)
    requires DistinctPaths(es)
    requires Filter(keyword, es).Success?
    ensures forall j1, j2 :: 0 <= j1 < j2 < |Filter(keyword, es).value| ==>
      Filter(keyword, es).value[j1] != Filter(keyword, es).value[j2]
  {
    FilterOrder(keyword, es);
  }

  /**
   * Two enumerations that differ only in what reading a name-matching
   * file would give: for such a file the read outcome is never consulted.
   */
  predicate DifferOnlyInNameMatchedReads(keyword: string, es: seq<Entry>, es': seq<Entry>) {
    && |es| == |es'|
    && forall i :: 0 <= i < |es| ==>
         || es[i] == es'[i]
         || (&& es[i].path == es'[i].path
             && es[i].node.File? && es'[i].node.File?
             && es[i].node.name == es'[i].node.name
             && Contains(es[i].node.name, keyword))
  }

  /**
   * A file whose base name contains the keyword is never opened: its
   * content, readable or not, has no influence on the outcome.
   */
  lemma {:induction false} FilterIgnoresNameMatchedReads(keyword: string, es: seq<Entry>, es': seq<Entry>)
    requires DifferOnlyInNameMatchedReads(keyword, es, es')
    ensures Filter(keyword, es) == Filter(keyword, es')
    decreases |es|
  {
    if es != [] {
      var n := |es| - 1;
      assert DifferOnlyInNameMatchedReads(keyword, es[..n], es'[..n]) by {
        forall i | 0 <= i < n ensures es[..n][i] == es[i] && es'[..n][i] == es'[i] {
        }
      }
      FilterIgnoresNameMatchedReads(keyword, es[..n], es'[..n]);
    }
  }

  // ---------------------------------------------------------------------
  // Properties of the search over a filesystem
  // ---------------------------------------------------------------------

  /** `p` names something strictly inside the directory `dir`. */
  predicate StrictlyBelow(dir: Path, p: Path) {
    |p| > |dir| && p[..|dir|] == dir
  }

  /** `p` is below the searched directory and what is there is kept. */
  predicate MatchAt(fs: Node, searchPath: Path, keyword: string, p: Path) {
    && StrictlyBelow(searchPath, p)
    && Lookup(fs, p).Some?
    && Keep(keyword, Lookup(fs, p).value) == Success(true)
  }

  /** `p` is below the searched directory and testing what is there raises. */
  predicate RaisesAt(fs: Node, searchPath: Path, keyword: string, p: Path) {
    && StrictlyBelow(searchPath, p)
    && Lookup(fs, p).Some?
    && Keep(keyword, Lookup(fs, p).value).Failure?
  }

  /** Below the searched directory, lookup from the root is lookup among its children. */
  lemma LookupBelow(fs: Node, searchPath: Path, p: Path)
    requires StrictlyBelow(searchPath, p)
    ensures Lookup(fs, p) ==
      match Lookup(fs, searchPath)
      case Some(Dir(_, cs)) => Descend(cs, p[|searchPath|..])
      case _ => None
  {
    var rel := p[|searchPath|..];
    assert p == searchPath + rel;
    LookupAppend(fs, searchPath, rel);
  }

  /**
   * In a well-formed filesystem an entry is enumerated, with its path,
   * iff it lies strictly below the searched directory.
   */
  lemma RGlobExact(fs: Node, searchPath: Path)
    requires WellFormed(fs)
    ensures forall i :: 0 <= i < |RGlob(fs, searchPath)| ==>
      StrictlyBelow(searchPath, RGlob(fs, searchPath)[i].path) &&
      Lookup(fs, RGlob(fs, searchPath)[i].path) == Some(RGlob(fs, searchPath)[i].node)
    ensures forall p :: StrictlyBelow(searchPath, p) && Lookup(fs, p).Some? ==>
      Entry(p, Lookup(fs, p).value) in RGlob(fs, searchPath)
  {
    var es := RGlob(fs, searchPath);
    forall i | 0 <= i < |es|
      ensures StrictlyBelow(searchPath, es[i].path) && Lookup(fs, es[i].path) == Some(es[i].node)
    {
      match Lookup(fs, searchPath)
      case Some(Dir(nm, cs)) =>
        LookupWellFormed(fs, searchPath);
        WalkBelow(cs, searchPath, i);
        WalkSound(cs, searchPath, i);
        LookupBelow(fs, searchPath, es[i].path);
    }
    forall p | StrictlyBelow(searchPath, p) && Lookup(fs, p).Some?
      ensures Entry(p, Lookup(fs, p).value) in es
    {
      LookupBelow(fs, searchPath, p);
      match Lookup(fs, searchPath)
      case Some(Dir(nm, cs)) =>
        var rel := p[|searchPath|..];
        WalkComplete(cs, searchPath, rel);
        assert searchPath + rel == p;
    }
  }

  /**
   * The search result holds exactly the paths below the searched directory
   * at which a regular file is kept: one whose base name contains the
   * keyword, or whose text contains it.
   */
  lemma SearchMembership(fs: Node, searchPath: Path, keyword: string)
    requires WellFormed(fs)
    requires Search(fs, searchPath, keyword).Success?
    ensures forall p :: p in Search(fs, searchPath, keyword).value <==> MatchAt(fs, searchPath, keyword, p)
  {
    var es := RGlob(fs, searchPath);
    FilterMembership(keyword, es);
    RGlobExact(fs, searchPath);
    forall p ensures p in Search(fs, searchPath, keyword).value <==> MatchAt(fs, searchPath, keyword, p) {
      if MatchAt(fs, searchPath, keyword, p) {
        var e := Entry(p, Lookup(fs, p).value);
        var i :| 0 <= i < |es| && es[i] == e;
        assert es[i].path == p && Keep(keyword, es[i].node) == Success(true);
      }
    }
  }

  /**
   * The search raises iff some entry below the searched directory raises
   * when tested: a file whose name does not match and whose read fails in
   * a way other than a decoding or permission error.
   */
  lemma SearchFailure(fs: Node, searchPath: Path, keyword: string)
    requires WellFormed(fs)
    ensures Search(fs, searchPath, keyword).Failure? <==> exists p :: RaisesAt(fs, searchPath, keyword, p)
  {
    var es := RGlob(fs, searchPath);
    FilterFailure(keyword, es);
    RGlobExact(fs, searchPath);
    if Search(fs, searchPath, keyword).Failure? {
      var i :| 0 <= i < |es| && Keep(keyword, es[i].node).Failure?;
      assert RaisesAt(fs, searchPath, keyword, es[i].path);
    }
    if exists p :: RaisesAt(fs, searchPath, keyword, p) {
      var p :| RaisesAt(fs, searchPath, keyword, p);
      var i :| 0 <= i < |es| && es[i] == Entry(p, Lookup(fs, p).value);
      assert Keep(keyword, es[i].node).Failure?;
    }
  }

  /** Every result path is strictly below the searched directory. */
  lemma SearchStaysBelow(fs: Node, searchPath: Path, keyword: string)
    requires Search(fs, searchPath, keyword).Success?
    ensures forall p :: p in Search(fs, searchPath, keyword).value ==> StrictlyBelow(searchPath, p)
  {
    var es := RGlob(fs, searchPath);
    FilterMembership(keyword, es);
    forall p | p in Search(fs, searchPath, keyword).value ensures StrictlyBelow(searchPath, p) {
      var i :| 0 <= i < |es| && es[i].path == p && Keep(keyword, es[i].node) == Success(true);
      match Lookup(fs, searchPath)
      case Some(Dir(nm, cs)) => WalkBelow(cs, searchPath, i);
    }
  }

  /**
   * Each file is reported once, and the result is never longer than the
   * number of regular files enumerated.
   */
  lemma SearchNoDuplicates(fs: Node, searchPath: Path, keyword: string)
    requires WellFormed(fs)
    requires Search(fs, searchPath, keyword).Success?
    ensures forall j1, j2 :: 0 <= j1 < j2 < |Search(fs, searchPath, keyword).value| ==>
      Search(fs, searchPath, keyword).value[j1] != Search(fs, searchPath, keyword).value[j2]
    ensures |Search(fs, searchPath, keyword).value| <= RegularFileCount(RGlob(fs, searchPath))
  {
    var es := RGlob(fs, searchPath);
    assert DistinctPaths(es) by {
      match Lookup(fs, searchPath)
      case Some(Dir(nm, cs)) =>
        LookupWellFormed(fs, searchPath);
        WalkDistinct(cs, searchPath);
      case _ =>
    }
    FilterNoDuplicates(keyword, RGlob(fs, searchPath));
    FilterBound(keyword, RGlob(fs, searchPath));
  }

  /** A searched directory that does not exist, or is not a directory, gives an empty list. */
  lemma SearchMissingDirectory(fs: Node, searchPath: Path, keyword: string)
    requires Lookup(fs, searchPath).None? || !Lookup(fs, searchPath).value.Dir?
    ensures Search(fs, searchPath, keyword) == Success([])
  {
  }

  /**
   * A file below the searched directory whose base name contains the
   * keyword is in the result whatever its content, readable or not.
   */
  lemma SearchFindsNameMatch(fs: Node, searchPath: Path, keyword: string, p: Path)
    requires WellFormed(fs)
    requires Search(fs, searchPath, keyword).Success?
    requires StrictlyBelow(searchPath, p)
    requires Lookup(fs, p).Some? && Lookup(fs, p).value.File?
    requires Contains(Lookup(fs, p).value.name, keyword)
    ensures p in Search(fs, searchPath, keyword).value
  {
    SearchMembership(fs, searchPath, keyword);
  }

  /**
   * A file below the searched directory whose base name does not contain
   * the keyword is in the result iff it reads as text containing the
   * keyword; a decoding or permission error makes it a non-match.
   */
  lemma SearchContentMatch(fs: Node, searchPath: Path, keyword: string, p: Path)
    requires WellFormed(fs)
    requires Search(fs, searchPath, keyword).Success?
    requires StrictlyBelow(searchPath, p)
    requires Lookup(fs, p).Some? && Lookup(fs, p).value.File?
    requires !Contains(Lookup(fs, p).value.name, keyword)
    ensures p in Search(fs, searchPath, keyword).value <==>
      Lookup(fs, p).value.read.Text? && Contains(Lookup(fs, p).value.read.content, keyword)
  {
    SearchMembership(fs, searchPath, keyword);
  }

  /** Directories and other non-regular entries are never reported. */
  lemma SearchOnlyRegularFiles(fs: Node, searchPath: Path, keyword: string)
    requires WellFormed(fs)
    requires Search(fs, searchPath, keyword).Success?
    ensures forall p :: p in Search(fs, searchPath, keyword).value ==>
      Lookup(fs, p).Some? && IsRegularFile(Lookup(fs, p).value)
  {
    SearchMembership(fs, searchPath, keyword);
  }

  /**
   * The empty keyword is in every base name, so the search never opens a
   * file, cannot raise, and reports every regular file below the directory.
   */
  lemma SearchEmptyKeyword(fs: Node, searchPath: Path)
    requires WellFormed(fs)
    ensures Search(fs, searchPath, "").Success?
    ensures forall p :: p in Search(fs, searchPath, "").value <==>
      StrictlyBelow(searchPath, p) && Lookup(fs, p).Some? && IsRegularFile(Lookup(fs, p).value)
  {
    var es := RGlob(fs, searchPath);
    forall n: Node ensures Keep("", n) == Success(IsRegularFile(n)) {
      ContainsEmpty(n.name);
    }
    FilterFailure("", es);
    SearchMembership(fs, searchPath, "");
  }

  // ---------------------------------------------------------------------
  // list_files: the output format
  // ---------------------------------------------------------------------

  /** The fixed first line of every listing. */
  const Header: string := "Files in the specified directory:\n"

  /** The listing text for the child names `names`, in listing order. */
  function Listing(names: seq<string>): string {
    Header + Join(names, "\n")
  }

  /** Every child name occurs in the listing. */
  lemma ListingMentionsEveryName(names: seq<string>)
    ensures forall j :: 0 <= j < |names| ==> Contains(Listing(names), names[j])
  {
    forall j | 0 <= j < |names| ensures Contains(Listing(names), names[j]) {
      JoinContainsParts(names, "\n", j);
      ContainsConcat(Header, Join(names, "\n"), names[j]);
    }
  }

  /**
   * The listing is the header and then the names: an empty directory gives
   * the header alone, and when no name holds a line break, splitting the
   * part after the header at line breaks gives back the names in order.
   */
  lemma ListingDecodes(names: seq<string>)
    ensures |Listing(names)| >= |Header| && Listing(names)[..|Header|] == Header
    ensures names == [] ==> Listing(names) == Header
    ensures |names| > 0 && (forall j :: 0 <= j < |names| ==> '\n' !in names[j]) ==>
      Split(Listing(names)[|Header|..], '\n') == names
  {
    assert Listing(names)[|Header|..] == Join(names, "\n");
    if |names| > 0 && (forall j :: 0 <= j < |names| ==> '\n' !in names[j]) {
      SplitJoin(names, '\n');
    }
  }

  // ---------------------------------------------------------------------
  // The tool object
  // ---------------------------------------------------------------------

  /** The default `base_path`, `/path/to/folder/`. */
  const DefaultBasePath: Path := ["path", "to", "folder"]

  /** The tool set; every operation resolves its argument against `basePath`. */
  class Tools {
    var basePath: Path

    constructor ()
      ensures basePath == DefaultBasePath
    {
      basePath := DefaultBasePath;
    }

    /**
     * `search_files(keyword, directory)`: walk everything under
     * `basePath + directory`, appending each regular file whose base name
     * or text contains the keyword.
     */
    method SearchFiles(fs: Node, keyword: string, directory: Path) returns (result: Result<seq<Path>, string>)
      ensures result == Search(fs, basePath + directory, keyword)
      ensures WellFormed(fs) && result.Success? ==>
        forall p :: p in result.value <==> MatchAt(fs, basePath + directory, keyword, p)
    {
      var searchPath := basePath + directory;
      var entries := RGlob(fs, searchPath);
      var matchingFiles: seq<Path> := [];
      for i := 0 to |entries|
        invariant Filter(keyword, entries[..i]) == Success(matchingFiles)
      {
        var entry := entries[i];
        assert entries[..i + 1][..i] == entries[..i];
        if IsRegularFile(entry.node) {
          var matched := Contains(entry.node.name, keyword);
          if !matched {
            var content := CheckFileContent(keyword, entry.node.read);
            if content.Failure? {
              FilterPrefixFailure(keyword, entries, i + 1);
              return Failure(content.error);
            }
            matched := content.value;
          }
          if matched {
            matchingFiles := matchingFiles + [entry.path];
          }
        }
      }
      assert entries[..|entries|] == entries;
      result := Success(matchingFiles);
      if WellFormed(fs) {
        SearchMembership(fs, searchPath, keyword);
      }
    }

    /**
     * `list_files(directory)`: the header followed by the names of the
     * directory's children joined by line breaks. `iterdir()` raises
     * `NotADirectoryError` when the path is, or runs through, something
     * other than a directory, and `FileNotFoundError` when a name on it is
     * missing.
     */
    method ListFiles(fs: Node, directory: Path) returns (result: Result<string, PathError>)
      ensures Lookup(fs, basePath + directory).None? ==>
        result == Failure(if ThroughNonDirectory(fs, basePath + directory) then NotADirectory else FileNotFound)
      ensures Lookup(fs, basePath + directory).Some? && !Lookup(fs, basePath + directory).value.Dir? ==>
        result == Failure(NotADirectory)
      ensures Lookup(fs, basePath + directory).Some? && Lookup(fs, basePath + directory).value.Dir? ==>
        result == Success(Listing(Names(Lookup(fs, basePath + directory).value.children)))
    {
      var directoryPath := basePath + directory;
      var resolved := Resolve(fs, directoryPath);
      ResolveLookup(fs, directoryPath);
      ResolveNotADirectory(fs, directoryPath);
      match resolved
      case Failure(error) =>
        assert error == NotADirectory <==> ThroughNonDirectory(fs, directoryPath);
        result := Failure(error);
      case Success(node) =>
        if node.Dir? {
          var files := Names(node.children);
          result := Success(Listing(files));
        } else {
          result := Failure(NotADirectory);
        }
    }
  }
}
