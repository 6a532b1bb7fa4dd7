# Keyword search of the file management tools, in Dafny

The `Tools` class of `file_tools.py` offers filesystem operations resolved
against a configured `base_path`. This project models its one algorithm,
`search_files(keyword, directory)`:

- it enumerates everything under `base_path/directory` with `rglob("*")`;
- it skips every entry that is not a regular file;
- it keeps a file whose base name contains the keyword, case-sensitively;
- otherwise it opens the file as text and keeps it if the keyword occurs in the content;
- a `UnicodeDecodeError` or `PermissionError` while reading counts as "no match";
- any other exception escapes and ends the search;
- kept paths are appended to the result in enumeration order.

It also models the output of `list_files(directory)`: a fixed header line,
then the names of the directory's children joined by line breaks.

Layout:

- `results.dfy` (`Results`): `Option` and `Result`. A Python exception is
  the `Failure` side of a `Result`.
- `strings.dfy` (`Strings`): Python's `k in s` (`Contains`), `sep.join`
  (`Join`) and `s.split(c)` (`Split`), with their laws.
- `filesystem.dfy` (`FileSystem`): the filesystem as a tree of `File`,
  `Dir` and `Special` nodes. It gives path `Lookup`, the recursive
  enumeration `Walk`/`RGlob` that stands for `rglob("*")`, the
  operating system's path resolution `Resolve` behind `iterdir()`, and the
  "sibling names are distinct" invariant `WellFormed` of real trees.
- `file_tools.dfy` (`FileTools`): `CheckFileContent`, the per-entry test
  `Keep`, the specification `Filter`/`Search` of the loop, the listing
  format, and the class `Tools`. Its method `SearchFiles` is the loop
  itself, proved equal to `Search`.

The filesystem is a parameter `fs`: the whole tree under `/`. A path is
the sequence of its components. `base_path` is the field `basePath`, and
`directory` is a component sequence appended to it.

Two behaviours of the search are worth stating outright:

- `check_file_content` catches only `UnicodeDecodeError` and
  `PermissionError`. Any other read failure (`ReadOutcome.OtherError`)
  escapes, so `SearchFiles` returns `Failure`.
- The empty keyword matches every regular file: `"" in name` is always
  true, so every regular file is reported and none is opened
  (`SearchEmptyKeyword`).

A missing search directory, or one that is not a directory, gives an empty
result: `rglob` yields nothing there. `list_files` on such a path raises
from `iterdir()`. The path is resolved one component at a time
(`Resolve`): a missing name gives `Failure(FileNotFound)`, and a path
that is, or runs through, something other than a directory gives
`Failure(NotADirectory)`.

## Model

| member | source | states |
|---|---|---|
| FileTools.Tools.constructor | file_tools.py:20-21 | a new tool set has the default base path `/path/to/folder/` |
| FileTools.Tools.SearchFiles | file_tools.py:264-292 | the loop computes exactly `Search(fs, basePath + directory, keyword)`, including the early exit on an uncaught read error; in a well-formed filesystem, a path is in the result iff it lies below the searched directory and holds a kept file |
| FileTools.KeptPositions | file_tools.py:284-287 | the positions of kept entries: strictly increasing, in range, and a position is listed iff its entry is kept |
| FileTools.FilterOrder | file_tools.py:284-287 | the result is the paths of the kept entries in enumeration order, one element per kept position, so it is a subsequence of the walk |
| FileTools.FilterMembership | file_tools.py:284-287 | a path is in the result iff some enumerated entry with that path is kept |
| FileTools.FilterFailure | file_tools.py:276-281 | the loop finishes iff no entry raises; if it raises, the exception is that of the first entry that raises, and every earlier entry was handled |
| FileTools.FilterPrefixFailure | file_tools.py:276-281 | an exception raised in a prefix of the enumeration is the outcome of the whole loop; no later entry is looked at |
| FileTools.FilterBound | file_tools.py:284-287 | the result is no longer than the number of regular files enumerated |
| FileTools.FilterNoDuplicates | file_tools.py:284-287 | a duplicate-free enumeration gives a duplicate-free result, even for files that match by both name and content |
| FileTools.FilterIgnoresNameMatchedReads | file_tools.py:286 | the read outcome of a file whose base name contains the keyword never affects the result, even a read that would raise: such a file is never opened |
| FileTools.LookupBelow | file_tools.py:271 | looking up a path below the search directory means looking it up among that directory's children |
| FileTools.RGlobExact | file_tools.py:271-284 | in a well-formed filesystem, `rglob` yields exactly the entries strictly below the searched directory, each with its own path |
| FileTools.SearchMembership | file_tools.py:271-287 | in a well-formed filesystem, a path is in the result iff it lies strictly below the searched directory and holds a regular file whose base name or text contains the keyword |
| FileTools.SearchFailure | file_tools.py:276-281 | the search raises iff some file below the directory fails the name test, and reading it fails with an error other than a decoding or permission error |
| FileTools.SearchStaysBelow | file_tools.py:271-284 | no file outside the searched directory ever appears in the result |
| FileTools.SearchNoDuplicates | file_tools.py:284-287 | no path is reported twice, and the result has at most one element per regular file visited |
| FileTools.SearchMissingDirectory | file_tools.py:271-284 | a missing search directory, or one that is not a directory, gives an empty result rather than an error |
| FileTools.SearchFindsNameMatch | file_tools.py:286 | a file below the directory whose base name contains the keyword is reported, whatever its content and even if it cannot be read |
| FileTools.SearchContentMatch | file_tools.py:275-286 | a file whose base name does not match is reported iff it reads as text containing the keyword; a decoding or permission error makes it a non-match |
| FileTools.SearchOnlyRegularFiles | file_tools.py:285-287 | every reported path holds a regular file, never a directory or another kind of entry |
| FileTools.SearchEmptyKeyword | file_tools.py:286 | with the empty keyword the search cannot raise, and it reports exactly the regular files below the directory |
| FileTools.Tools.ListFiles | file_tools.py:120-129 | a path that is, or runs through, something other than a directory raises `NotADirectory`; any other path with nothing at it raises `FileNotFound`; a directory gives the header followed by its children's names joined by line breaks |
| FileTools.CheckFileContent | file_tools.py:275-281 | (definition) the text read succeeds and contains the keyword gives `true`; a decoding or permission error gives `false`; any other read error is an escaping exception |
| FileTools.Keep | file_tools.py:285-286 | (definition) what the loop decides for one entry: not a regular file gives `false`; a base name containing the keyword gives `true` without reading; otherwise `CheckFileContent` decides |
| FileTools.Filter | file_tools.py:284-287 | (definition) the list the loop builds over an enumeration, one append per kept entry, or the first exception that escapes; its properties are the `Filter*` lemmas |
| FileTools.Search | file_tools.py:271-287 | (definition) `Filter` over `RGlob` of the searched directory; its properties are the `Search*` lemmas |
| FileTools.Listing | file_tools.py:129 | (definition) the fixed header `Files in the specified directory:` and a line break, followed by the names joined by line breaks |
| FileSystem.IsRegularFile | file_tools.py:285 | (definition) `is_file()`: true of regular files only |
| FileSystem.Names | file_tools.py:127 | the names of the children, one per child, in listing order |
| FileSystem.Walk | file_tools.py:284 | (definition) `rglob("*")` below a directory: every descendant with its path, each directory followed by its descendants; its properties are the `Walk*` lemmas |
| FileSystem.RGlob | file_tools.py:271-284 | (definition) the walk of the directory at the search path, or nothing when the path is missing or not a directory |
| FileSystem.Resolve | file_tools.py:127 | (definition) the operating system's component-by-component path resolution behind `iterdir()` |
| FileSystem.ResolveLookup | file_tools.py:127 | resolution succeeds iff lookup finds an entry, and then finds the same entry |
| FileSystem.ResolveNotADirectory | file_tools.py:127 | resolution fails with `NotADirectory` iff some proper prefix of the path leads to an entry that is not a directory |
| FileTools.ListingMentionsEveryName | file_tools.py:127-129 | every child name occurs in the listing |
| FileTools.ListingDecodes | file_tools.py:129 | the listing starts with the header; an empty directory gives the header alone; if no name contains a line break, splitting the rest at line breaks gives back the names in order |
| FileSystem.LookupAppend | file_tools.py:271 | looking up `p + q` means looking up `q` from wherever `p` leads |
| FileSystem.LookupWellFormed | file_tools.py:271 | whatever a path leads to in a well-formed tree is itself well formed |
| FileSystem.WalkBelow | file_tools.py:284 | every enumerated entry lies strictly below the walked directory, under one of its children, and its base name is the last path component |
| FileSystem.WalkComplete | file_tools.py:284 | every descendant, however deep, is enumerated together with its path |
| FileSystem.WalkSound | file_tools.py:284 | in a well-formed tree, every enumerated entry is what its path leads to |
| FileSystem.WalkDistinct | file_tools.py:284 | in a well-formed tree, no path is enumerated twice |
| Strings.Contains | file_tools.py:278 | (definition) Python's `k in s` on strings, trying `k` at each position from the left; `ContainsIff` relates it to occurrence positions |
| Strings.Join | file_tools.py:129 | (definition) Python's `sep.join(parts)`: the parts with the separator between neighbours |
| Strings.ContainsIff | file_tools.py:278 | the substring test holds iff the keyword occurs at some position of the string |
| Strings.ContainsConcat | file_tools.py:129 | an occurrence in either half of a concatenation is an occurrence in the whole |
| Strings.JoinContainsParts | file_tools.py:129 | each part occurs in the joined string |
| Strings.JoinSplit | file_tools.py:129 | joining the pieces of a split at a character gives back the string (completes the `Join`/`Split` law; the code never splits) |
| Strings.SplitJoin | file_tools.py:129 | splitting a join of separator-free parts gives back the parts |

## Left out

- The other operations of `Tools` (`create_folder`, `delete_folder`,
  `create_file`, `delete_file`, `read_file`, `write_to_file`, `copy_file`,
  `copy_folder`, `move_file`, `move_folder`, `is_file`, `is_directory`).
  Each one is an existence check plus a single `pathlib` or `shutil` call,
  so it is a thin wrapper over operating-system calls.
- `get_file_metadata`: it formats floating-point `stat` timestamps with `datetime`.
- Logging (`logging.basicConfig` and the `logging.info` calls): output only.
- The order of `rglob("*")`. The model's pre-order is its own choice and
  is not `rglob`'s order: `Walk` puts each directory right before its own
  descendants, siblings in listing order, so `[a/{x}, b]` gives a, a/x,
  b, while CPython 3.8 to 3.11 lists a directory's children before
  descending and gives a, b, a/x (later versions differ again). Two
  results depend on this choice: the order of the result list
  (`FilterOrder`), and which exception escapes when several files below
  the directory raise (`FilterFailure`: the first one in walk order).
  Membership, duplicates, bounds and whether the search raises at all do
  not depend on it.
- Symbolic links, `..`, absolute `directory` arguments, and the parsing
  and printing of path strings. Paths are component sequences, and
  `str(file_path)` is the sequence itself.
- Directories that `rglob` cannot list (it swallows the `PermissionError`).
  Every `Dir` node here is listable.
- Text decoding and the file I/O of `check_file_content`. Each file carries
  an opaque `ReadOutcome`. A file that changes during the walk is not
  modelled.
- `Tools.ListFiles`: an entry that is not a directory, at the end of the
  path or on the way, always gives `NotADirectory`. `iterdir()` on a
  broken link would raise `FileNotFoundError` instead.
- Idempotence of the search is not a separate lemma: `Search` is a function,
  so an unchanged tree always gives the same result.
