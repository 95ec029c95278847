# delete_last_page, modelled in Dafny

`delete_last_page(file_name)` removes the last page of a comic-book archive.
It handles `.cbz` (ZIP) and `.cbr` (RAR) archives. It writes every other page
into a new ZIP archive next to the source, named `<stem>_modified.cbz`. The
"last" page is the entry whose name sorts last in Python's ordinal string
order. The order in which the archive stores its entries plays no part.

The model has five modules:

- `StringOrder` (string_order.dfy) covers Python's `str` comparison as `Le`,
  with its order laws. It also has the sort `SortStrings`, an insertion sort
  proved sorted and a permutation. `SortedPermutationUnique` then shows that
  any correct sort, Timsort included, gives the same list.
- `Paths` (paths.dfy) covers POSIX `os.path.splitext` and `basename`, and the
  lower-cased extension test that picks the branch (`Classify`). It also
  derives the output path `OutputPath`.
- `Archives` (archives.dfy) treats an archive as a sequence of
  `(name, bytes)` entries.
  - `Read` looks an entry up by name and returns the last entry with that
    name, as `zipfile`'s name index does.
  - `CopyEntries` is the copy loop, a method proved equal to the
    specification function `Copied`.
- `RemoveLastPage` (delete_last_page.dfy) covers the whole operation.
  - The file system is a map from resolved paths to what the archive reader
    makes of the stored file: its entries, or `Unreadable` for a file the
    library rejects.
  - `Expected` states the outcome.
  - `DeleteLastPage` is the imperative method: existence check, dispatch,
    open, sort, empty check, drop the last name, copy. It is proved to return
    `Expected` and to change the file system exactly as `After` says.
- `Scenarios` (scenarios.dfy) restates the repository's unit tests as lemmas
  about the model.

Design notes:

- `sorted()` is called with no key, so names compare by code point and the
  order is case-sensitive: `Page2.jpg` sorts before `page1.jpg`.
- With duplicate entry names, the names written are still `sorted(names)[:-1]`,
  duplicates included. Each of them gets the bytes of the last entry with that
  name. The set-difference reading ("input entries minus the last one") holds
  only for unique names, so `WritesKeptPages` states it under `UniqueNames`.

## Model

| member | source | states |
|---|---|---|
| RemoveLastPage.DeleteLastPage | deleteLastPage.py:6-69 | The method's result is exactly `Expected(path, fs)` and its new file system is `After(fs, result)`: the checks in source order, then the sorted names minus the last copied to `<stem>_modified.cbz`. The RAR branch shares the ZIP branch's steps, for names already in normal form |
| RemoveLastPage.ValidationOrder | deleteLastPage.py:21-69 | Each outcome happens exactly when the earlier checks pass and its own fails: not-found iff the path is missing; unsupported iff it exists with a bad extension; read error iff supported but unreadable; empty iff supported with zero entries; written iff supported with at least one entry |
| RemoveLastPage.SelectionSpec | deleteLastPage.py:31-38 | For N ≥ 1 entries the kept names number N−1 and are in ascending order. The dropped name is a source name and at least every source name. Kept plus dropped is exactly the multiset of source names |
| RemoveLastPage.KeptMatchesAnySort | deleteLastPage.py:31-38 | Any sorted permutation of the source names, without its last element, equals the kept names, so the result does not depend on which sort algorithm is used |
| RemoveLastPage.SelectionUnique | deleteLastPage.py:31-38 | With unique source names, the dropped name is not kept and no kept name repeats |
| RemoveLastPage.WritesKeptPages | deleteLastPage.py:41-44 | A supported, non-empty archive is written at `OutputPath(path)`. The output's names are the kept names in ascending order, and each entry holds the bytes the source has under that name. With unique names every output entry is a source entry, the dropped page is absent, and the output names are unique |
| RemoveLastPage.OnlyOutputWritten | deleteLastPage.py:29-42 | The source file is unchanged. Every path other than the output path keeps its presence and contents. A call that fails in one of the checks the model decides before the output is opened (lines 21-35 and 48-54) leaves the file system as it was |
| RemoveLastPage.AfterKeeps | deleteLastPage.py:42 | Committing an outcome touches no path except the one written |
| RemoveLastPage.Kept | deleteLastPage.py:38 | `sorted(names)[:-1]`: one name fewer than the archive holds, each of them a name of the source archive (`SelectionSpec` states order and multiplicities) |
| RemoveLastPage.Dropped | deleteLastPage.py:38 | The element `[:-1]` removes is a name of the source archive (`SelectionSpec` states that it is a maximum) |
| RemoveLastPage.Expected | deleteLastPage.py:6-69 | The outcome of a call: not-found exactly when the path is missing, and a written archive one page shorter than the readable source (`ValidationOrder` and `WritesKeptPages` state the rest) |
| RemoveLastPage.After | deleteLastPage.py:42-44 | The file system after a call: a successful call adds the output path, which then holds exactly the written archive; any other outcome leaves the set of paths as it was (`AfterKeeps` and `OnlyOutputWritten` state that every other path keeps its contents) |
| RemoveLastPage.SplitLast | deleteLastPage.py:38 | A non-empty list is its prefix without the last element, followed by that element |
| RemoveLastPage.SortedSplit | deleteLastPage.py:31-38 | The sorted names are the kept names followed by the dropped name |
| RemoveLastPage.PermutedNamesAreNames | deleteLastPage.py:31 | Every element of a permutation of the names is a name of the archive |
| RemoveLastPage.SortedLength | deleteLastPage.py:31 | Sorting keeps the number of names |
| RemoveLastPage.AtMostOnce | deleteLastPage.py:31 | With unique names, each name occurs at most once in the name list |
| RemoveLastPage.TwiceInMultiset | deleteLastPage.py:38 | A list holding a value at two positions holds it at least twice |
| Archives.CopyEntries | deleteLastPage.py:42-44 | The copy loop returns exactly `Copied(src, kept)`: one entry per kept name, in order (the loop invariant is `out == Copied(src, kept[..i])`) |
| Archives.Copied | deleteLastPage.py:43-44 | The names written are exactly the kept names in order, and each entry's bytes are the bytes read from the source under that name |
| Archives.NamesAppend | deleteLastPage.py:43-44 | Appending an entry to the output appends its name to the name list |
| Archives.Names | deleteLastPage.py:31 | `namelist()`: one name per entry, and every entry's name is listed |
| Archives.Read | deleteLastPage.py:44 | `read(name)`: the bytes returned are stored in the archive under that name (`LastIndex` states which entry) |
| Archives.LastIndex | deleteLastPage.py:44 | A lookup by name lands on an entry with that name, and no later entry has that name |
| Archives.LastIndexBelow | deleteLastPage.py:44 | Below a bound, the index found has the name and nothing between it and the bound does |
| Archives.ReadUnique | deleteLastPage.py:44 | With unique names, reading an entry's name returns that entry's bytes |
| StringOrder.SortStrings | deleteLastPage.py:31 | `sorted(names)`: the result is sorted under Python's string order and is a permutation of the input |
| StringOrder.Insert | deleteLastPage.py:31 | Inserting into a sorted list keeps it sorted and adds exactly the new name |
| StringOrder.SortedPermutationUnique | deleteLastPage.py:31 | Two sorted permutations of the same names are equal |
| StringOrder.LastIsMaximum | deleteLastPage.py:38 | The last element of a sorted list is at least every element of it |
| StringOrder.HeadIsMinimum | deleteLastPage.py:31 | The first element of a sorted list is at most every element of it |
| StringOrder.TailMultiset | deleteLastPage.py:31 | Dropping the head of a list removes one copy of it from the multiset |
| StringOrder.ConsSorted | deleteLastPage.py:31 | A lower bound put in front of a sorted list keeps it sorted |
| StringOrder.BoundPermutation | deleteLastPage.py:31 | A bound on a list and on a new name bounds every element of a permutation of both |
| StringOrder.Le | deleteLastPage.py:31 | Python's `<=` on `str`: the empty string comes first, otherwise the first code points decide and equal first code points defer to the rest, so a proper prefix sorts before any longer string (its order laws are the four rows below) |
| StringOrder.LeReflexive | deleteLastPage.py:31 | Every string is at most itself |
| StringOrder.LeAntisymmetric | deleteLastPage.py:31 | Two strings each at most the other are equal |
| StringOrder.LeTransitive | deleteLastPage.py:31 | The string order is transitive |
| StringOrder.LeTotal | deleteLastPage.py:31 | Any two strings are comparable |
| Paths.SplitExt | deleteLastPage.py:25 | `splitext`: stem plus extension is the path. A non-empty extension starts with the dot and holds no further dot and no separator |
| Paths.SplitExtFindsExtension | deleteLastPage.py:25 | The extension is non-empty iff the base name holds a non-dot character followed later by a dot |
| Paths.ExtensionHasWitness | deleteLastPage.py:25 | A non-empty extension gives such a character and dot |
| Paths.ExtensionIsNamed | deleteLastPage.py:25 | A non-empty extension passes the test on the last dot |
| Paths.NamedGivesWitness | deleteLastPage.py:25 | Passing the test on the last dot gives a non-dot character and a later dot in the base name |
| Paths.WitnessGivesExtension | deleteLastPage.py:25 | Such a character and dot make the last dot pass the test |
| Paths.LastDotAfter | deleteLastPage.py:25 | The last dot of the path lies at or after any dot of the base name |
| Paths.NamedBeforeDot | deleteLastPage.py:25 | `splitext`'s test on the last dot: it lies after the last separator, and some character between them is not a dot (the leading-dots loop of posixpath's `splitext`); `ExtensionIsNamed`, `NamedGivesWitness` and `WitnessGivesExtension` relate it to the base name |
| Paths.NamedBeforeDotIntro | deleteLastPage.py:25 | A non-dot character between the last separator and the last dot satisfies the test |
| Paths.BaseName | deleteLastPage.py:25 | `os.path.basename`: the part after the last separator (`DirPrefixBaseName` and `BaseNameHasNoSep` state its meaning) |
| Paths.DirPrefixBaseName | deleteLastPage.py:25 | A path is its directory prefix followed by its base name, and the prefix is empty or ends in the separator |
| Paths.BaseNameHasNoSep | deleteLastPage.py:25 | The base name holds no separator |
| Paths.WitnessInSuffix | deleteLastPage.py:25 | A non-dot character followed by a dot after a position stay in that order in the suffix after it |
| Paths.Classify | deleteLastPage.py:25-27 | The branch a path takes: a supported branch only for a four-character extension starting with the dot (`ClassifySpec` states which one) |
| Paths.OutputPath | deleteLastPage.py:41 | `splitext(path)[0] + '_modified.cbz'`: the input's stem followed by 13 characters ending in `.cbz` (`OutputPathSpec` states its extension, directory and distinctness) |
| Paths.BaseNameAt | deleteLastPage.py:25 | Positions of the base name are the path's positions after the last separator |
| Paths.RFind | deleteLastPage.py:25 | The index found holds the character and no later index does; -1 when the character is absent |
| Paths.RFindBelow | deleteLastPage.py:25 | The same, restricted to indices below a bound |
| Paths.RFindAppend | deleteLastPage.py:41 | Appending text without the character does not move its last occurrence |
| Paths.Lower | deleteLastPage.py:25 | Lower-casing keeps the length and lower-cases each character on its own |
| Paths.LowerIs | deleteLastPage.py:25 | A string lower-cases to a lower-case extension iff it spells that extension in any mix of cases |
| Paths.ClassifySpec | deleteLastPage.py:25-27 | A path takes the ZIP branch iff its extension spells `.cbz` in any case, and the RAR branch iff it spells `.cbr`. Otherwise, the empty extension included, it is unsupported |
| Paths.SplitExtJoin | deleteLastPage.py:41 | A stem ending in an ordinary character, followed by a dot-led suffix without dots or separators, splits back into that stem and suffix |
| Paths.OutputPathSplit | deleteLastPage.py:41 | The output path splits into the input's stem plus `_modified`, and `.cbz` |
| Paths.OutputPathSameDirectory | deleteLastPage.py:41 | The output path lies in the input's directory |
| Paths.OutputPathSpec | deleteLastPage.py:41 | The output path has the input's stem plus `_modified` and extension `.cbz`. It is in the same directory, is itself classified as ZIP whatever the source format, and never equals the path of a supported input |
| Scenarios.ClassifyJoin | deleteLastPage.py:25-27 | For `stem + ext` the branch depends only on `ext` lower-cased, and the output path is `stem + "_modified.cbz"` |
| Scenarios.WrittenFor | deleteLastPage.py:29-44 | A readable, non-empty archive at a supported path ends in the kept pages written at the output path |
| Scenarios.CbzPath | deleteLastPage.py:25-41 | `<stem>.cbz` takes the ZIP branch and writes `<stem>_modified.cbz` |
| Scenarios.ThreePagesBecomeTwo | test_deleteLastPage.py:18-31 | `test.cbz` holding page1–page3 yields `test_modified.cbz` holding page1 and page2 with their bytes |
| Scenarios.ThreePagesKeptNames | test_deleteLastPage.py:31 | Of page1–page3, the kept names are page1 and page2 |
| Scenarios.ThreePagesKept | test_deleteLastPage.py:30-31 | Of page1–page3, the copy is page1 and page2 with the dummy bytes |
| Scenarios.ThreePagesSorted | test_deleteLastPage.py:21-23 | page1, page2, page3 are in ascending order |
| Scenarios.ReadDummy | test_deleteLastPage.py:21-23 | In an archive whose pages all hold the dummy bytes, every read yields them |
| Scenarios.CopiedDummy | test_deleteLastPage.py:30-31 | Copying dummy pages reproduces each page unchanged |
| Scenarios.OnePageBecomesNone | test_deleteLastPage.py:55-66 | `single_page.cbz` with one page yields `single_page_modified.cbz` with no entries |
| Scenarios.EmptyArchiveRejected | test_deleteLastPage.py:73-79 | An archive without entries is the empty-archive error, and nothing is written |
| Scenarios.CorruptRarRejected | test_deleteLastPage.py:33-45 | A `.cbr` file the reader cannot open is the reader's error, and nothing is written |
| Scenarios.TextFileUnsupported | test_deleteLastPage.py:47-53 | An existing `test.txt` is the unsupported-format error |
| Scenarios.MissingFileNotFound | test_deleteLastPage.py:68-71 | A missing `.cbz` and a missing `.txt` are both not-found, so existence is checked before the extension |
| Scenarios.UpperCaseZip | deleteLastPage.py:25-27 | `X.CBZ` takes the ZIP branch |
| Scenarios.MixedCaseRar | deleteLastPage.py:25-27 | `X.Cbr` takes the RAR branch |
| Scenarios.DotFileUnsupported | deleteLastPage.py:25-27 | `/tmp/.cbz` has no extension and is unsupported |
| Scenarios.CodePointSorted | deleteLastPage.py:31 | `page10.jpg` sorts before `page2.jpg` |
| Scenarios.CodePointOrder | deleteLastPage.py:31-38 | Of `page2.jpg` and `page10.jpg`, the dropped page is `page2.jpg`: the order is by code point, not numeric |

## Left out

- Reading and writing real ZIP and RAR files through `zipfile` and `rarfile` (compression, entry metadata, timestamps). An archive is a sequence of `(name, bytes)` entries, and writing one is a new map entry in the file-system model.
- Library errors on opening a corrupt archive (deleteLastPage.py:29, 48) are the single outcome `ReadError`, decided before any output exists. Their exception types and messages are not modelled, and neither is any other exception message text.
- Errors after the output archive is opened are not modelled: a page that fails to read during the copy (deleteLastPage.py:44: a bad CRC or local header, an encrypted entry, an unsupported compression method), a page that fails to extract (line 65, for example when no unrar tool is installed), and a failure to open the output itself (lines 42, 62: an unwritable directory, or a directory at the output path). In the first two cases the program leaves a partial `_modified.cbz` behind; in the model every readable archive is read in full and the output is written all at once, so a failing call never leaves a partial file.
- RemoveLastPage.OnlyOutputWritten: its promise that a failing call changes nothing covers only the failures the model decides before the output is opened (missing file, unsupported extension, unreadable or empty archive). The program can also fail after line 42/62 and leave a partial output, which the model does not represent.
- The RAR branch's extraction into a temporary directory (deleteLastPage.py:59, 65-67) is treated as a content-preserving copy. It shares the ZIP branch's `Read` by name, including the choice of the last entry when names repeat, which `rarfile` is assumed to share. The RAR branch writes each page with `write(..., arcname=file)` (line 67), and `zipfile` normalises that name (it applies `os.path.normpath`, which collapses `.` segments and doubled separators, resolves `..` segments and drops a trailing `/`; it then strips a leading `/` and marks directories with a trailing `/`). The ZIP branch's `writestr` (line 44) keeps names exactly. The model writes the kept names unchanged in both branches, so for the RAR branch it assumes names already in normal form.
- `os.path.abspath` and `os.path.exists` (deleteLastPage.py:18, 21): the path is taken as already absolute and normalised. So `file_name` and `file_path` coincide, and existence is membership in the file-system map.
- Windows paths: `splitext` and `basename` are the POSIX versions, with `/` as the only separator and no alternative separator or drive letter.
- Paths.Lower: lower-cases ASCII letters only. No other character lower-cases to one of `.`, `c`, `b`, `z`, `r`, so the branch chosen is the same as with full Unicode lower-casing.
- `main()` (deleteLastPage.py:71-81) is interactive input and printing. Its message builds the path from the raw `file_name` rather than the resolved path (line 76).
