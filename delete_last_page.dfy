/**
  `delete_last_page`: validate the path, open the comic-book archive, sort its
  page names, drop the last one and write the rest into `<stem>_modified.cbz`.

  The file system is a map from (already resolved) paths to what the archive
  library makes of the file stored there; a path outside the map does not exist.
 */
module RemoveLastPage {
  import opened StringOrder
  import opened Paths
  import opened Archives

  /** A file as the archive reader sees it: its entries, or a file it cannot open. */
  datatype Stored = Readable(entries: Archive) | Unreadable

  type FileSystem = map<string, Stored>

  /**
    What a call ends in: one of the exceptions it raises (`FileNotFoundError`,
    `ValueError` for an unsupported extension, the reader's own error for a
    corrupt archive, `ValueError("Archive is empty")`), or the new archive
    written at `outPath`.
   */
  datatype Outcome =
    | NotFound(path: string)
    | UnsupportedFormat
    | ReadError
    | EmptyArchive
    | Written(outPath: string, output: Archive)

  /** Every member of a permutation of the names is a name of the archive. */
  lemma PermutedNamesAreNames(a: Archive, s: seq<string>)
    requires multiset(s) == multiset(Names(a))
    ensures forall n :: n in s ==> n in Names(a)
  {
    forall n | n in s ensures n in Names(a) {
      assert n in multiset(s);
    }
  }

  /** Sorting neither adds nor loses names. */
  lemma SortedLength(a: Archive)
    ensures |SortStrings(Names(a))| == |a|
  {
    assert |SortStrings(Names(a))| == |multiset(Names(a))|;
  }

  /** The names kept from a non-empty archive: all of them in sorted order, except the last. */
  function Kept(a: Archive): (r: seq<string>)
    requires a != []
    ensures |r| == |a| - 1
    ensures forall n :: n in r ==> n in Names(a)
  {
    var sorted := SortStrings(Names(a));
    SortedLength(a);
    PermutedNamesAreNames(a, sorted);
    sorted[..|a| - 1]
  }

  /** The name dropped from a non-empty archive: the last one in sorted order. */
  function Dropped(a: Archive): (r: string)
    requires a != []
    ensures r in Names(a)
  {
    SortedLength(a);
    PermutedNamesAreNames(a, SortStrings(Names(a)));
    SortStrings(Names(a))[|a| - 1]
  }

  /** A non-empty list is its prefix without the last element, then that element. */
  lemma SplitLast(s: seq<string>)
    requires s != []
    ensures s == s[..|s| - 1] + [s[|s| - 1]]
  {
  }

  /** The sorted names are the kept names followed by the dropped one. */
  lemma SortedSplit(a: Archive)
    requires a != []
    ensures SortStrings(Names(a)) == Kept(a) + [Dropped(a)]
  {
    SortedLength(a);
    SplitLast(SortStrings(Names(a)));
  }

  /** The outcome `delete_last_page(path)` has on the file system `fs`. */
  function Expected(path: string, fs: FileSystem): (r: Outcome)
    ensures r == NotFound(path) <==> path !in fs
    ensures r.Written? ==> fs[path].Readable? && |r.output| + 1 == |fs[path].entries|
  {
    if path !in fs then NotFound(path)
    else if Classify(path) == Unsupported then UnsupportedFormat
    else match fs[path]
      case Unreadable => ReadError
      case Readable(a) =>
        if a == [] then EmptyArchive
        else Written(OutputPath(path), Copied(a, Kept(a)))
  }

  /** The file system after the call: only a successful call creates (or replaces) the output file. */
  function After(fs: FileSystem, result: Outcome): (r: FileSystem)
    ensures r.Keys == if result.Written? then fs.Keys + {result.outPath} else fs.Keys
    ensures result.Written? ==> r[result.outPath] == Readable(result.output)
  {
    if result.Written? then fs[result.outPath := Readable(result.output)] else fs
  }

  /**
    `delete_last_page`: the existence check, then the extension dispatch, then
    (for either supported format) open, sort, reject an empty archive, drop
    the last name and copy the rest into the new archive.
   */
  method DeleteLastPage(path: string, fs: FileSystem) returns (result: Outcome, fs': FileSystem)
    ensures result == Expected(path, fs)
    ensures fs' == After(fs, result)
  {
    if path !in fs {
      return NotFound(path), fs;
    }
    var format := Classify(path);
    if format == Unsupported {
      return UnsupportedFormat, fs;
    }
    // Zip and Rar take the same steps; the RAR branch extracts each page to a
    // temporary directory before writing it, which yields the same bytes.
    var source := fs[path];
    if source.Unreadable? {
      return ReadError, fs;
    }
    var sorted := SortStrings(Names(source.entries));
    SortedLength(source.entries);
    if sorted == [] {
      return EmptyArchive, fs;
    }
    var kept := sorted[..|sorted| - 1];
    var outPath := OutputPath(path);
    assert kept == Kept(source.entries);
    var output := CopyEntries(source.entries, kept);
    result := Written(outPath, output);
    fs' := fs[outPath := Readable(output)];
  }

  /**
    The checks run in a fixed order, and each outcome happens exactly when the
    earlier checks pass and its own fails: a missing file is reported before
    its extension is looked at, an unsupported extension before the archive is
    opened, and an unreadable archive before its entries are counted.
   */
  lemma ValidationOrder(path: string, fs: FileSystem)
    ensures Expected(path, fs) == NotFound(path) <==> path !in fs
    ensures Expected(path, fs) == UnsupportedFormat <==>
      path in fs && Classify(path) == Unsupported
    ensures Expected(path, fs) == ReadError <==>
      path in fs && Classify(path) != Unsupported && fs[path] == Unreadable
    ensures Expected(path, fs) == EmptyArchive <==>
      path in fs && Classify(path) != Unsupported && fs[path] == Readable([])
    ensures Expected(path, fs).Written? <==>
      path in fs && Classify(path) != Unsupported && fs[path].Readable? && fs[path].entries != []
  {
  }

  /**
    Selection: the kept names are the source's names in ascending order, one
    fewer than the source; the dropped name is a name of the source and a
    maximum of all of them; kept and dropped together are exactly the source's names.
   */
  lemma SelectionSpec(a: Archive)
    requires a != []
    ensures |Kept(a)| == |a| - 1
    ensures Sorted(Kept(a))
    ensures Dropped(a) in Names(a)
    ensures forall n :: n in Names(a) ==> Le(n, Dropped(a))
    ensures multiset(Kept(a)) + multiset{Dropped(a)} == multiset(Names(a))
  {
    var sorted := SortStrings(Names(a));
    var d := Dropped(a);
    SortedSplit(a);
    assert d == sorted[|sorted| - 1];
    assert d in multiset(sorted);
    LastIsMaximum(sorted);
    forall x | x in Names(a) ensures Le(x, d) {
      assert x in multiset(Names(a));
      assert x in sorted;
    }
  }

  /**
    The kept names do not depend on how the names are sorted: any sorted
    permutation of the source names, minus its last element, is the same list.
   */
  lemma KeptMatchesAnySort(a: Archive, s: seq<string>)
    requires a != []
    requires Sorted(s) && multiset(s) == multiset(Names(a))
    ensures |s| == |a| && Kept(a) == s[..|s| - 1]
  {
    assert |s| == |multiset(s)| == |a|;
    SortedPermutationUnique(s, SortStrings(Names(a)));
  }

  /** In an archive with unique names every name occurs at most once in `Names`. */
  lemma {:induction false} AtMostOnce(a: Archive, x: string)
    requires UniqueNames(a)
    ensures multiset(Names(a))[x] <= 1
    decreases |a|
  {
    if a != [] {
      var t := a[1..];
      assert Names(a) == [a[0].name] + Names(t);
      AtMostOnce(t, x);
    }
  }

  /** A list holding some value twice has multiplicity at least two for it. */
  lemma TwiceInMultiset(s: seq<string>, i: nat, j: nat)
    requires i < j < |s| && s[i] == s[j]
    ensures multiset(s)[s[i]] >= 2
  {
    assert s == s[..j] + [s[j]] + s[j + 1..];
    assert s[i] in s[..j];
  }

  /** With unique source names, the dropped name is not kept and no kept name repeats. */
  lemma SelectionUnique(a: Archive)
    requires a != [] && UniqueNames(a)
    ensures Dropped(a) !in Kept(a)
    ensures forall i, j :: 0 <= i < j < |Kept(a)| ==> Kept(a)[i] != Kept(a)[j]
  {
    var k := Kept(a);
    SelectionSpec(a);
    AtMostOnce(a, Dropped(a));
    assert multiset(k)[Dropped(a)] == 0;
    forall i, j | 0 <= i < j < |k| ensures k[i] != k[j] {
      AtMostOnce(a, k[i]);
      if k[i] == k[j] {
        TwiceInMultiset(k, i, j);
        assert false;
      }
    }
  }

  /**
    On a non-empty archive of a supported format the call writes, at
    `OutputPath(path)`, exactly the kept names in ascending order, each with
    the bytes the source holds for it: pages are copied, never transformed.
    With unique source names each written entry is an entry of the source and
    the dropped page is not among them.
   */
  lemma WritesKeptPages(path: string, fs: FileSystem, a: Archive)
    requires path in fs && Classify(path) != Unsupported
    requires fs[path] == Readable(a) && a != []
    ensures Expected(path, fs).Written?
    ensures Expected(path, fs).outPath == OutputPath(path)
    ensures Names(Expected(path, fs).output) == Kept(a)
    ensures forall e :: e in Expected(path, fs).output ==> e.name in Names(a) && e.content == Read(a, e.name)
    ensures UniqueNames(a) ==> forall e :: e in Expected(path, fs).output ==> e in a
    ensures UniqueNames(a) ==> Dropped(a) !in Names(Expected(path, fs).output)
    ensures UniqueNames(a) ==> UniqueNames(Expected(path, fs).output)
  {
    var out := Copied(a, Kept(a));
    forall e | e in out ensures e.name in Names(a) && e.content == Read(a, e.name) {
      var i :| 0 <= i < |out| && out[i] == e;
      assert Names(out)[i] == Kept(a)[i];
    }
    if UniqueNames(a) {
      SelectionUnique(a);
      forall e | e in out ensures e in a {
        var j :| 0 <= j < |a| && a[j].name == e.name;
        ReadUnique(a, j);
      }
      forall i, j | 0 <= i < j < |out| ensures out[i].name != out[j].name {
        assert Names(out)[i] == Kept(a)[i] && Names(out)[j] == Kept(a)[j];
      }
    }
  }

  /** `After` leaves every path other than the written one as it was. */
  lemma AfterKeeps(fs: FileSystem, result: Outcome, p: string)
    requires !result.Written? || p != result.outPath
    ensures p in After(fs, result) <==> p in fs
    ensures p in fs ==> After(fs, result)[p] == fs[p]
  {
  }

  /**
    The source file is never changed: a call alters at most the entry at the
    output path, and a call that fails in a check decided before the output
    is opened (missing file, unsupported extension, unreadable or empty
    archive) changes nothing.
   */
  lemma OnlyOutputWritten(path: string, fs: FileSystem)
    ensures var fs' := After(fs, Expected(path, fs));
      path in fs ==> path in fs' && fs'[path] == fs[path]
    ensures var fs' := After(fs, Expected(path, fs));
      forall p :: p != OutputPath(path) ==> (p in fs' <==> p in fs) && (p in fs ==> fs'[p] == fs[p])
    ensures !Expected(path, fs).Written? ==> After(fs, Expected(path, fs)) == fs
  {
    var r := Expected(path, fs);
    assert r.Written? ==> r.outPath == OutputPath(path) && Classify(path) != Unsupported;
    if path in fs {
      OutputPathSpec(path);
      AfterKeeps(fs, r, path);
    }
    forall p | p != OutputPath(path)
      ensures p in After(fs, r) <==> p in fs
      ensures p in fs ==> After(fs, r)[p] == fs[p]
    {
      AfterKeeps(fs, r, p);
    }
  }
}
