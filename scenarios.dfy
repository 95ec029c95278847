/**
  The repager's documented cases, stated on concrete archives and paths.
 */
module Scenarios {
  import opened StringOrder
  import opened Paths
  import opened Archives
  import opened RemoveLastPage

  /** The bytes `dummy data` every test page holds. */
  const Dummy: seq<Byte> := [0x64, 0x75, 0x6d, 0x6d, 0x79, 0x20, 0x64, 0x61, 0x74, 0x61]

  /** A page holding the dummy bytes. */
  function Page(name: string): Entry
  {
    Entry(name, Dummy)
  }

  /** A stem and an extension: the branch depends only on the extension's lower case. */
  lemma ClassifyJoin(p: string, stem: string, ext: string)
    requires p == stem + ext
    requires stem != [] && stem[|stem| - 1] != ExtSep && stem[|stem| - 1] != Sep
    requires ext != [] && ext[0] == ExtSep && ExtSep !in ext[1..] && Sep !in ext
    ensures SplitExt(p) == (stem, ext)
    ensures OutputPath(p) == stem + "_modified.cbz"
    ensures Classify(p) == if Lower(ext) == ".cbz" then Zip else if Lower(ext) == ".cbr" then Rar else Unsupported
  {
    SplitExtJoin(stem, ext);
  }

  /** A path `<stem>.cbz` takes the ZIP branch and writes `<stem>_modified.cbz`. */
  lemma CbzPath(p: string, stem: string)
    requires p == stem + ".cbz"
    requires stem != [] && stem[|stem| - 1] != ExtSep && stem[|stem| - 1] != Sep
    ensures Classify(p) == Zip && OutputPath(p) == stem + "_modified.cbz"
  {
    var e := ".cbz";
    assert Lower(e) == ".cbz";
    ClassifyJoin(p, stem, e);
  }

  /** The three test pages are already in ascending order. */
  lemma ThreePagesSorted(s: seq<string>)
    requires s == ["page1.jpg", "page2.jpg", "page3.jpg"]
    ensures Sorted(s)
  {
    assert Le("page1.jpg", "page2.jpg") && Le("page2.jpg", "page3.jpg");
    LeTransitive(s[0], s[1], s[2]);
  }

  /** Every lookup in an archive of dummy pages yields the dummy bytes. */
  lemma ReadDummy(a: Archive, name: string)
    requires forall e :: e in a ==> e.content == Dummy
    requires name in Names(a)
    ensures Read(a, name) == Dummy
  {
    assert a[LastIndex(a, name)] in a;
  }

  /** Writing dummy pages copies each one unchanged. */
  lemma CopiedDummy(a: Archive, names: seq<string>)
    requires forall e :: e in a ==> e.content == Dummy
    requires forall n :: n in names ==> n in Names(a)
    ensures Copied(a, names) == seq(|names|, i requires 0 <= i < |names| => Page(names[i]))
  {
    var out := Copied(a, names);
    forall i | 0 <= i < |names| ensures out[i] == Page(names[i]) {
      assert Names(out)[i] == names[i];
      ReadDummy(a, names[i]);
    }
  }

  /** Of three pages, the first two names are kept. */
  lemma ThreePagesKeptNames(a: Archive)
    requires a == [Page("page1.jpg"), Page("page2.jpg"), Page("page3.jpg")]
    ensures a != [] && Kept(a) == ["page1.jpg", "page2.jpg"]
  {
    var s := Names(a);
    assert s == ["page1.jpg", "page2.jpg", "page3.jpg"];
    ThreePagesSorted(s);
    KeptMatchesAnySort(a, s);
  }

  /** Of three pages, the copy keeps the first two with their bytes. */
  lemma ThreePagesKept(a: Archive)
    requires a == [Page("page1.jpg"), Page("page2.jpg"), Page("page3.jpg")]
    ensures a != [] && Copied(a, Kept(a)) == [Page("page1.jpg"), Page("page2.jpg")]
  {
    ThreePagesKeptNames(a);
    assert forall e :: e in a ==> e.content == Dummy;
    CopiedDummy(a, Kept(a));
  }

  /** A readable, non-empty archive at a supported path is written out with its kept pages. */
  lemma WrittenFor(path: string, fs: FileSystem, a: Archive)
    requires path in fs && fs[path] == Readable(a) && a != []
    requires Classify(path) != Unsupported
    ensures Expected(path, fs) == Written(OutputPath(path), Copied(a, Kept(a)))
  {
  }

  /** Three pages stored as `page1.jpg`, `page2.jpg`, `page3.jpg`: the first two are written. */
  lemma ThreePagesBecomeTwo(stem: string, path: string, a: Archive, fs: FileSystem)
    requires stem == "/tmp/test" && path == stem + ".cbz"
    requires a == [Page("page1.jpg"), Page("page2.jpg"), Page("page3.jpg")]
    requires fs == map[path := Readable(a)]
    ensures Expected(path, fs) == Written(stem + "_modified.cbz", [Page("page1.jpg"), Page("page2.jpg")])
  {
    ThreePagesKept(a);
    CbzPath(path, stem);
    WrittenFor(path, fs, a);
  }

  /** A single page goes to an archive with no pages. */
  lemma OnePageBecomesNone(stem: string, path: string, a: Archive, fs: FileSystem)
    requires stem == "/tmp/single_page" && path == stem + ".cbz"
    requires a == [Page("page1.jpg")]
    requires fs == map[path := Readable(a)]
    ensures Expected(path, fs) == Written(stem + "_modified.cbz", [])
  {
    assert Kept(a) == [] by {
      SelectionSpec(a);
    }
    CbzPath(path, stem);
    WrittenFor(path, fs, a);
  }

  /** An archive without entries is rejected and nothing is written. */
  lemma EmptyArchiveRejected(stem: string, path: string, fs: FileSystem)
    requires stem == "/tmp/empty" && path == stem + ".cbz"
    requires fs == map[path := Readable([])]
    ensures Expected(path, fs) == EmptyArchive
    ensures After(fs, Expected(path, fs)) == fs
  {
    CbzPath(path, stem);
  }

  /** A `.cbr` file the archive reader cannot open ends in the reader's error; nothing is written. */
  lemma CorruptRarRejected(stem: string, path: string, fs: FileSystem)
    requires stem == "/tmp/test" && path == stem + ".cbr"
    requires fs == map[path := Unreadable]
    ensures Expected(path, fs) == ReadError
    ensures After(fs, Expected(path, fs)) == fs
  {
    var e := ".cbr";
    assert Lower(e) == ".cbr" && Lower(e) != ".cbz" by {
      assert Lower(e)[3] == 'r';
    }
    ClassifyJoin(path, stem, e);
  }

  /** An existing `.txt` file is refused as an unsupported format. */
  lemma TextFileUnsupported(stem: string, path: string, fs: FileSystem, content: Stored)
    requires stem == "/tmp/test" && path == stem + ".txt"
    requires fs == map[path := content]
    ensures Expected(path, fs) == UnsupportedFormat
  {
    var e := ".txt";
    assert Lower(e) != ".cbz" && Lower(e) != ".cbr" by {
      assert Lower(e)[1] == 't';
    }
    ClassifyJoin(path, stem, e);
  }

  /** A missing file is reported as not found, whatever its extension. */
  lemma MissingFileNotFound(fs: FileSystem)
    requires "/tmp/non_existent.cbz" !in fs && "/tmp/notes.txt" !in fs
    ensures Expected("/tmp/non_existent.cbz", fs) == NotFound("/tmp/non_existent.cbz")
    ensures Expected("/tmp/notes.txt", fs) == NotFound("/tmp/notes.txt")
  {
  }

  /** An upper-case extension selects the same branch as the lower-case one. */
  lemma UpperCaseZip(p: string)
    requires p == "X.CBZ"
    ensures Classify(p) == Zip
  {
    var e := ".CBZ";
    assert Lower(e) == ".cbz";
    ClassifyJoin(p, "X", e);
  }

  /** A mixed-case extension selects the same branch as the lower-case one. */
  lemma MixedCaseRar(p: string)
    requires p == "X.Cbr"
    ensures Classify(p) == Rar
  {
    var e := ".Cbr";
    assert Lower(e) == ".cbr" && Lower(e) != ".cbz" by {
      assert Lower(e)[3] == 'r';
    }
    ClassifyJoin(p, "X", e);
  }

  /** A file named just `.cbz` has no extension, so it is unsupported. */
  lemma DotFileUnsupported(p: string)
    requires p == "/tmp/.cbz"
    ensures SplitExt(p) == (p, "")
    ensures Classify(p) == Unsupported
  {
    assert p[4] == Sep && p[5] == ExtSep;
    assert RFind(p, Sep) == 4;
    assert RFind(p, ExtSep) == 5;
  }

  /** `page10.jpg` sorts before `page2.jpg`, because `1` precedes `2`. */
  lemma CodePointSorted(s: seq<string>)
    requires s == ["page10.jpg", "page2.jpg"]
    ensures Sorted(s)
  {
    assert Le(s[0], s[1]);
  }

  /** Names compare by code point, not by number: `page10.jpg` sorts before `page2.jpg`. */
  lemma CodePointOrder(a: Archive)
    requires a == [Page("page2.jpg"), Page("page10.jpg")]
    ensures Kept(a) == ["page10.jpg"] && Dropped(a) == "page2.jpg"
  {
    var s := [Names(a)[1], Names(a)[0]];
    CodePointSorted(s);
    assert multiset(s) == multiset(Names(a)) by {
      assert Names(a) == [Names(a)[0], Names(a)[1]];
    }
    KeptMatchesAnySort(a, s);
    SortedSplit(a);
    SortedPermutationUnique(s, SortStrings(Names(a)));
  }
}
