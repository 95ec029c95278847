/**
  Archives as the repager sees them: an ordered list of named byte blobs, read
  by name, and the loop that writes the kept pages into a fresh ZIP archive.
 */
module Archives {

  type Byte = bv8

  /** One member of an archive: its name and its bytes. */
  datatype Entry = Entry(name: string, content: seq<Byte>)

  /** The entries of an archive, in storage order. */
  type Archive = seq<Entry>

  /** `namelist()`: the entry names in storage order. */
  function Names(a: Archive): (r: seq<string>)
    ensures |r| == |a|
    ensures forall e :: e in a ==> e.name in r
  {
    var r := seq(|a|, i requires 0 <= i < |a| => a[i].name);
    assert forall i :: 0 <= i < |a| ==> r[i] == a[i].name;
    r
  }

  /** No two entries share a name. */
  predicate UniqueNames(a: Archive)
  {
    forall i, j :: 0 <= i < j < |a| ==> a[i].name != a[j].name
  }

  /** The last index below `n` whose entry is named `name`, when there is one. */
  function LastIndexBelow(a: Archive, name: string, n: nat): (r: nat)
    requires n <= |a| && name in Names(a)[..n]
    ensures r < n && a[r].name == name
    ensures forall j :: r < j < n ==> a[j].name != name
    decreases n
  {
    if a[n - 1].name == name then n - 1
    else
      assert Names(a)[..n] == Names(a)[..n - 1] + [a[n - 1].name];
      LastIndexBelow(a, name, n - 1)
  }

  /** The index of the entry a by-name lookup resolves to: the last one with that name. */
  function LastIndex(a: Archive, name: string): (r: nat)
    requires name in Names(a)
    ensures r < |a| && a[r].name == name
    ensures forall j :: r < j < |a| ==> a[j].name != name
  {
    assert Names(a)[..|a|] == Names(a);
    LastIndexBelow(a, name, |a|)
  }

  /** `read(name)`: the bytes stored under `name`. */
  function Read(a: Archive, name: string): (r: seq<Byte>)
    requires name in Names(a)
    ensures Entry(name, r) in a
  {
    a[LastIndex(a, name)].content
  }

  /** In an archive without duplicate names, reading a name returns that entry's bytes. */
  lemma ReadUnique(a: Archive, i: nat)
    requires UniqueNames(a) && i < |a|
    ensures a[i].name in Names(a)
    ensures Read(a, a[i].name) == a[i].content
  {
    assert Names(a)[i] == a[i].name;
  }

  /** The entries written for `names`, each under its name with the bytes read from `src`. */
  function Copied(src: Archive, names: seq<string>): (r: Archive)
    requires forall n :: n in names ==> n in Names(src)
    ensures Names(r) == names
    ensures forall i :: 0 <= i < |r| ==> r[i].content == Read(src, names[i])
    decreases |names|
  {
    if names == [] then []
    else
      var n := |names| - 1;
      assert names == names[..n] + [names[n]];
      var init := Copied(src, names[..n]);
      var e := Entry(names[n], Read(src, names[n]));
      NamesAppend(init, e);
      init + [e]
  }

  /** Appending an entry appends its name to the name list. */
  lemma NamesAppend(a: Archive, e: Entry)
    ensures Names(a + [e]) == Names(a) + [e.name]
  {
    assert forall i :: 0 <= i < |a| ==> (a + [e])[i] == a[i];
  }

  /**
    The copy loop of both branches: for each kept name, in order, append an
    entry with that name and the bytes the source holds for it.
   */
  method CopyEntries(src: Archive, kept: seq<string>) returns (out: Archive)
    requires forall n :: n in kept ==> n in Names(src)
    ensures out == Copied(src, kept)
  {
    out := [];
    for i := 0 to |kept|
      invariant out == Copied(src, kept[..i])
    {
      assert kept[..i + 1][..i] == kept[..i];
      out := out + [Entry(kept[i], Read(src, kept[i]))];
    }
    assert kept[..|kept|] == kept;
  }
}
