/**
  Path handling of the repager: POSIX `os.path.splitext` and `basename`, the
  case-insensitive classification of the extension into the two supported
  comic-book formats, and the derivation of the `_modified.cbz` output path.
 */
module Paths {

  const Sep: char := '/'
  const ExtSep: char := '.'

  /** The last index below `n` holding `c`, or -1 when there is none. */
  function RFindBelow(s: string, c: char, n: nat): (r: int)
    requires n <= |s|
    ensures -1 <= r < n
    ensures r >= 0 ==> s[r] == c
    ensures forall k :: r < k < n ==> s[k] != c
    decreases n
  {
    if n == 0 then -1
    else if s[n - 1] == c then n - 1
    else RFindBelow(s, c, n - 1)
  }

  /** `s.rfind(c)`: the last index holding `c`, or -1 when there is none. */
  function RFind(s: string, c: char): (r: int)
    ensures -1 <= r < |s|
    ensures r >= 0 ==> s[r] == c
    ensures forall k :: r < k < |s| ==> s[k] != c
  {
    RFindBelow(s, c, |s|)
  }

  /** Appending text without `c` does not move the last `c`. */
  lemma RFindAppend(s: string, t: string, c: char)
    requires c !in t
    ensures RFind(s + t, c) == RFind(s, c)
  {
    var q := RFind(s, c);
    if q >= 0 {
      assert (s + t)[q] == c;
    }
  }

  /** `os.path.basename`: everything after the last separator. */
  function BaseName(p: string): string
  {
    p[RFind(p, Sep) + 1..]
  }

  /** The directory part of a path, kept with its trailing separator. */
  function DirPrefix(p: string): string
  {
    p[..RFind(p, Sep) + 1]
  }

  /** A path is its directory prefix followed by its base name, and the prefix is empty or ends in a separator. */
  lemma DirPrefixBaseName(p: string)
    ensures DirPrefix(p) + BaseName(p) == p
    ensures DirPrefix(p) == [] || DirPrefix(p)[|DirPrefix(p)| - 1] == Sep
  {
    var k := RFind(p, Sep) + 1;
    assert p[..k] + p[k..] == p;
    assert k > 0 ==> p[..k][k - 1] == p[k - 1] == Sep;
  }

  /** The base name holds no separator. */
  lemma BaseNameHasNoSep(p: string)
    ensures Sep !in BaseName(p)
  {
    var b := BaseName(p);
    forall k | 0 <= k < |b| ensures b[k] != Sep {
      BaseNameAt(p, k);
    }
  }

  /**
    `splitext`'s test on the last dot: it lies after the last separator, and a
    character other than a dot stands between the two.
   */
  predicate NamedBeforeDot(p: string, sep: int, dot: int)
    requires -1 <= sep && dot < |p|
  {
    sep < dot && exists k :: sep < k < dot && p[k] != ExtSep
  }

  /**
    POSIX `os.path.splitext`: splits at the last dot when that dot lies in the
    last path component and some character other than a dot precedes it
    there; otherwise the extension is empty (so `.cbz` alone has none).
   */
  function SplitExt(p: string): (r: (string, string))
    ensures r.0 + r.1 == p
    ensures r.1 != [] ==> r.1[0] == ExtSep && ExtSep !in r.1[1..] && Sep !in r.1
  {
    var sep := RFind(p, Sep);
    var dot := RFind(p, ExtSep);
    if NamedBeforeDot(p, sep, dot) then
      assert p[..dot] + p[dot..] == p;
      (p[..dot], p[dot..])
    else
      assert p + [] == p;
      (p, [])
  }

  /** `b` holds a character other than a dot with a dot somewhere after it. */
  predicate DotAfterName(b: string)
  {
    exists i, j :: 0 <= i < j < |b| && b[i] != ExtSep && b[j] == ExtSep
  }

  /** Position `i` of the base name is position `RFind(p, Sep) + 1 + i` of the path. */
  lemma BaseNameAt(p: string, i: int)
    requires 0 <= i < |p| - RFind(p, Sep) - 1
    ensures |BaseName(p)| == |p| - RFind(p, Sep) - 1
    ensures BaseName(p)[i] == p[RFind(p, Sep) + 1 + i]
  {
  }

  /** A non-empty extension passes `splitext`'s test on the last dot. */
  lemma ExtensionIsNamed(p: string)
    requires SplitExt(p).1 != []
    ensures NamedBeforeDot(p, RFind(p, Sep), RFind(p, ExtSep))
  {
  }

  /** `splitext`'s test on the last dot yields a non-dot character and a later dot in the base name. */
  lemma NamedGivesWitness(p: string)
    requires NamedBeforeDot(p, RFind(p, Sep), RFind(p, ExtSep))
    ensures DotAfterName(BaseName(p))
  {
    var sep, dot := RFind(p, Sep), RFind(p, ExtSep);
    var k :| sep < k < dot && p[k] != ExtSep;
    WitnessInSuffix(p, sep, k, dot);
    assert BaseName(p) == p[sep + 1..];
  }

  /** A non-dot character followed by a dot after position `sep` stay in that order in the suffix after `sep`. */
  lemma WitnessInSuffix(p: string, sep: int, k: int, dot: int)
    requires -1 <= sep < k < dot < |p| && p[k] != ExtSep && p[dot] == ExtSep
    ensures DotAfterName(p[sep + 1..])
  {
    var b := p[sep + 1..];
    var i, j := k - sep - 1, dot - sep - 1;
    assert 0 <= i < j < |b| && b[i] != ExtSep && b[j] == ExtSep;
  }

  /** A non-empty extension comes with a non-dot character and a later dot in the base name. */
  lemma ExtensionHasWitness(p: string)
    requires SplitExt(p).1 != []
    ensures DotAfterName(BaseName(p))
  {
    ExtensionIsNamed(p);
    NamedGivesWitness(p);
  }

  /** The last dot lies at or after any dot of the base name. */
  lemma LastDotAfter(p: string, j: int)
    requires 0 <= j < |BaseName(p)| && BaseName(p)[j] == ExtSep
    ensures RFind(p, ExtSep) >= RFind(p, Sep) + 1 + j
  {
    assert BaseName(p)[j] == p[RFind(p, Sep) + 1 + j];
  }

  /** A non-dot character between the separator and the dot satisfies `splitext`'s test. */
  lemma NamedBeforeDotIntro(p: string, sep: int, dot: int, k: int)
    requires -1 <= sep < k < dot < |p| && p[k] != ExtSep
    ensures NamedBeforeDot(p, sep, dot)
  {
  }

  /** A non-dot character followed later by a dot in the base name gives a non-empty extension. */
  lemma WitnessGivesExtension(p: string, i: int, j: int)
    requires 0 <= i < j < |BaseName(p)| && BaseName(p)[i] != ExtSep && BaseName(p)[j] == ExtSep
    ensures NamedBeforeDot(p, RFind(p, Sep), RFind(p, ExtSep))
  {
    var sep := RFind(p, Sep);
    LastDotAfter(p, j);
    assert BaseName(p)[i] == p[sep + 1 + i];
    NamedBeforeDotIntro(p, sep, RFind(p, ExtSep), sep + 1 + i);
  }

  /**
    Independent description of when `SplitExt` finds an extension: exactly when
    the last component holds a dot with a non-dot character somewhere before it.
   */
  lemma SplitExtFindsExtension(p: string)
    ensures SplitExt(p).1 != [] <==>
      DotAfterName(BaseName(p))
  {
    if SplitExt(p).1 != [] {
      ExtensionHasWitness(p);
    }
    if DotAfterName(BaseName(p)) {
      var i, j :| 0 <= i < j < |BaseName(p)| && BaseName(p)[i] != ExtSep && BaseName(p)[j] == ExtSep;
      WitnessGivesExtension(p, i, j);
      assert SplitExt(p).1 == p[RFind(p, ExtSep)..];
    }
  }

  /** The ASCII lower-case of a character; every other character is unchanged. */
  function LowerChar(c: char): char
  {
    if 'A' <= c <= 'Z' then (c as int + 32) as char else c
  }

  /** `str.lower()` restricted to ASCII letters. */
  function Lower(s: string): (r: string)
    ensures |r| == |s|
    ensures forall i :: 0 <= i < |s| ==> r[i] == LowerChar(s[i])
    decreases |s|
  {
    if s == [] then [] else [LowerChar(s[0])] + Lower(s[1..])
  }

  /** The archive formats the repager tells apart by extension. */
  datatype Format = Zip | Rar | Unsupported

  /** The branch `delete_last_page` takes for a path, by its lower-cased extension. */
  function Classify(p: string): (r: Format)
    ensures r != Unsupported ==> |SplitExt(p).1| == 4 && SplitExt(p).1[0] == ExtSep
  {
    var e := Lower(SplitExt(p).1);
    if e == ".cbz" then Zip else if e == ".cbr" then Rar else Unsupported
  }

  /**
    `e` spells the lower-case extension `t` in any mix of cases: each position
    holds the character of `t` or, for a letter, its upper-case form.
   */
  predicate SpellsIgnoringCase(e: string, t: string)
  {
    |e| == |t| &&
    forall i :: 0 <= i < |t| ==>
      e[i] == t[i] || ('a' <= t[i] <= 'z' && e[i] as int == t[i] as int - 32)
  }

  lemma LowerIs(e: string, t: string)
    requires forall i :: 0 <= i < |t| ==> t[i] == '.' || 'a' <= t[i] <= 'z'
    ensures Lower(e) == t <==> SpellsIgnoringCase(e, t)
  {
    if SpellsIgnoringCase(e, t) {
      forall i | 0 <= i < |t| ensures Lower(e)[i] == t[i] {
        assert e[i] == t[i] || e[i] as int == t[i] as int - 32;
      }
    }
  }

  /**
    The classification is case-insensitive: a path is a ZIP (RAR) source
    exactly when its extension spells `.cbz` (`.cbr`) in any mix of cases, and
    every other extension, the empty one included, is unsupported.
   */
  lemma ClassifySpec(p: string)
    ensures Classify(p) == Zip <==> SpellsIgnoringCase(SplitExt(p).1, ".cbz")
    ensures Classify(p) == Rar <==> SpellsIgnoringCase(SplitExt(p).1, ".cbr")
    ensures Classify(p) == Unsupported <==>
      !SpellsIgnoringCase(SplitExt(p).1, ".cbz") && !SpellsIgnoringCase(SplitExt(p).1, ".cbr")
  {
    LowerIs(SplitExt(p).1, ".cbz");
    LowerIs(SplitExt(p).1, ".cbr");
  }

  /** Where the modified archive is written: the input path without its extension, plus `_modified.cbz`. */
  function OutputPath(p: string): (r: string)
    ensures |r| == |SplitExt(p).0| + 13 && r[..|SplitExt(p).0|] == SplitExt(p).0
    ensures r[|r| - 4..] == ".cbz"
  {
    SplitExt(p).0 + "_modified.cbz"
  }

  /**
    A stem ending in an ordinary character (neither a dot nor a separator)
    followed by a dot-led suffix without further dots or separators splits
    back into exactly that stem and suffix.
   */
  lemma SplitExtJoin(stem: string, ext: string)
    requires stem != [] && stem[|stem| - 1] != ExtSep && stem[|stem| - 1] != Sep
    requires ext != [] && ext[0] == ExtSep && ExtSep !in ext[1..] && Sep !in ext
    ensures SplitExt(stem + ext) == (stem, ext)
  {
    var q := stem + ext;
    var n := |stem|;
    assert q[n] == ExtSep && q[n - 1] == stem[n - 1];
    forall k | n < k < |q| ensures q[k] != ExtSep {
      assert q[k] == ext[1..][k - n - 1];
    }
    assert RFind(q, ExtSep) == n;
    RFindAppend(stem, ext, Sep);
    assert RFind(q, Sep) < n - 1;
    assert q[..n] == stem && q[n..] == ext;
  }

  /** The last dot of an output path is the one before `cbz`. */
  lemma OutputPathSplit(p: string)
    ensures SplitExt(OutputPath(p)) == (SplitExt(p).0 + "_modified", ".cbz")
  {
    var stem := SplitExt(p).0;
    assert OutputPath(p) == (stem + "_modified") + ".cbz";
    SplitExtJoin(stem + "_modified", ".cbz");
  }

  /** The output path lies in the input's directory. */
  lemma OutputPathSameDirectory(p: string)
    ensures DirPrefix(OutputPath(p)) == DirPrefix(p)
  {
    var stem, ext := SplitExt(p).0, SplitExt(p).1;
    RFindAppend(stem, "_modified.cbz", Sep);
    RFindAppend(stem, ext, Sep);
    var n := RFind(stem, Sep) + 1;
    assert OutputPath(p)[..n] == stem[..n] == p[..n];
  }

  /**
    The output path keeps the input's stem and directory, always carries the
    `.cbz` extension (so it is itself a ZIP source), and never names the input
    file of a supported format.
   */
  lemma OutputPathSpec(p: string)
    ensures SplitExt(OutputPath(p)) == (SplitExt(p).0 + "_modified", ".cbz")
    ensures Classify(OutputPath(p)) == Zip
    ensures DirPrefix(OutputPath(p)) == DirPrefix(p)
    ensures Classify(p) != Unsupported ==> OutputPath(p) != p
  {
    OutputPathSplit(p);
    assert Lower(".cbz") == ".cbz";
    OutputPathSameDirectory(p);
    if Classify(p) != Unsupported {
      assert |SplitExt(p).1| == 4;
      assert |OutputPath(p)| == |SplitExt(p).0| + 13;
    }
  }
}
