/**
 * File discovery: which paths of a directory tree are supported files,
 * and the loader that walks a directory, keeps the supported files,
 * fails when there are none and returns them sorted.
 *
 * The filesystem is a finite map from paths (sequences of name
 * components) to the kind of entry stored there.
 */
module FileLoader {
  import opened Wrappers
  import opened Text

  type Path = seq<string>

  datatype Node = File | Dir

  type FileSystem = map<Path, Node>

  /** The exceptions the loader raises. */
  datatype LoadError = FileNotFound | NotADirectory | NoFilesFound

  /** Extensions used when the caller supplies none. */
  const SupportedExts: set<string> := {".txt", ".pdf", ".jpg", ".jpeg", ".png"}

  /** `path.name`: the last component. */
  function Name(p: Path): string
  {
    if p == [] then "" else p[|p| - 1]
  }

  /**
   * `PurePath.suffix`: from the last dot of the name to its end, provided
   * that dot is neither the first nor the last character; otherwise empty.
   */
  function Suffix(name: string): (r: string)
    ensures r != [] ==> |r| >= 2 && |r| < |name| && EndsWith(name, r)
    ensures r != [] ==> r[0] == '.' && forall k :: 0 < k < |r| ==> r[k] != '.'
  {
    var i := RFind(name, '.');
    if 0 < i < |name| - 1 then name[i..] else ""
  }

  lemma LowerCharDot(c: char)
    ensures LowerChar(c) == '.' <==> c == '.'
  {
  }

  /** Lower-casing a name and taking its suffix can be done in either order. */
  lemma SuffixOfLower(name: string)
    ensures Lower(Suffix(name)) == Suffix(Lower(name))
  {
    var low := Lower(name);
    forall k | 0 <= k < |name|
      ensures low[k] == '.' <==> name[k] == '.'
    {
      LowerCharDot(name[k]);
    }
    RFindUnique(name, low, '.');
    var i := RFind(name, '.');
    if 0 < i < |name| - 1 {
      LowerDrop(name, i);
    }
  }

  /** `set(supported_exts) if supported_exts else SUPPORTED_EXTS` in `is_supported_file`. */
  function ExtSet(supported: Option<set<string>>): (r: set<string>)
    ensures r != {}
    ensures supported.Some? && supported.value != {} ==> r == supported.value
    ensures supported.None? || supported.value == {} ==> r == SupportedExts
  {
    match supported
    case None => SupportedExts
    case Some(exts) => if exts == {} then SupportedExts else exts
  }

  /** The set the loader builds: the caller's extensions lower-cased, or the defaults. */
  function LoaderExts(supported: Option<set<string>>): (r: set<string>)
    ensures r != {}
  {
    match supported
    case None => SupportedExts
    case Some(exts) =>
      if exts == {} then SupportedExts
      else
        var e :| e in exts;
        var lowered := set x | x in exts :: Lower(x);
        assert Lower(e) in lowered;
        lowered
  }

  /** `is_supported_file`: a regular file whose lower-cased suffix is listed. */
  predicate IsSupportedFile(fs: FileSystem, p: Path, supported: Option<set<string>>)
  {
    if p !in fs || !fs[p].File? then false
    else Lower(Suffix(Name(p))) in ExtSet(supported)
  }

  /** A supported file is a regular file whose lower-cased name ends with one of the extensions. */
  lemma SupportedFileEndsWithExtension(fs: FileSystem, p: Path, supported: Option<set<string>>)
    requires IsSupportedFile(fs, p, supported)
    ensures p in fs && fs[p].File?
    ensures exists e :: e in ExtSet(supported) && EndsWith(Lower(Name(p)), e)
  {
    var low := Lower(Name(p));
    SuffixOfLower(Name(p));
    var e := Suffix(low);
    assert e in ExtSet(supported);
    if e == [] {
      assert low[|low|..] == e;
    }
    assert EndsWith(low, e);
  }

  /** A name ending in a dotted extension has that extension as its suffix, unless nothing precedes it. */
  lemma SuffixOfDottedEnding(name: string, ext: string)
    requires |ext| >= 2 && ext[0] == '.' && forall k :: 0 < k < |ext| ==> ext[k] != '.'
    requires EndsWith(name, ext)
    ensures Suffix(name) == if |name| > |ext| then ext else ""
  {
    var d := |name| - |ext|;
    assert name[d] == ext[0];
    forall k | d < k < |name|
      ensures name[k] != '.'
    {
      assert name[k] == ext[k - d];
    }
    assert RFind(name, '.') == d;
  }

  /** A name whose suffix is one of the defaults does not end in ".csv", in any letter case. */
  lemma DefaultSuffixIsNotCsv(name: string)
    requires Lower(Suffix(name)) in SupportedExts
    ensures !EndsWith(Lower(name), ".csv")
  {
    var ext := ".csv";
    assert ext !in SupportedExts && "" !in SupportedExts;
    if EndsWith(Lower(name), ext) {
      assert |ext| == 4 && ext[0] == '.' && ext[1] == 'c' && ext[2] == 's' && ext[3] == 'v';
      SuffixOfDottedEnding(Lower(name), ext);
      SuffixOfLower(name);
    }
  }

  /** With no extensions, or an empty collection of them, both functions use the defaults. */
  lemma DefaultExtensions()
    ensures ExtSet(None) == ExtSet(Some({})) == SupportedExts
    ensures LoaderExts(None) == LoaderExts(Some({})) == SupportedExts
  {
  }

  /** A directory is never a supported file, whatever its name. */
  lemma DirectoryNeverSupported(fs: FileSystem, p: Path, supported: Option<set<string>>)
    requires p in fs && fs[p].Dir?
    ensures !IsSupportedFile(fs, p, supported)
  {
  }

  /** Two files whose names differ only in letter case get the same verdict. */
  lemma SupportIgnoresNameCase(fs: FileSystem, p: Path, q: Path, supported: Option<set<string>>)
    requires p in fs && fs[p].File? && q in fs && fs[q].File?
    requires Lower(Name(p)) == Lower(Name(q))
    ensures IsSupportedFile(fs, p, supported) == IsSupportedFile(fs, q, supported)
  {
    SuffixOfLower(Name(p));
    SuffixOfLower(Name(q));
  }

  /**
   * In the loader, a file matches iff its suffix equals one of the given
   * extensions up to letter case.
   */
  lemma LoaderMatchIgnoresCase(fs: FileSystem, p: Path, exts: set<string>)
    requires exts != {} && p in fs && fs[p].File?
    ensures IsSupportedFile(fs, p, Some(LoaderExts(Some(exts))))
            <==> exists e :: e in exts && Lower(e) == Lower(Suffix(Name(p)))
  {
  }

  /**
   * Called directly, `is_supported_file` does not lower-case the given
   * extensions, so an extension with an upper-case letter never matches.
   */
  lemma UpperCaseExtensionsNeverMatch(fs: FileSystem, p: Path, exts: set<string>)
    requires exts != {} && forall e :: e in exts ==> Lower(e) != e
    ensures !IsSupportedFile(fs, p, Some(exts))
  {
    LowerIdempotent(Suffix(Name(p)));
  }

  /** `p` is reached from `dir` by `rglob("*")` (any depth) or `iterdir()` (one level). */
  predicate Under(dir: Path, p: Path, recursive: bool)
  {
    |dir| < |p| && p[..|dir|] == dir && (recursive || |p| == |dir| + 1)
  }

  /** Everything the directory walk enumerates. */
  function Candidates(fs: FileSystem, dir: Path, recursive: bool): set<Path>
  {
    set p | p in fs && Under(dir, p, recursive)
  }

  /** The entries the walk keeps. */
  function Matched(fs: FileSystem, dir: Path, recursive: bool, exts: set<string>): set<Path>
  {
    set p | p in Candidates(fs, dir, recursive) && IsSupportedFile(fs, p, Some(exts))
  }

  /** Every match is a regular file under the directory with a listed suffix. */
  lemma MatchedAreSupportedFiles(fs: FileSystem, dir: Path, recursive: bool, exts: set<string>, p: Path)
    requires p in Matched(fs, dir, recursive, exts)
    ensures p in fs && fs[p].File? && Under(dir, p, recursive) && Lower(Suffix(Name(p))) in ExtSet(Some(exts))
  {
  }

  /** The flat walk keeps a subset of what the recursive walk keeps: its entries one level down. */
  lemma FlatWithinRecursive(fs: FileSystem, dir: Path, exts: set<string>)
    ensures Matched(fs, dir, false, exts) <= Matched(fs, dir, true, exts)
    ensures Matched(fs, dir, false, exts) == set p | p in Matched(fs, dir, true, exts) && |p| == |dir| + 1
  {
  }

  /** `p <= q` on paths: component-wise lexicographic order. */
  predicate PathLe(p: Path, q: Path)
  {
    LexLe(p, q, StrLt)
  }

  predicate Sorted(s: seq<Path>)
  {
    forall k, l :: 0 <= k < l < |s| ==> PathLe(s[k], s[l])
  }

  lemma PathLeTotal(p: Path, q: Path)
    ensures PathLe(p, q) || PathLe(q, p)
  {
    StrLtStrictTotal();
    LexTotal(p, q, StrLt);
  }

  lemma PathLeTransitive(p: Path, q: Path, r: Path)
    requires PathLe(p, q) && PathLe(q, r)
    ensures PathLe(p, r)
  {
    StrLtStrictTotal();
    LexTransitive(p, q, r, StrLt);
  }

  lemma PathLeAntisymmetric(p: Path, q: Path)
    requires PathLe(p, q) && PathLe(q, p)
    ensures p == q
  {
    StrLtStrictTotal();
    LexAntisymmetric(p, q, StrLt);
  }

  /** No element occurs twice. */
  predicate Distinct<T(==)>(s: seq<T>)
  {
    forall k, l :: 0 <= k < l < |s| ==> s[k] != s[l]
  }

  lemma {:induction false} DistinctCountsOnce<T>(s: seq<T>, x: T)
    requires Distinct(s)
    ensures multiset(s)[x] <= 1
  {
    if s != [] {
      var n := |s| - 1;
      assert s == s[..n] + [s[n]];
      assert Distinct(s[..n]);
      DistinctCountsOnce(s[..n], x);
      if x == s[n] {
        assert x !in s[..n];
      }
    }
  }

  /** A permutation of a duplicate-free sequence is duplicate-free. */
  lemma DistinctPermutation<T>(a: seq<T>, b: seq<T>)
    requires Distinct(a) && multiset(a) == multiset(b)
    ensures Distinct(b)
  {
    forall k, l | 0 <= k < l < |b|
      ensures b[k] != b[l]
    {
      var x := b[k];
      assert b == b[..l] + [b[l]] + b[l + 1..];
      assert x in b[..l];
      assert multiset(b)[x] >= 1 + (if b[l] == x then 1 else 0);
      DistinctCountsOnce(a, x);
    }
  }

  /**
   * Two sorted, duplicate-free lists holding the same paths are equal:
   * the sorted result does not depend on the order of the walk.
   */
  lemma {:induction false} SortedDistinctUnique(a: seq<Path>, b: seq<Path>)
    requires Sorted(a) && Sorted(b) && Distinct(a) && Distinct(b)
    requires forall p :: p in a <==> p in b
    ensures a == b
    decreases |a|
  {
    assert a != [] ==> a[0] in a;
    assert b != [] ==> b[0] in b;
    if a != [] && b != [] {
      var k :| 0 <= k < |a| && a[k] == b[0];
      var m :| 0 <= m < |b| && b[m] == a[0];
      if k > 0 { assert PathLe(a[0], a[k]); } else { PathLeReflexive(a[0]); }
      if m > 0 { assert PathLe(b[0], b[m]); } else { PathLeReflexive(b[0]); }
      PathLeAntisymmetric(a[0], b[0]);
      forall p
        ensures p in a[1..] <==> p in b[1..]
      {
        if p in a[1..] {
          var i :| 1 <= i < |a| && a[i] == p;
          assert p in a && p != a[0];
        }
        if p in b[1..] {
          var i :| 1 <= i < |b| && b[i] == p;
          assert p in b && p != b[0];
        }
      }
      SortedDistinctUnique(a[1..], b[1..]);
      assert a == [a[0]] + a[1..] && b == [b[0]] + b[1..];
    }
  }

  lemma PathLeReflexive(p: Path)
    ensures PathLe(p, p)
  {
    PathLeTotal(p, p);
  }

  method Swap(a: array<Path>, i: int, j: int)
    requires 0 <= i < j < a.Length
    modifies a
    ensures a[i] == old(a[j]) && a[j] == old(a[i])
    ensures forall m :: 0 <= m < a.Length && m != i && m != j ==> a[m] == old(a[m])
    ensures multiset(a[..]) == old(multiset(a[..]))
  {
    a[i], a[j] := a[j], a[i];
  }

  /** `files.sort()`: insertion sort in place. */
  method SortPaths(a: array<Path>)
    modifies a
    ensures Sorted(a[..])
    ensures multiset(a[..]) == old(multiset(a[..]))
  {
    if a.Length < 2 {
      return;
    }
    var i := 1;
    while i < a.Length
      invariant 1 <= i <= a.Length
      invariant forall k, l :: 0 <= k < l < i ==> PathLe(a[k], a[l])
      invariant multiset(a[..]) == old(multiset(a[..]))
    {
      var j := i;
      while j > 0 && !PathLe(a[j - 1], a[j])
        invariant 0 <= j <= i
        invariant forall k, l :: 0 <= k < l <= i && k != j && l != j ==> PathLe(a[k], a[l])
        invariant forall l :: j < l <= i ==> PathLe(a[j], a[l])
        invariant multiset(a[..]) == old(multiset(a[..]))
      {
        PathLeTotal(a[j - 1], a[j]);
        Swap(a, j - 1, j);
        j := j - 1;
      }
      forall k | 0 <= k < j
        ensures PathLe(a[k], a[j])
      {
        if k < j - 1 {
          PathLeTransitive(a[k], a[j - 1], a[j]);
        }
      }
      i := i + 1;
    }
  }

  /** The supported files among `pending`. */
  function Keep(fs: FileSystem, pending: set<Path>, exts: set<string>): set<Path>
  {
    set p | p in pending && IsSupportedFile(fs, p, Some(exts))
  }

  /**
   * The walk's loop: every enumerated entry that `is_supported_file`
   * accepts is appended, in whatever order the walk produces them.
   */
  method CollectSupported(fs: FileSystem, entries: set<Path>, exts: set<string>) returns (files: seq<Path>)
    ensures |files| == |Keep(fs, entries, exts)|
    ensures forall p :: p in files <==> p in Keep(fs, entries, exts)
    ensures Distinct(files)
  {
    files := [];
    var pending := entries;
    ghost var found: set<Path> := {};
    while pending != {}
      invariant pending <= entries
      invariant found == Keep(fs, entries, exts) - pending
      invariant |files| == |found| && forall p :: p in files <==> p in found
      invariant Distinct(files)
      decreases |pending|
    {
      var fp :| fp in pending;
      KeepStep(fs, entries, pending, fp, exts);
      if IsSupportedFile(fs, fp, Some(exts)) {
        AppendNew(files, found, fp);
        files := files + [fp];
        found := found + {fp};
      }
      pending := pending - {fp};
    }
  }

  /** Appending a path not yet listed keeps the list an enumeration, without duplicates, of the set it lists. */
  lemma AppendNew(files: seq<Path>, found: set<Path>, fp: Path)
    requires |files| == |found| && forall p :: p in files <==> p in found
    requires Distinct(files) && fp !in found
    ensures |files + [fp]| == |found + {fp}|
    ensures forall p :: p in files + [fp] <==> p in found + {fp}
    ensures Distinct(files + [fp])
  {
  }

  /** Taking `fp` off the pending entries adds it to the kept ones iff it is supported. */
  lemma KeepStep(fs: FileSystem, entries: set<Path>, pending: set<Path>, fp: Path, exts: set<string>)
    requires fp in pending
    ensures fp !in Keep(fs, entries, exts) - pending
    ensures Keep(fs, entries, exts) - (pending - {fp})
            == (Keep(fs, entries, exts) - pending) + (if fp in entries && IsSupportedFile(fs, fp, Some(exts)) then {fp} else {})
  {
  }

  /**
   * `load_files_from_directory`: the existence check, then the directory
   * check, then the walk (in an unspecified order), the empty-result
   * check and the sort.
   */
  method LoadFilesFromDirectory(fs: FileSystem, dir: Path, recursive: bool, supported: Option<set<string>>)
    returns (r: Result<seq<Path>, LoadError>)
    ensures dir !in fs ==> r == Failure(FileNotFound)
    ensures dir in fs && fs[dir].File? ==> r == Failure(NotADirectory)
    ensures dir in fs && fs[dir].Dir? ==>
              var matched := Matched(fs, dir, recursive, LoaderExts(supported));
              if matched == {} then r == Failure(NoFilesFound)
              else r.Success? && |r.value| == |matched| && (forall p :: p in r.value <==> p in matched)
                   && Sorted(r.value) && Distinct(r.value)
  {
    if dir !in fs {
      return Failure(FileNotFound);
    }
    if !fs[dir].Dir? {
      return Failure(NotADirectory);
    }
    var exts := LoaderExts(supported);
    var files := CollectSupported(fs, Candidates(fs, dir, recursive), exts);
    assert Keep(fs, Candidates(fs, dir, recursive), exts) == Matched(fs, dir, recursive, exts);
    if files == [] {
      return Failure(NoFilesFound);
    }
    var a := new Path[|files|](i requires 0 <= i < |files| => files[i]);
    assert a[..] == files;
    SortPaths(a);
    assert forall p :: p in a[..] <==> p in multiset(a[..]);
    DistinctPermutation(files, a[..]);
    r := Success(a[..]);
  }
}
