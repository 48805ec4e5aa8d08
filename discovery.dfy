/**
 * Package-name normalisation and the discovery of PO files inside an
 * installed package (translation_utilities/discovery.py).
 */
module Discovery {
  import opened Wrappers
  import opened Strings
  import opened Sorting

  /** `package_name.replace("-", "_")`: every '-' becomes '_', nothing else moves. */
  function Normalize(name: string): (r: string)
    ensures |r| == |name|
    ensures forall k :: 0 <= k < |name| ==> r[k] == (if name[k] == '-' then '_' else name[k])
  {
    if name == [] then [] else [if name[0] == '-' then '_' else name[0]] + Normalize(name[1..])
  }

  /** A normalised name holds no '-'. */
  lemma NormalizeHasNoDash(name: string)
    ensures '-' !in Normalize(name)
  {
    var r := Normalize(name);
    forall k | 0 <= k < |r| ensures r[k] != '-' {
    }
  }

  /** A name without '-' is already normalised. */
  lemma {:induction false} NormalizeKeepsDashless(name: string)
    requires '-' !in name
    ensures Normalize(name) == name
  {
    var r := Normalize(name);
    forall k | 0 <= k < |name| ensures r[k] == name[k] {
      assert name[k] in name;
    }
  }

  /** Normalising twice is normalising once. */
  lemma NormalizeIdempotent(name: string)
    ensures Normalize(Normalize(name)) == Normalize(name)
  {
    NormalizeHasNoDash(name);
    NormalizeKeepsDashless(Normalize(name));
  }

  // ---------------------------------------------------------------------
  // An abstract directory tree standing for the file system under a package.

  /** A path as its list of components (`Path("a") / "b"` is `["a", "b"]`). */
  type Path = seq<string>

  datatype Kind = Directory | RegularFile

  /** The nodes that exist, each a directory or a regular file. */
  datatype FileSystem = FileSystem(nodes: map<Path, Kind>)

  predicate Exists(fs: FileSystem, p: Path) {
    p in fs.nodes
  }

  predicate IsDir(fs: FileSystem, p: Path) {
    p in fs.nodes && fs.nodes[p] == Directory
  }

  /** The names `iterdir()` lists in `dir`. */
  function Children(fs: FileSystem, dir: Path): (names: set<string>)
    ensures forall n :: n in names <==> Exists(fs, dir + [n])
  {
    var names := set p | p in fs.nodes.Keys && |p| == |dir| + 1 && p[..|dir|] == dir :: p[|dir|];
    forall n ensures n in names <==> Exists(fs, dir + [n]) {
      if n in names {
        var p :| p in fs.nodes.Keys && |p| == |dir| + 1 && p[..|dir|] == dir && p[|dir|] == n;
        assert p == dir + [n];
      }
      if Exists(fs, dir + [n]) {
        assert (dir + [n])[..|dir|] == dir;
      }
    }
    names
  }

  /** `<base>/<locale>/LC_MESSAGES/messages.po`. */
  function PoPath(base: Path, locale: string): Path {
    base + [locale, "LC_MESSAGES", "messages.po"]
  }

  /** `<root>/translations`, then `<root>/<module>/translations`. */
  function CandidateBases(root: Path, packageName: string): seq<Path> {
    [root + ["translations"], root + [Normalize(packageName), "translations"]]
  }

  /** Whether `locale`, listed in `base`, yields a pair: a directory holding the PO file. */
  predicate IsHit(fs: FileSystem, base: Path, locale: string) {
    IsDir(fs, base + [locale]) && Exists(fs, PoPath(base, locale))
  }

  /** The pairs yielded for the locale names `names`, visited in the given order. */
  function Hits(fs: FileSystem, base: Path, names: seq<string>): seq<(string, Path)>
  {
    if names == [] then []
    else
      var last := names[|names| - 1];
      Hits(fs, base, names[..|names| - 1]) + (if IsHit(fs, base, last) then [(last, PoPath(base, last))] else [])
  }

  /**
   * What scanning one base gives: nothing when it does not exist, a failure
   * (`iterdir()` raises) when it is not a directory, otherwise the hits among
   * its entries visited in sorted order.
   */
  ghost function ScanBase(fs: FileSystem, base: Path): Option<seq<(string, Path)>> {
    if !Exists(fs, base) then Some([])
    else if !IsDir(fs, base) then None
    else Some(Hits(fs, base, SortedListing(Children(fs, base))))
  }

  /** The whole generator: both candidate bases in order; `None` when it raises. */
  ghost function PoFiles(fs: FileSystem, root: Path, packageName: string): Option<seq<(string, Path)>> {
    var bases := CandidateBases(root, packageName);
    match ScanBase(fs, bases[0])
    case None => None
    case Some(first) =>
      match ScanBase(fs, bases[1])
      case None => None
      case Some(second) => Some(first + second)
  }

  /** One candidate base of `find_po_files`: its sorted locale directories holding the PO file. */
  method ScanCandidate(fs: FileSystem, base: Path) returns (r: Option<seq<(string, Path)>>)
    ensures r == ScanBase(fs, base)
  {
    if !Exists(fs, base) {
      return Some([]);
    }
    if !IsDir(fs, base) {
      return None;
    }
    var names := SortStrings(Children(fs, base));
    var found: seq<(string, Path)> := [];
    for i := 0 to |names|
      invariant found == Hits(fs, base, names[..i])
    {
      HitsSnoc(fs, base, names, i);
      if IsDir(fs, base + [names[i]]) {
        var poPath := PoPath(base, names[i]);
        if Exists(fs, poPath) {
          found := found + [(names[i], poPath)];
        }
      }
    }
    assert names[..|names|] == names;
    return Some(found);
  }

  /** One more name: the hits of the longer prefix. */
  lemma HitsSnoc(fs: FileSystem, base: Path, names: seq<string>, i: nat)
    requires i < |names|
    ensures Hits(fs, base, names[..i + 1])
            == Hits(fs, base, names[..i]) + (if IsHit(fs, base, names[i]) then [(names[i], PoPath(base, names[i]))] else [])
  {
    assert names[..i + 1][..i] == names[..i];
  }

  /** `find_po_files` drawn to completion (`None` when it raises). */
  method FindPoFiles(fs: FileSystem, root: Path, packageName: string) returns (r: Option<seq<(string, Path)>>)
    ensures r == PoFiles(fs, root, packageName)
  {
    var candidates := CandidateBases(root, packageName);
    var pairs: seq<(string, Path)> := [];
    for c := 0 to |candidates|
      invariant c == 0 ==> pairs == []
      invariant c == 1 ==> ScanBase(fs, candidates[0]) == Some(pairs)
      invariant c == 2 ==> PoFiles(fs, root, packageName) == Some(pairs)
    {
      var found := ScanCandidate(fs, candidates[c]);
      if found.None? {
        return None;
      }
      assert c == 0 ==> pairs + found.value == found.value;
      pairs := pairs + found.value;
    }
    r := Some(pairs);
  }

  // ---------------------------------------------------------------------
  // Properties of the pairs found.

  lemma {:induction false} HitsShape(fs: FileSystem, base: Path, names: seq<string>, k: nat)
    requires k < |Hits(fs, base, names)|
    ensures var (l, p) := Hits(fs, base, names)[k]; l in names && p == PoPath(base, l) && IsHit(fs, base, l)
  {
    var init := names[..|names| - 1];
    if k < |Hits(fs, base, init)| {
      HitsShape(fs, base, init, k);
      var l := Hits(fs, base, init)[k].0;
      assert l in init;
      var j :| 0 <= j < |init| && init[j] == l;
      assert names[j] == l;
    }
  }

  lemma {:induction false} HitsComplete(fs: FileSystem, base: Path, names: seq<string>, l: string)
    requires l in names && IsHit(fs, base, l)
    ensures (l, PoPath(base, l)) in Hits(fs, base, names)
  {
    var init := names[..|names| - 1];
    if l != names[|names| - 1] {
      var j :| 0 <= j < |names| && names[j] == l;
      assert init[j] == l;
      HitsComplete(fs, base, init, l);
    }
  }

  lemma {:induction false} HitsSorted(fs: FileSystem, base: Path, names: seq<string>)
    requires StrictlySorted(names)
    ensures var h := Hits(fs, base, names); forall i, j :: 0 <= i < j < |h| ==> LexLess(h[i].0, h[j].0)
  {
    if names != [] {
      var init := names[..|names| - 1];
      var last := names[|names| - 1];
      HitsSorted(fs, base, init);
      var h0 := Hits(fs, base, init);
      forall i | 0 <= i < |h0| ensures LexLess(h0[i].0, last) {
        HitsShape(fs, base, init, i);
        var j :| 0 <= j < |init| && init[j] == h0[i].0;
        assert names[j] == h0[i].0;
      }
    }
  }

  /**
   * Every pair `(l, p)` found names a locale directory `l` of one of the two
   * candidate bases, that base exists as a directory, and `p` is the
   * existing `<base>/l/LC_MESSAGES/messages.po`.
   */
  lemma PoFilesShape(fs: FileSystem, root: Path, packageName: string, k: nat)
    requires PoFiles(fs, root, packageName).Some?
    requires k < |PoFiles(fs, root, packageName).value|
    ensures var (l, p) := PoFiles(fs, root, packageName).value[k];
      exists b :: b in CandidateBases(root, packageName) && IsDir(fs, b) && p == PoPath(b, l) && IsHit(fs, b, l)
  {
    var bases := CandidateBases(root, packageName);
    var first := ScanBase(fs, bases[0]).value;
    var r := PoFiles(fs, root, packageName).value;
    if k < |first| {
      HitsShape(fs, bases[0], SortedListing(Children(fs, bases[0])), k);
      assert r[k] == first[k];
    } else {
      var second := ScanBase(fs, bases[1]).value;
      HitsShape(fs, bases[1], SortedListing(Children(fs, bases[1])), k - |first|);
      assert r[k] == second[k - |first|];
    }
  }

  /** Every locale directory of a candidate base that holds the PO file is found. */
  lemma PoFilesComplete(fs: FileSystem, root: Path, packageName: string, b: Path, l: string)
    requires PoFiles(fs, root, packageName).Some?
    requires b in CandidateBases(root, packageName) && IsDir(fs, b) && IsHit(fs, b, l)
    ensures (l, PoPath(b, l)) in PoFiles(fs, root, packageName).value
  {
    var bases := CandidateBases(root, packageName);
    assert Exists(fs, b + [l]);
    HitsComplete(fs, b, SortedListing(Children(fs, b)), l);
  }

  /** The pairs of one base: paths three components longer than the base, locales increasing. */
  lemma {:induction false} ScanBaseShape(fs: FileSystem, base: Path)
    requires ScanBase(fs, base).Some?
    ensures var h := ScanBase(fs, base).value;
      (forall k :: 0 <= k < |h| ==> |h[k].1| == |base| + 3)
      && (forall i, j :: 0 <= i < j < |h| ==> LexLess(h[i].0, h[j].0))
  {
    if IsDir(fs, base) {
      var names := SortedListing(Children(fs, base));
      HitsSorted(fs, base, names);
      forall k | 0 <= k < |Hits(fs, base, names)| ensures |Hits(fs, base, names)[k].1| == |base| + 3 {
        HitsShape(fs, base, names, k);
      }
    }
  }

  /** Two runs, the first of shorter paths, each sorted by locale, joined. */
  lemma ConcatOrdered(first: seq<(string, Path)>, second: seq<(string, Path)>, n: nat)
    requires forall k :: 0 <= k < |first| ==> |first[k].1| == n
    requires forall k :: 0 <= k < |second| ==> |second[k].1| == n + 1
    requires forall i, j :: 0 <= i < j < |first| ==> LexLess(first[i].0, first[j].0)
    requires forall i, j :: 0 <= i < j < |second| ==> LexLess(second[i].0, second[j].0)
    ensures var r := first + second;
      forall i, j :: 0 <= i < j < |r| ==>
        |r[i].1| <= |r[j].1| && (|r[i].1| == |r[j].1| ==> LexLess(r[i].0, r[j].0))
  {
    var r := first + second;
    forall i, j | 0 <= i < j < |r|
      ensures |r[i].1| <= |r[j].1| && (|r[i].1| == |r[j].1| ==> LexLess(r[i].0, r[j].0))
    {
      if j < |first| {
        assert r[i] == first[i] && r[j] == first[j];
      } else if i >= |first| {
        assert r[i] == second[i - |first|] && r[j] == second[j - |first|];
      } else {
        assert r[i] == first[i] && r[j] == second[j - |first|];
      }
    }
  }

  /**
   * Order: pairs of `<root>/translations` (the shorter paths) come before those
   * of `<root>/<module>/translations`, and within one base the locales are
   * strictly increasing.
   */
  lemma PoFilesOrdered(fs: FileSystem, root: Path, packageName: string)
    requires PoFiles(fs, root, packageName).Some?
    ensures var r := PoFiles(fs, root, packageName).value;
      forall i, j :: 0 <= i < j < |r| ==>
        |r[i].1| <= |r[j].1| && (|r[i].1| == |r[j].1| ==> LexLess(r[i].0, r[j].0))
  {
    var bases := CandidateBases(root, packageName);
    var first := ScanBase(fs, bases[0]);
    var second := ScanBase(fs, bases[1]);
    assert first.Some? && second.Some?;
    assert PoFiles(fs, root, packageName).value == first.value + second.value;
    ScanBaseShape(fs, bases[0]);
    ScanBaseShape(fs, bases[1]);
    assert |bases[0]| == |root| + 1 && |bases[1]| == |root| + 2;
    ConcatOrdered(first.value, second.value, |root| + 4);
  }

  // ---------------------------------------------------------------------
  // Locating an installed package.

  /**
   * What the import system reports: for each module name it can find,
   * the module's `submodule_search_locations` (empty for a plain module).
   */
  type ModuleIndex = map<string, seq<Path>>

  /**
   * `find_package_path(package_name)`: the first search location of the
   * normalised module, or nothing when the module is unknown or is not a
   * package.
   */
  function FindPackagePath(index: ModuleIndex, packageName: string): (r: Option<Path>)
    ensures r.None? <==> Normalize(packageName) !in index || index[Normalize(packageName)] == []
    ensures r.Some? ==> r.value == index[Normalize(packageName)][0]
  {
    var moduleName := Normalize(packageName);
    if moduleName !in index || index[moduleName] == [] then None
    else Some(index[moduleName][0])
  }

  /** Two spellings that normalise alike (`a-b`, `a_b`) find the same package. */
  lemma FindPackagePathByModule(index: ModuleIndex, p: string, q: string)
    requires Normalize(p) == Normalize(q)
    ensures FindPackagePath(index, p) == FindPackagePath(index, q)
  {
  }
}
