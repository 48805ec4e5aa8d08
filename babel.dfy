/**
 * babel.py: the translation-directory registry `MultidirDomain` and the
 * `set_locale` context manager.  The file system and the installed entry
 * points are a `World` value; a raised `RuntimeError` is an `ok == false`
 * result.
 */
module Babel {
  import opened Wrappers

  /** What the domain can see outside itself. */
  datatype World = World(
    /** The paths `os.path.exists` accepts. */
    paths: set<string>,
    /** For each entry-point group, the module names of its entry points in iteration order. */
    entryPoints: map<string, seq<string>>,
    /**
     * For each module that has a `translations` resource directory, the
     * directory `resource_filename` gives.
     */
    translationsDirs: map<string, string>)

  /** A world where every module's `translations` directory exists. */
  predicate WellFormed(world: World) {
    forall m :: m in world.translationsDirs ==> world.translationsDirs[m] in world.paths
  }

  /** The entry-point modules of `group`; an unknown group has none. */
  function EntryModules(world: World, group: string): seq<string> {
    if group in world.entryPoints then world.entryPoints[group] else []
  }

  /** The directories `add_entrypoint` registers for the modules `mods`, in order. */
  function EntrypointDirs(world: World, mods: seq<string>): seq<string> {
    if mods == [] then []
    else
      var last := mods[|mods| - 1];
      EntrypointDirs(world, mods[..|mods| - 1])
        + (if last in world.translationsDirs then [world.translationsDirs[last]] else [])
  }

  // ---------------------------------------------------------------------
  // The reference definition: registering directories one by one.

  /**
   * `add_path` for each of `xs` in turn, starting from `dirs`: the list
   * afterwards, and whether every call returned (the first missing path
   * raises and stops the rest).
   */
  function Register(dirs: seq<string>, xs: seq<string>, paths: set<string>): (seq<string>, bool) {
    if xs == [] then (dirs, true)
    else
      var (d, ok) := Register(dirs, xs[..|xs| - 1], paths);
      var last := xs[|xs| - 1];
      if !ok then (d, false)
      else if last in paths then (d + [last], true)
      else (d, false)
  }

  /**
   * Registration succeeds exactly when every path exists, and then appends
   * them all in order; otherwise it stops at the first missing path, with
   * only the paths before it appended.
   */
  lemma {:induction false} RegisterSpec(dirs: seq<string>, xs: seq<string>, paths: set<string>)
    ensures var (d, ok) := Register(dirs, xs, paths);
      (ok <==> forall k :: 0 <= k < |xs| ==> xs[k] in paths)
      && (ok ==> d == dirs + xs)
      && (!ok ==> exists k :: 0 <= k < |xs| && xs[k] !in paths
                    && (forall j :: 0 <= j < k ==> xs[j] in paths) && d == dirs + xs[..k])
  {
    if xs != [] {
      var init := xs[..|xs| - 1];
      RegisterSpec(dirs, init, paths);
      var (d0, ok0) := Register(dirs, init, paths);
      if ok0 {
        assert forall k :: 0 <= k < |init| ==> xs[k] == init[k];
        if xs[|xs| - 1] in paths {
          assert init + [xs[|xs| - 1]] == xs;
        } else {
          assert xs[..|xs| - 1] == init;
        }
      } else {
        var k :| 0 <= k < |init| && init[k] !in paths
          && (forall j :: 0 <= j < k ==> init[j] in paths) && d0 == dirs + init[..k];
        assert xs[k] == init[k] && xs[..k] == init[..k];
        assert forall j :: 0 <= j < k ==> xs[j] == init[j];
      }
    }
  }

  /** One more path: the registration of the longer prefix. */
  lemma RegisterSnoc(dirs: seq<string>, xs: seq<string>, paths: set<string>, i: nat)
    requires i < |xs|
    ensures Register(dirs, xs[..i + 1], paths) ==
      var (d, ok) := Register(dirs, xs[..i], paths);
      if !ok then (d, false) else if xs[i] in paths then (d + [xs[i]], true) else (d, false)
  {
    assert xs[..i + 1][..i] == xs[..i];
  }

  /** Registering `a` then `b` is registering `a + b`; a failure in `a` skips `b`. */
  lemma {:induction false} RegisterAppend(dirs: seq<string>, a: seq<string>, b: seq<string>, paths: set<string>)
    ensures Register(dirs, a + b, paths) ==
      var (d, ok) := Register(dirs, a, paths); if ok then Register(d, b, paths) else (d, false)
    decreases |b|
  {
    if b == [] {
      assert a + b == a;
    } else {
      var b0 := b[..|b| - 1];
      assert (a + b)[..|a + b| - 1] == a + b0;
      assert (a + b)[|a + b| - 1] == b[|b| - 1];
      RegisterAppend(dirs, a, b0, paths);
    }
  }

  /** The directories of a list of modules, split anywhere, are the directories of the parts. */
  lemma {:induction false} EntrypointDirsAppend(world: World, a: seq<string>, b: seq<string>)
    ensures EntrypointDirs(world, a + b) == EntrypointDirs(world, a) + EntrypointDirs(world, b)
    decreases |b|
  {
    if b == [] {
      assert a + b == a;
    } else {
      var b0 := b[..|b| - 1];
      assert (a + b)[..|a + b| - 1] == a + b0;
      assert (a + b)[|a + b| - 1] == b[|b| - 1];
      EntrypointDirsAppend(world, a, b0);
    }
  }

  /** In a well-formed world every entry-point directory exists, so `add_entrypoint` never raises. */
  lemma {:induction false} EntrypointDirsExist(world: World, mods: seq<string>)
    requires WellFormed(world)
    ensures forall k :: 0 <= k < |EntrypointDirs(world, mods)| ==> EntrypointDirs(world, mods)[k] in world.paths
  {
    if mods != [] {
      EntrypointDirsExist(world, mods[..|mods| - 1]);
    }
  }

  /** Exactly the modules with a `translations` directory contribute, each its own directory. */
  lemma {:induction false} EntrypointDirsMembership(world: World, mods: seq<string>, d: string)
    ensures d in EntrypointDirs(world, mods) <==>
      exists i :: 0 <= i < |mods| && mods[i] in world.translationsDirs && world.translationsDirs[mods[i]] == d
  {
    if mods != [] {
      var init := mods[..|mods| - 1];
      EntrypointDirsMembership(world, init, d);
      if exists i :: 0 <= i < |init| && init[i] in world.translationsDirs && world.translationsDirs[init[i]] == d {
        var i :| 0 <= i < |init| && init[i] in world.translationsDirs && world.translationsDirs[init[i]] == d;
        assert mods[i] == init[i];
      }
      if exists i :: 0 <= i < |mods| && mods[i] in world.translationsDirs && world.translationsDirs[mods[i]] == d {
        var i :| 0 <= i < |mods| && mods[i] in world.translationsDirs && world.translationsDirs[mods[i]] == d;
        if i < |init| {
          assert init[i] == mods[i];
        }
      }
    }
  }

  // ---------------------------------------------------------------------
  // The domain.

  class MultidirDomain {
    /** The catalog domain name, `"messages"` by default. */
    const domain: string
    /** `_translation_directories`: only ever appended to. */
    var dirs: seq<string>

    /** The first two lines of `__init__`: an empty list of directories. */
    constructor (domain: string)
      ensures this.domain == domain && dirs == []
    {
      this.domain := domain;
      dirs := [];
    }

    /** `has_paths()`. */
    function HasPaths(): (b: bool)
      reads this
      ensures b <==> dirs != []
    {
      |dirs| > 0
    }

    /** `add_path(path)`: raises on a missing path, leaving the list unchanged; else appends. */
    method AddPath(world: World, path: string) returns (ok: bool)
      modifies this
      ensures (dirs, ok) == Register(old(dirs), [path], world.paths)
      ensures ok <==> path in world.paths
      ensures dirs == if ok then old(dirs) + [path] else old(dirs)
    {
      if path !in world.paths {
        return false;
      }
      dirs := dirs + [path];
      ok := true;
    }

    /** `add_entrypoint(group)`: the modules' `translations` directories, skipping modules without one. */
    method AddEntrypoint(world: World, group: string) returns (ok: bool)
      modifies this
      ensures (dirs, ok) == Register(old(dirs), EntrypointDirs(world, EntryModules(world, group)), world.paths)
    {
      var mods := EntryModules(world, group);
      ghost var start := dirs;
      for i := 0 to |mods|
        invariant (dirs, true) == Register(start, EntrypointDirs(world, mods[..i]), world.paths)
      {
        assert mods[..i + 1][..i] == mods[..i];
        var m := mods[i];
        if m !in world.translationsDirs {
          assert EntrypointDirs(world, mods[..i + 1]) == EntrypointDirs(world, mods[..i]);
          continue;
        }
        var dirname := world.translationsDirs[m];
        assert EntrypointDirs(world, mods[..i + 1]) == EntrypointDirs(world, mods[..i]) + [dirname];
        RegisterAppend(start, EntrypointDirs(world, mods[..i]), [dirname], world.paths);
        ok := AddPath(world, dirname);
        if !ok {
          assert mods == mods[..i + 1] + mods[i + 1..];
          EntrypointDirsAppend(world, mods[..i + 1], mods[i + 1..]);
          RegisterAppend(start, EntrypointDirs(world, mods[..i + 1]), EntrypointDirs(world, mods[i + 1..]), world.paths);
          return;
        }
      }
      assert mods[..|mods|] == mods;
      ok := true;
    }
  }

  /** `entry_point_group` is used when it is truthy: present and non-empty. */
  function GroupDirs(world: World, group: Option<string>): seq<string> {
    if group.Some? && group.value != "" then EntrypointDirs(world, EntryModules(world, group.value)) else []
  }

  /** Python's `paths or []`. */
  function PathsOrEmpty(paths: Option<seq<string>>): seq<string> {
    if paths.Some? then paths.value else []
  }

  /**
   * `MultidirDomain(paths, entry_point_group, domain)`: the entry-point
   * directories first, then `paths`.  `ok` is false when the constructor raises.
   */
  method NewMultidirDomain(world: World, paths: Option<seq<string>>, group: Option<string>, domain: string)
    returns (d: MultidirDomain, ok: bool)
    ensures fresh(d) && d.domain == domain
    ensures (d.dirs, ok) == Register([], GroupDirs(world, group) + PathsOrEmpty(paths), world.paths)
  {
    d := new MultidirDomain(domain);
    ok := true;
    if group.Some? && group.value != "" {
      ok := d.AddEntrypoint(world, group.value);
      if !ok {
        RegisterAppend([], GroupDirs(world, group), PathsOrEmpty(paths), world.paths);
        return;
      }
    }
    assert ([], true) == Register([], [], world.paths);
    ghost var start := d.dirs;
    var ps := PathsOrEmpty(paths);
    RegisterAppend([], GroupDirs(world, group), ps, world.paths);
    for i := 0 to |ps|
      invariant (d.dirs, true) == Register(start, ps[..i], world.paths)
      invariant d.domain == domain
    {
      assert ps[..i + 1][..i] == ps[..i];
      RegisterAppend(start, ps[..i], [ps[i]], world.paths);
      assert ps[..i] + [ps[i]] == ps[..i + 1];
      ok := d.AddPath(world, ps[i]);
      if !ok {
        assert ps == ps[..i + 1] + ps[i + 1..];
        RegisterAppend(start, ps[..i + 1], ps[i + 1..], world.paths);
        return;
      }
    }
    assert ps[..|ps|] == ps;
  }

  /**
   * The constructor's order made explicit: in a well-formed world with every
   * explicit path existing, the list is the entry-point directories followed
   * by the paths.
   */
  lemma EntrypointsBeforePaths(world: World, paths: seq<string>, group: string)
    requires WellFormed(world)
    requires forall k :: 0 <= k < |paths| ==> paths[k] in world.paths
    ensures Register([], GroupDirs(world, Some(group)) + paths, world.paths)
            == (GroupDirs(world, Some(group)) + paths, true)
  {
    var e := GroupDirs(world, Some(group));
    EntrypointDirsExist(world, EntryModules(world, group));
    RegisterSpec([], e + paths, world.paths);
    forall k | 0 <= k < |e + paths| ensures (e + paths)[k] in world.paths {
      if k >= |e| {
        assert (e + paths)[k] == paths[k - |e|];
      } else {
        assert (e + paths)[k] == e[k];
      }
    }
    var (d, ok) := Register([], e + paths, world.paths);
    assert ok && d == [] + (e + paths) == e + paths;
  }

  // ---------------------------------------------------------------------
  // Merging: the order of the list decides which catalog wins.

  /** A compiled catalog: message id to translation. */
  type Catalog = map<string, string>

  /**
   * The documented merge of the catalogs found in `dirs`: in list order, so
   * a later directory overwrites the strings of earlier ones.
   */
  function MergedCatalog(dirs: seq<string>, catalogAt: string -> Catalog): Catalog {
    if dirs == [] then map[]
    else
      var c := catalogAt(dirs[|dirs| - 1]);
      var m := MergedCatalog(dirs[..|dirs| - 1], catalogAt);
      map k | k in m.Keys + c.Keys :: if k in c then c[k] else m[k]
  }

  /** A string takes its translation from the last directory whose catalog has it. */
  lemma {:induction false} MergedCatalogLastWins(dirs: seq<string>, catalogAt: string -> Catalog, i: nat, k: string)
    requires i < |dirs| && k in catalogAt(dirs[i])
    requires forall j :: i < j < |dirs| ==> k !in catalogAt(dirs[j])
    ensures var m := MergedCatalog(dirs, catalogAt); k in m && m[k] == catalogAt(dirs[i])[k]
  {
    var init := dirs[..|dirs| - 1];
    if i < |init| {
      forall j | i < j < |init| ensures k !in catalogAt(init[j]) {
        assert init[j] == dirs[j];
      }
      assert init[i] == dirs[i];
      MergedCatalogLastWins(init, catalogAt, i, k);
    }
  }

  /** The merged strings are exactly those of some directory's catalog. */
  lemma {:induction false} MergedCatalogKeys(dirs: seq<string>, catalogAt: string -> Catalog, k: string)
    ensures k in MergedCatalog(dirs, catalogAt) <==> exists i :: 0 <= i < |dirs| && k in catalogAt(dirs[i])
  {
    if dirs != [] {
      var init := dirs[..|dirs| - 1];
      MergedCatalogKeys(init, catalogAt, k);
      if exists i :: 0 <= i < |init| && k in catalogAt(init[i]) {
        var i :| 0 <= i < |init| && k in catalogAt(init[i]);
        assert dirs[i] == init[i];
      }
      if exists i :: 0 <= i < |dirs| && k in catalogAt(dirs[i]) {
        var i :| 0 <= i < |dirs| && k in catalogAt(dirs[i]);
        if i < |init| {
          assert init[i] == dirs[i];
        }
      }
    }
  }

  // ---------------------------------------------------------------------
  // `set_locale`.

  /** The Babel context of the current request; `babel_locale` may be unset. */
  class RequestContext {
    var babelLocale: Option<string>

    constructor (babelLocale: Option<string>)
      ensures this.babelLocale == babelLocale
    {
      this.babelLocale := babelLocale;
    }
  }

  /**
   * Entering `with set_locale(ln)`: raises without a context, or when
   * `Locale.parse` (here `parse`, outside the model) rejects `ln`; otherwise
   * saves the old locale and installs the new one.
   */
  method EnterSetLocale(ctx: RequestContext?, ln: string, parse: string -> Option<string>)
    returns (ok: bool, saved: Option<string>)
    modifies ctx
    ensures ok <==> ctx != null && parse(ln).Some?
    ensures ctx != null && ok ==> saved == old(ctx.babelLocale) && ctx.babelLocale == parse(ln)
    ensures ctx != null && !ok ==> ctx.babelLocale == old(ctx.babelLocale)
  {
    saved := None;
    if ctx == null {
      return false, saved;
    }
    var newLocale := parse(ln);
    if newLocale.None? {
      return false, saved;
    }
    saved := ctx.babelLocale;
    ctx.babelLocale := newLocale;
    ok := true;
  }

  /** Leaving the block normally: the saved locale is put back. */
  method ExitSetLocale(ctx: RequestContext, saved: Option<string>)
    modifies ctx
    ensures ctx.babelLocale == saved
  {
    ctx.babelLocale := saved;
  }

  /**
   * A whole `with set_locale(ln): body` block as written: the restore
   * follows the `yield` with no `finally`, so a body that raises leaves the
   * new locale installed.
   */
  method WithLocaleAsWritten(ctx: RequestContext, ln: string, parse: string -> Option<string>, bodyRaises: bool)
    returns (entered: bool)
    modifies ctx
    ensures entered <==> parse(ln).Some?
    ensures !entered || !bodyRaises ==> ctx.babelLocale == old(ctx.babelLocale)
    ensures entered && bodyRaises ==> ctx.babelLocale == parse(ln)
  {
    var saved;
    entered, saved := EnterSetLocale(ctx, ln, parse);
    if !entered || bodyRaises {
      return;
    }
    ExitSetLocale(ctx, saved);
  }

  /** A concrete run of the block as written whose body raises: the locale before differs from the one after. */
  method SetLocaleLeaksOnRaise() returns (before: Option<string>, after: Option<string>)
    ensures before == Some("en") && after == Some("de")
  {
    var ctx := new RequestContext(Some("en"));
    before := ctx.babelLocale;
    var entered := WithLocaleAsWritten(ctx, "de", (ln: string) => Some(ln), true);
    after := ctx.babelLocale;
  }

  /** The block with the restore in a `finally`: the old locale is back however the body ends. */
  method WithLocale(ctx: RequestContext, ln: string, parse: string -> Option<string>, bodyRaises: bool)
    returns (entered: bool)
    modifies ctx
    ensures entered <==> parse(ln).Some?
    ensures ctx.babelLocale == old(ctx.babelLocale)
  {
    var saved;
    entered, saved := EnterSetLocale(ctx, ln, parse);
    if !entered {
      return;
    }
    ExitSetLocale(ctx, saved);
  }
}
