/**
 * The collection pipeline of translation_utilities/collect.py: per package,
 * the PO catalogs found in the installed package are converted to i18next
 * JSON (`get_package_translations`) or validated
 * (`get_package_validation_reports`); across packages the tables are kept
 * by package and regrouped by locale (`collect_translations`), and the
 * reports are summarised (`validate_translations`).
 */
module Collect {
  import opened Wrappers
  import opened Po
  import opened Discovery
  import opened LocaleTables
  import Convert
  import Validate
  import Summary
  import Sorting
  import Strings

  /**
   * What the pipeline reads from outside: the import system's module index,
   * the file tree, and the parsed catalog at each path.
   */
  datatype Environment = Environment(
    index: ModuleIndex,
    fs: FileSystem,
    catalog: Path -> seq<PoEntry>)

  // ---------------------------------------------------------------------
  // One package's translations.

  /** The `locale -> JSON` table built from the `(locale, path)` pairs in order, under namespace `ns`. */
  function LocaleJsons(env: Environment, pairs: seq<(string, Path)>, ns: string): ByLocale {
    if pairs == [] then map[]
    else
      var last := pairs[|pairs| - 1];
      LocaleJsons(env, pairs[..|pairs| - 1], ns)[last.0 := Convert.EntriesJson(env.catalog(last.1), ns)]
  }

  /**
   * What `get_package_translations` returns: an empty table for a package
   * that is not installed, `None` when the scan of its catalogs raises.
   */
  ghost function PackageTranslations(env: Environment, packageName: string): Option<ByLocale> {
    match FindPackagePath(env.index, packageName)
    case None => Some(map[])
    case Some(root) =>
      match PoFiles(env.fs, root, packageName)
      case None => None
      case Some(pairs) => Some(LocaleJsons(env, pairs, Normalize(packageName)))
  }

  /** `get_package_translations(package_name)`. */
  method GetPackageTranslations(env: Environment, packageName: string) returns (r: Option<ByLocale>)
    ensures r == PackageTranslations(env, packageName)
    ensures FindPackagePath(env.index, packageName).None? ==> r == Some(map[])
  {
    var packageRoot := FindPackagePath(env.index, packageName);
    var translationsByLocale: ByLocale := map[];
    if packageRoot.None? {
      return Some(translationsByLocale);
    }
    var found := FindPoFiles(env.fs, packageRoot.value, packageName);
    if found.None? {
      return None;
    }
    var pairs := found.value;
    for i := 0 to |pairs|
      invariant translationsByLocale == LocaleJsons(env, pairs[..i], Normalize(packageName))
    {
      LocaleJsonsSnoc(env, pairs, Normalize(packageName), i);
      var (locale, poPath) := pairs[i];
      var poFile := env.catalog(poPath);
      var json := Convert.PoToI18nextJson(poFile, packageName);
      translationsByLocale := translationsByLocale[locale := json];
    }
    assert pairs[..|pairs|] == pairs;
    r := Some(translationsByLocale);
  }

  /** One more pair: the table of the longer prefix. */
  lemma LocaleJsonsSnoc(env: Environment, pairs: seq<(string, Path)>, ns: string, i: nat)
    requires i < |pairs|
    ensures LocaleJsons(env, pairs[..i + 1], ns)
            == LocaleJsons(env, pairs[..i], ns)[pairs[i].0 := Convert.EntriesJson(env.catalog(pairs[i].1), ns)]
  {
    assert pairs[..i + 1][..i] == pairs[..i];
  }

  /** The table's locales are exactly the locales of the pairs. */
  lemma {:induction false} LocaleJsonsKeys(env: Environment, pairs: seq<(string, Path)>, ns: string, l: string)
    ensures l in LocaleJsons(env, pairs, ns) <==> exists i :: 0 <= i < |pairs| && pairs[i].0 == l
  {
    if pairs != [] {
      var init := pairs[..|pairs| - 1];
      LocaleJsonsKeys(env, init, ns, l);
      if exists i :: 0 <= i < |init| && init[i].0 == l {
        var i :| 0 <= i < |init| && init[i].0 == l;
        assert pairs[i] == init[i];
      }
      if exists i :: 0 <= i < |pairs| && pairs[i].0 == l {
        var i :| 0 <= i < |pairs| && pairs[i].0 == l;
        if i < |init| {
          assert init[i] == pairs[i];
        }
      }
    }
  }

  /** A locale holds the conversion of the last catalog found for it. */
  lemma {:induction false} LocaleJsonsLastWins(env: Environment, pairs: seq<(string, Path)>, ns: string, i: nat)
    requires i < |pairs|
    requires forall j :: i < j < |pairs| ==> pairs[j].0 != pairs[i].0
    ensures var t := LocaleJsons(env, pairs, ns);
      pairs[i].0 in t && t[pairs[i].0] == Convert.EntriesJson(env.catalog(pairs[i].1), ns)
  {
    var init := pairs[..|pairs| - 1];
    if i < |init| {
      forall j | i < j < |init| ensures init[j].0 != init[i].0 {
        assert init[j] == pairs[j];
      }
      LocaleJsonsLastWins(env, init, ns, i);
    }
  }

  /**
   * When a locale has a catalog under `<root>/<module>/translations`, that
   * catalog decides the locale's table, whatever `<root>/translations` holds:
   * the nested base is scanned second, and within one base a locale occurs once.
   */
  lemma NestedCatalogWins(env: Environment, packageName: string, l: string)
    requires FindPackagePath(env.index, packageName).Some?
    requires PoFiles(env.fs, FindPackagePath(env.index, packageName).value, packageName).Some?
    requires var b := CandidateBases(FindPackagePath(env.index, packageName).value, packageName)[1];
      IsDir(env.fs, b) && IsHit(env.fs, b, l)
    ensures var root := FindPackagePath(env.index, packageName).value;
      var b := CandidateBases(root, packageName)[1];
      var t := PackageTranslations(env, packageName);
      t.Some? && l in t.value && t.value[l] == Convert.EntriesJson(env.catalog(PoPath(b, l)), Normalize(packageName))
  {
    var root := FindPackagePath(env.index, packageName).value;
    var pairs := PoFiles(env.fs, root, packageName).value;
    var b := CandidateBases(root, packageName)[1];
    PoFilesComplete(env.fs, root, packageName, b, l);
    var i :| 0 <= i < |pairs| && pairs[i] == (l, PoPath(b, l));
    PoFilesOrdered(env.fs, root, packageName);
    forall j | i < j < |pairs| ensures pairs[j].0 != pairs[i].0 {
      PoFilesShape(env.fs, root, packageName, j);
      assert |pairs[j].1| <= |root| + 5 == |pairs[i].1|;
      Strings.LexLessIrreflexive(pairs[i].0);
    }
    LocaleJsonsLastWins(env, pairs, Normalize(packageName), i);
  }

  /** Spellings that normalise alike (`a-b`, `a_b`) give the same translations. */
  lemma PackageTranslationsByModule(env: Environment, p: string, q: string)
    ensures Normalize(p) == Normalize(q) ==> PackageTranslations(env, p) == PackageTranslations(env, q)
  {
    if Normalize(p) == Normalize(q) {
      FindPackagePathByModule(env.index, p, q);
      var root := FindPackagePath(env.index, p);
      if root.Some? {
        assert CandidateBases(root.value, p) == CandidateBases(root.value, q);
        assert PoFiles(env.fs, root.value, p) == PoFiles(env.fs, root.value, q);
      }
    }
  }

  // ---------------------------------------------------------------------
  // Collecting over packages.

  /**
   * The `(normalised name, table)` items `collect_translations` stores, in
   * package order, skipping empty tables; `None` when some package raises.
   */
  ghost function Kept(env: Environment, packages: seq<string>): Option<seq<(string, ByLocale)>> {
    if packages == [] then Some([])
    else
      var last := packages[|packages| - 1];
      var init := Kept(env, packages[..|packages| - 1]);
      var t := PackageTranslations(env, last);
      if init.None? || t.None? then None
      else if t.value == map[] then init
      else Some(init.value + [(Normalize(last), t.value)])
  }

  /** `translations_by_package`: each item's table under its name, the later item winning. */
  function ByName(items: seq<(string, ByLocale)>): map<string, ByLocale> {
    if items == [] then map[]
    else ByName(items[..|items| - 1])[items[|items| - 1].0 := items[|items| - 1].1]
  }

  /** Items that agree on the table wherever they agree on the name. */
  predicate Consistent(items: seq<(string, ByLocale)>) {
    forall a, b :: 0 <= a < |items| && 0 <= b < |items| && items[a].0 == items[b].0 ==> items[a].1 == items[b].1
  }

  /** The dictionary `collect_translations` returns. */
  datatype Collection = Collection(
    translationsByPackage: map<string, ByLocale>,
    collectedTranslations: Collected,
    packagesProcessed: nat,
    locales: seq<string>)

  /** `collect_translations(packages)`; `None` when a package's scan raises. */
  method CollectTranslations(env: Environment, packages: seq<string>) returns (r: Option<Collection>)
    ensures r.None? <==> Kept(env, packages).None?
    ensures r.Some? ==> var items := Kept(env, packages).value;
      r.value == Collection(ByName(items), Transpose(items), |packages|, Sorting.SortedListing(Transpose(items).Keys))
  {
    var collected: Collected := map[];
    var byPackage: map<string, ByLocale> := map[];
    ghost var items: seq<(string, ByLocale)> := [];
    for i := 0 to |packages|
      invariant Kept(env, packages[..i]) == Some(items)
      invariant byPackage == ByName(items)
      invariant collected == Transpose(items)
    {
      KeptSnoc(env, packages, i);
      var translationsByLocale := GetPackageTranslations(env, packages[i]);
      if translationsByLocale.None? {
        KeptNoneExtends(env, packages, i + 1);
        return None;
      }
      if translationsByLocale.value != map[] {
        var normalizedName := Normalize(packages[i]);
        ItemsSnoc(items, normalizedName, translationsByLocale.value);
        byPackage := byPackage[normalizedName := translationsByLocale.value];
        collected := StoreLocales(collected, normalizedName, translationsByLocale.value);
        items := items + [(normalizedName, translationsByLocale.value)];
      }
    }
    assert packages[..|packages|] == packages;
    var locales := Sorting.SortStrings(collected.Keys);
    r := Some(Collection(byPackage, collected, |packages|, locales));
  }

  /** One more package: `Kept` of the longer prefix from `Kept` of the shorter one. */
  lemma KeptSnoc(env: Environment, packages: seq<string>, i: nat)
    requires i < |packages|
    ensures var init := Kept(env, packages[..i]); var t := PackageTranslations(env, packages[i]);
      Kept(env, packages[..i + 1]) ==
        if init.None? || t.None? then None
        else if t.value == map[] then init
        else Some(init.value + [(Normalize(packages[i]), t.value)])
  {
    assert packages[..i + 1][..i] == packages[..i];
  }

  /** One more item: `ByName` and `Transpose` each take one more store. */
  lemma ItemsSnoc(items: seq<(string, ByLocale)>, n: string, t: ByLocale)
    ensures ByName(items + [(n, t)]) == ByName(items)[n := t]
    ensures Transpose(items + [(n, t)]) == AddPackage(Transpose(items), n, t)
  {
    assert (items + [(n, t)])[..|items|] == items;
  }

  /** Once a prefix of the packages raises, the whole run does. */
  lemma {:induction false} KeptNoneExtends(env: Environment, packages: seq<string>, n: nat)
    requires n <= |packages| && Kept(env, packages[..n]).None?
    ensures Kept(env, packages).None?
    decreases |packages| - n
  {
    if n < |packages| {
      assert packages[..n + 1][..n] == packages[..n];
      KeptNoneExtends(env, packages, n + 1);
    } else {
      assert packages[..n] == packages;
    }
  }

  /** The run raises exactly when the scan of some package raises. */
  lemma {:induction false} KeptNoneIff(env: Environment, packages: seq<string>)
    ensures Kept(env, packages).None? <==>
      exists i :: 0 <= i < |packages| && PackageTranslations(env, packages[i]).None?
  {
    if packages != [] {
      var init := packages[..|packages| - 1];
      var last := packages[|packages| - 1];
      KeptNoneIff(env, init);
      assert Kept(env, packages).None? <==> Kept(env, init).None? || PackageTranslations(env, last).None?;
      if exists i :: 0 <= i < |init| && PackageTranslations(env, init[i]).None? {
        var i :| 0 <= i < |init| && PackageTranslations(env, init[i]).None?;
        assert packages[i] == init[i];
      }
      if exists i :: 0 <= i < |packages| && PackageTranslations(env, packages[i]).None? {
        var i :| 0 <= i < |packages| && PackageTranslations(env, packages[i]).None?;
        if i < |init| {
          assert init[i] == packages[i];
        }
      }
    }
  }

  /** Every item is a package's non-empty table under the package's normalised name. */
  lemma {:induction false} KeptItem(env: Environment, packages: seq<string>, k: nat)
    requires Kept(env, packages).Some? && k < |Kept(env, packages).value|
    ensures var item := Kept(env, packages).value[k];
      exists i :: 0 <= i < |packages| && item.0 == Normalize(packages[i])
        && PackageTranslations(env, packages[i]) == Some(item.1) && item.1 != map[]
  {
    assert packages != [];
    var init := packages[..|packages| - 1];
    var items := Kept(env, packages).value;
    var initItems := Kept(env, init).value;
    if k < |initItems| {
      KeptItem(env, init, k);
      assert items[k] == initItems[k];
      var i :| 0 <= i < |init| && initItems[k].0 == Normalize(init[i])
        && PackageTranslations(env, init[i]) == Some(initItems[k].1) && initItems[k].1 != map[];
      assert packages[i] == init[i];
    } else {
      assert items[k].0 == Normalize(packages[|packages| - 1]);
    }
  }

  /** Every package whose table is non-empty has an item. */
  lemma {:induction false} KeptComplete(env: Environment, packages: seq<string>, i: nat)
    requires Kept(env, packages).Some? && i < |packages|
    ensures var t := PackageTranslations(env, packages[i]); var items := Kept(env, packages).value;
      t.Some? && (t.value != map[] ==> exists k :: 0 <= k < |items| && items[k] == (Normalize(packages[i]), t.value))
  {
    var init := packages[..|packages| - 1];
    var items := Kept(env, packages).value;
    var initItems := Kept(env, init).value;
    if i < |init| {
      assert init[i] == packages[i];
      KeptComplete(env, init, i);
      var t := PackageTranslations(env, packages[i]);
      if t.value != map[] {
        var k :| 0 <= k < |initItems| && initItems[k] == (Normalize(packages[i]), t.value);
        assert items[k] == initItems[k];
      }
    } else {
      var t := PackageTranslations(env, packages[i]);
      if t.value != map[] {
        assert items[|items| - 1] == (Normalize(packages[i]), t.value);
      }
    }
  }

  /** Two items with the same name come from spellings of one module, so carry the same table. */
  lemma KeptConsistent(env: Environment, packages: seq<string>)
    requires Kept(env, packages).Some?
    ensures Consistent(Kept(env, packages).value)
  {
    var items := Kept(env, packages).value;
    forall a, b | 0 <= a < |items| && 0 <= b < |items| && items[a].0 == items[b].0
      ensures items[a].1 == items[b].1
    {
      KeptItem(env, packages, a);
      KeptItem(env, packages, b);
      var i :| 0 <= i < |packages| && items[a].0 == Normalize(packages[i])
        && PackageTranslations(env, packages[i]) == Some(items[a].1);
      var j :| 0 <= j < |packages| && items[b].0 == Normalize(packages[j])
        && PackageTranslations(env, packages[j]) == Some(items[b].1);
      PackageTranslationsByModule(env, packages[i], packages[j]);
    }
  }

  /** The names of `ByName` are the items' names. */
  lemma {:induction false} ByNameKeys(items: seq<(string, ByLocale)>, n: string)
    ensures n in ByName(items) <==> exists k :: 0 <= k < |items| && items[k].0 == n
  {
    if items != [] {
      var init := items[..|items| - 1];
      ByNameKeys(init, n);
      if exists k :: 0 <= k < |init| && init[k].0 == n {
        var k :| 0 <= k < |init| && init[k].0 == n;
        assert items[k] == init[k];
      }
      if exists k :: 0 <= k < |items| && items[k].0 == n {
        var k :| 0 <= k < |items| && items[k].0 == n;
        if k < |init| {
          assert init[k] == items[k];
        }
      }
    }
  }

  /** For consistent items, every item's table is the one kept under its name. */
  lemma {:induction false} ByNameAt(items: seq<(string, ByLocale)>, k: nat)
    requires Consistent(items) && k < |items|
    ensures items[k].0 in ByName(items) && ByName(items)[items[k].0] == items[k].1
  {
    var init := items[..|items| - 1];
    if k < |init| {
      assert forall a :: 0 <= a < |init| ==> init[a] == items[a];
      ByNameAt(init, k);
    }
  }

  /**
   * `translations_by_package`: a package's normalised name is present
   * exactly when its table is non-empty, and then holds that table.
   */
  lemma TranslationsByPackage(env: Environment, packages: seq<string>, i: nat)
    requires Kept(env, packages).Some? && i < |packages|
    ensures var bp := ByName(Kept(env, packages).value); var t := PackageTranslations(env, packages[i]);
      t.Some? && (Normalize(packages[i]) in bp <==> t.value != map[])
      && (t.value != map[] ==> bp[Normalize(packages[i])] == t.value)
  {
    var items := Kept(env, packages).value;
    var n := Normalize(packages[i]);
    KeptConsistent(env, packages);
    KeptComplete(env, packages, i);
    var t := PackageTranslations(env, packages[i]);
    if t.value != map[] {
      var k :| 0 <= k < |items| && items[k] == (n, t.value);
      ByNameAt(items, k);
    }
    if n in ByName(items) {
      ByNameKeys(items, n);
      var k :| 0 <= k < |items| && items[k].0 == n;
      KeptItem(env, packages, k);
      var j :| 0 <= j < |packages| && items[k].0 == Normalize(packages[j])
        && PackageTranslations(env, packages[j]) == Some(items[k].1) && items[k].1 != map[];
      PackageTranslationsByModule(env, packages[i], packages[j]);
    }
  }

  /** Every name in `translations_by_package` is a requested package's normalised name. */
  lemma ByPackageOrigin(env: Environment, packages: seq<string>, n: string)
    requires Kept(env, packages).Some? && n in ByName(Kept(env, packages).value)
    ensures exists i :: 0 <= i < |packages| && Normalize(packages[i]) == n
  {
    var items := Kept(env, packages).value;
    ByNameKeys(items, n);
    var k :| 0 <= k < |items| && items[k].0 == n;
    KeptItem(env, packages, k);
  }

  /**
   * `collected_translations` is `translations_by_package` transposed:
   * `collected[l][n]` exists exactly when `by_package[n][l]` does, and they agree.
   */
  lemma CollectedIsTransposition(env: Environment, packages: seq<string>, l: string, n: string)
    requires Kept(env, packages).Some?
    ensures var items := Kept(env, packages).value; var bp := ByName(items); var c := Transpose(items);
      ((l in c && n in c[l]) <==> (n in bp && l in bp[n]))
      && (l in c && n in c[l] ==> c[l][n] == bp[n][l])
  {
    var items := Kept(env, packages).value;
    var bp := ByName(items);
    var c := Transpose(items);
    KeptConsistent(env, packages);
    TransposeCells(items, l, n);
    ByNameKeys(items, n);
    if n in bp {
      var k :| 0 <= k < |items| && items[k].0 == n;
      ByNameAt(items, k);
      if l in bp[n] {
        TransposeConsistent(items, k, l);
      }
    }
    if l in c && n in c[l] {
      var k :| 0 <= k < |items| && items[k].0 == n && l in items[k].1;
      ByNameAt(items, k);
      TransposeConsistent(items, k, l);
    }
  }

  /** The collected locales are exactly those some package has translations for. */
  lemma CollectedLocales(env: Environment, packages: seq<string>, l: string)
    requires Kept(env, packages).Some?
    ensures l in Transpose(Kept(env, packages).value) <==>
      exists i :: 0 <= i < |packages| && PackageTranslations(env, packages[i]).Some?
                  && l in PackageTranslations(env, packages[i]).value
  {
    var items := Kept(env, packages).value;
    TransposeLocales(items, l);
    if l in Transpose(items) {
      var k :| 0 <= k < |items| && l in items[k].1;
      KeptItem(env, packages, k);
    }
    if exists i :: 0 <= i < |packages| && PackageTranslations(env, packages[i]).Some?
                   && l in PackageTranslations(env, packages[i]).value {
      var i :| 0 <= i < |packages| && PackageTranslations(env, packages[i]).Some?
               && l in PackageTranslations(env, packages[i]).value;
      KeptComplete(env, packages, i);
    }
  }

  // ---------------------------------------------------------------------
  // Validation over packages.

  /** The reports of the `(locale, path)` pairs, one per pair, in order. */
  function LocaleReports(env: Environment, pairs: seq<(string, Path)>, packageName: string): (r: seq<Validate.Report>)
    ensures |r| == |pairs|
  {
    if pairs == [] then []
    else
      var last := pairs[|pairs| - 1];
      LocaleReports(env, pairs[..|pairs| - 1], packageName)
        + [Validate.ReportOf(env.catalog(last.1), packageName, last.0, last.1)]
  }

  /** One more pair: the reports of the longer prefix. */
  lemma LocaleReportsSnoc(env: Environment, pairs: seq<(string, Path)>, packageName: string, i: nat)
    requires i < |pairs|
    ensures LocaleReports(env, pairs[..i + 1], packageName)
            == LocaleReports(env, pairs[..i], packageName)
               + [Validate.ReportOf(env.catalog(pairs[i].1), packageName, pairs[i].0, pairs[i].1)]
  {
    assert pairs[..i + 1][..i] == pairs[..i];
  }

  /** Report `k` validates the catalog of pair `k`. */
  lemma {:induction false} LocaleReportsAt(env: Environment, pairs: seq<(string, Path)>, packageName: string, k: nat)
    requires k < |pairs|
    ensures LocaleReports(env, pairs, packageName)[k]
            == Validate.ReportOf(env.catalog(pairs[k].1), packageName, pairs[k].0, pairs[k].1)
  {
    var init := pairs[..|pairs| - 1];
    if k < |init| {
      LocaleReportsAt(env, init, packageName, k);
      assert pairs[k] == init[k];
    }
  }

  /** What `get_package_validation_reports` returns; `None` when the scan raises. */
  ghost function PackageReports(env: Environment, packageName: string): Option<seq<Validate.Report>> {
    match FindPackagePath(env.index, packageName)
    case None => Some([])
    case Some(root) =>
      match PoFiles(env.fs, root, packageName)
      case None => None
      case Some(pairs) => Some(LocaleReports(env, pairs, packageName))
  }

  /** `get_package_validation_reports(package_name)`. */
  method GetPackageValidationReports(env: Environment, packageName: string) returns (r: Option<seq<Validate.Report>>)
    ensures r == PackageReports(env, packageName)
    ensures FindPackagePath(env.index, packageName).None? ==> r == Some([])
  {
    var packageRoot := FindPackagePath(env.index, packageName);
    var validationReports: seq<Validate.Report> := [];
    if packageRoot.None? {
      return Some(validationReports);
    }
    var found := FindPoFiles(env.fs, packageRoot.value, packageName);
    if found.None? {
      return None;
    }
    var pairs := found.value;
    for i := 0 to |pairs|
      invariant validationReports == LocaleReports(env, pairs[..i], packageName)
    {
      LocaleReportsSnoc(env, pairs, packageName, i);
      var (locale, poPath) := pairs[i];
      var poFile := env.catalog(poPath);
      var report := Validate.ValidatePo(poFile, packageName, locale, poPath);
      validationReports := validationReports + [report];
    }
    assert pairs[..|pairs|] == pairs;
    r := Some(validationReports);
  }

  /**
   * Validation and conversion of a package see the same catalogs: they fail
   * together, and the reports' locales are the locales of the translations.
   */
  lemma ReportsMatchTranslations(env: Environment, packageName: string, l: string)
    ensures PackageReports(env, packageName).None? <==> PackageTranslations(env, packageName).None?
    ensures PackageReports(env, packageName).Some? ==>
      var reps := PackageReports(env, packageName).value;
      (l in PackageTranslations(env, packageName).value <==> exists k :: 0 <= k < |reps| && reps[k].locale == l)
  {
    match FindPackagePath(env.index, packageName)
    case None =>
    case Some(root) =>
      match PoFiles(env.fs, root, packageName)
      case None =>
      case Some(pairs) =>
        var reps := LocaleReports(env, pairs, packageName);
        LocaleJsonsKeys(env, pairs, Normalize(packageName), l);
        if exists k :: 0 <= k < |reps| && reps[k].locale == l {
          var k :| 0 <= k < |reps| && reps[k].locale == l;
          LocaleReportsAt(env, pairs, packageName, k);
        }
        if exists i :: 0 <= i < |pairs| && pairs[i].0 == l {
          var i :| 0 <= i < |pairs| && pairs[i].0 == l;
          LocaleReportsAt(env, pairs, packageName, i);
        }
  }

  /** Every report of a package is made under the package's normalised name. */
  lemma ReportPackage(env: Environment, packageName: string, k: nat)
    requires PackageReports(env, packageName).Some? && k < |PackageReports(env, packageName).value|
    ensures PackageReports(env, packageName).value[k].package == Normalize(packageName)
  {
    var root := FindPackagePath(env.index, packageName).value;
    var pairs := PoFiles(env.fs, root, packageName).value;
    LocaleReportsAt(env, pairs, packageName, k);
  }

  /** `all_validation_reports`: the packages' reports concatenated in order; `None` when one raises. */
  ghost function AllReports(env: Environment, packages: seq<string>): Option<seq<Validate.Report>> {
    if packages == [] then Some([])
    else
      var init := AllReports(env, packages[..|packages| - 1]);
      var reps := PackageReports(env, packages[|packages| - 1]);
      if init.None? || reps.None? then None else Some(init.value + reps.value)
  }

  /** `validate_translations(packages)`; `None` when a package's scan raises. */
  method ValidateTranslations(env: Environment, packages: seq<string>) returns (r: Option<Summary.ValidationSummary>)
    ensures r.None? <==> AllReports(env, packages).None?
    ensures r.Some? ==> r.value == Summary.ExpectedSummary(AllReports(env, packages).value, packages)
  {
    var allValidationReports: seq<Validate.Report> := [];
    for i := 0 to |packages|
      invariant AllReports(env, packages[..i]) == Some(allValidationReports)
    {
      assert packages[..i + 1][..i] == packages[..i];
      var validationReports := GetPackageValidationReports(env, packages[i]);
      if validationReports.None? {
        AllReportsNoneExtends(env, packages, i + 1);
        return None;
      }
      allValidationReports := allValidationReports + validationReports.value;
    }
    assert packages[..|packages|] == packages;
    var summary := Summary.CalculateValidationReport(allValidationReports, packages);
    r := Some(summary);
  }

  /** Once a prefix of the packages raises, the whole validation does. */
  lemma {:induction false} AllReportsNoneExtends(env: Environment, packages: seq<string>, n: nat)
    requires n <= |packages| && AllReports(env, packages[..n]).None?
    ensures AllReports(env, packages).None?
    decreases |packages| - n
  {
    if n < |packages| {
      assert packages[..n + 1][..n] == packages[..n];
      AllReportsNoneExtends(env, packages, n + 1);
    } else {
      assert packages[..n] == packages;
    }
  }

  /** Every report in the summary's input comes from one of the packages, under its normalised name. */
  lemma {:induction false} AllReportsOrigin(env: Environment, packages: seq<string>, k: nat)
    requires AllReports(env, packages).Some? && k < |AllReports(env, packages).value|
    ensures exists i ::
      && 0 <= i < |packages| && PackageReports(env, packages[i]).Some?
      && AllReports(env, packages).value[k] in PackageReports(env, packages[i]).value
      && AllReports(env, packages).value[k].package == Normalize(packages[i])
  {
    assert packages != [];
    var init := packages[..|packages| - 1];
    var last := packages[|packages| - 1];
    var all := AllReports(env, packages).value;
    var initAll := AllReports(env, init).value;
    var reps := PackageReports(env, last).value;
    assert all == initAll + reps;
    if k < |initAll| {
      AllReportsOrigin(env, init, k);
      assert all[k] == initAll[k];
      var i :| 0 <= i < |init| && PackageReports(env, init[i]).Some?
        && initAll[k] in PackageReports(env, init[i]).value && initAll[k].package == Normalize(init[i]);
      assert packages[i] == init[i];
    } else {
      assert all[k] == reps[k - |initAll|];
      ReportPackage(env, last, k - |initAll|);
      assert packages[|packages| - 1] == last;
    }
  }
}
