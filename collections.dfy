/**
 * The second copy of the pipeline, collections/collect.py: the same
 * per-package scans, a collection run that writes one JSON file per
 * package and one merged file, and a validation run that summarises the
 * reports.  The writes are modelled as the contents they are given.
 */
module Collections {
  import opened Wrappers
  import opened Discovery
  import opened LocaleTables
  import Collect
  import Validate
  import Summary
  import Sorting

  /** `scan_package_for_translations(package_name)`: the same scan as `get_package_translations`. */
  method ScanPackageForTranslations(env: Collect.Environment, packageName: string) returns (r: Option<ByLocale>)
    ensures r == Collect.PackageTranslations(env, packageName)
    ensures FindPackagePath(env.index, packageName).None? ==> r == Some(map[])
  {
    r := Collect.GetPackageTranslations(env, packageName);
  }

  /** `scan_package_for_validation(package_name)`: the same scan as `get_package_validation_reports`. */
  method ScanPackageForValidation(env: Collect.Environment, packageName: string) returns (r: Option<seq<Validate.Report>>)
    ensures r == Collect.PackageReports(env, packageName)
    ensures FindPackagePath(env.index, packageName).None? ==> r == Some([])
  {
    r := Collect.GetPackageValidationReports(env, packageName);
  }

  /**
   * One run of `collect_translations_to_json`: the per-package files written,
   * in order, as `(normalised name, table)`; the merged table written to the
   * top-level file; and the returned counts.
   */
  datatype JsonRun = JsonRun(
    packageFiles: seq<(string, ByLocale)>,
    merged: Collected,
    packagesProcessed: nat,
    locales: seq<string>)

  /** `collect_translations_to_json(packages, output_dir)`; `None` when a package's scan raises. */
  method CollectTranslationsToJson(env: Collect.Environment, packages: seq<string>) returns (r: Option<JsonRun>)
    ensures r.None? <==> Collect.Kept(env, packages).None?
    ensures r.Some? ==> var items := Collect.Kept(env, packages).value;
      r.value == JsonRun(items, Transpose(items), |packages|, Sorting.SortedListing(Transpose(items).Keys))
  {
    var results: Collected := map[];
    var packageFiles: seq<(string, ByLocale)> := [];
    for i := 0 to |packages|
      invariant Collect.Kept(env, packages[..i]) == Some(packageFiles)
      invariant results == Transpose(packageFiles)
    {
      Collect.KeptSnoc(env, packages, i);
      var translationsByLocale := ScanPackageForTranslations(env, packages[i]);
      if translationsByLocale.None? {
        Collect.KeptNoneExtends(env, packages, i + 1);
        return None;
      }
      if translationsByLocale.value != map[] {
        var normalizedName := Normalize(packages[i]);
        results := StoreLocales(results, normalizedName, translationsByLocale.value);
        Collect.ItemsSnoc(packageFiles, normalizedName, translationsByLocale.value);
        packageFiles := packageFiles + [(normalizedName, translationsByLocale.value)];
      }
    }
    assert packages[..|packages|] == packages;
    var merged := results;
    var locales := Sorting.SortStrings(merged.Keys);
    r := Some(JsonRun(packageFiles, merged, |packages|, locales));
  }

  /**
   * The merged file holds, for each package with translations and each of
   * its locales, the package's table for that locale; nothing else.
   */
  lemma MergedFileContents(env: Collect.Environment, packages: seq<string>, i: nat, l: string)
    requires Collect.Kept(env, packages).Some? && i < |packages|
    ensures var t := Collect.PackageTranslations(env, packages[i]);
      var m := Transpose(Collect.Kept(env, packages).value); var n := Normalize(packages[i]);
      t.Some? && (l in t.value ==> l in m && n in m[l] && m[l][n] == t.value[l])
  {
    var items := Collect.Kept(env, packages).value;
    Collect.KeptComplete(env, packages, i);
    var t := Collect.PackageTranslations(env, packages[i]);
    if l in t.value {
      var k :| 0 <= k < |items| && items[k] == (Normalize(packages[i]), t.value);
      Collect.KeptConsistent(env, packages);
      TransposeConsistent(items, k, l);
    }
  }

  /** A package with no translations is written to no file. */
  lemma EmptyPackageWritesNothing(env: Collect.Environment, packages: seq<string>, i: nat)
    requires Collect.Kept(env, packages).Some? && i < |packages|
    requires Collect.PackageTranslations(env, packages[i]) == Some(map[])
    ensures forall k :: 0 <= k < |Collect.Kept(env, packages).value| ==>
      Collect.Kept(env, packages).value[k].0 != Normalize(packages[i])
  {
    var items := Collect.Kept(env, packages).value;
    forall k | 0 <= k < |items| ensures items[k].0 != Normalize(packages[i]) {
      Collect.KeptItem(env, packages, k);
      var j :| 0 <= j < |packages| && items[k].0 == Normalize(packages[j])
        && Collect.PackageTranslations(env, packages[j]) == Some(items[k].1) && items[k].1 != map[];
      Collect.PackageTranslationsByModule(env, packages[i], packages[j]);
    }
  }

  /** `_summarize_validation_reports(reports, packages)`: the same summariser. */
  method SummarizeValidationReports(reports: seq<Validate.Report>, packages: seq<string>) returns (result: Summary.ValidationSummary)
    ensures result == Summary.ExpectedSummary(reports, packages)
  {
    result := Summary.CalculateValidationReport(reports, packages);
  }

  /** `validate_translations_from_packages(packages, output_dir)`: the summary written and returned. */
  method ValidateTranslationsFromPackages(env: Collect.Environment, packages: seq<string>)
    returns (r: Option<Summary.ValidationSummary>)
    ensures r.None? <==> Collect.AllReports(env, packages).None?
    ensures r.Some? ==> r.value == Summary.ExpectedSummary(Collect.AllReports(env, packages).value, packages)
  {
    var allValidationReports: seq<Validate.Report> := [];
    for i := 0 to |packages|
      invariant Collect.AllReports(env, packages[..i]) == Some(allValidationReports)
    {
      assert packages[..i + 1][..i] == packages[..i];
      var validationReports := ScanPackageForValidation(env, packages[i]);
      if validationReports.None? {
        Collect.AllReportsNoneExtends(env, packages, i + 1);
        return None;
      }
      allValidationReports := allValidationReports + validationReports.value;
    }
    assert packages[..|packages|] == packages;
    var summary := SummarizeValidationReports(allValidationReports, packages);
    r := Some(summary);
  }
}
