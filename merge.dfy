/**
 * `merge_by_locale` (collections/merge.py): the scan results of several
 * packages regrouped by locale, under the normalised package names.
 */
module Merge {
  import Discovery
  import opened LocaleTables

  /** One package's scan: its name as given and its `locale -> JSON` table. */
  datatype PackageScanResult = PackageScanResult(packageName: string, translationsByLocale: ByLocale)

  /** The `(normalised name, table)` items the merge stores, in input order. */
  function Items(results: seq<PackageScanResult>): (items: seq<(string, ByLocale)>)
    ensures |items| == |results|
  {
    if results == [] then []
    else
      var last := results[|results| - 1];
      Items(results[..|results| - 1]) + [(Discovery.Normalize(last.packageName), last.translationsByLocale)]
  }

  /** Item `i` is result `i` under its normalised name. */
  lemma {:induction false} ItemsAt(results: seq<PackageScanResult>, i: nat)
    requires i < |results|
    ensures Items(results)[i] == (Discovery.Normalize(results[i].packageName), results[i].translationsByLocale)
  {
    var init := results[..|results| - 1];
    if i < |init| {
      ItemsAt(init, i);
    } else if init != [] {
      ItemsAt(init, 0);
    }
  }

  /** `merge_by_locale(results)`. */
  method MergeByLocale(results: seq<PackageScanResult>) returns (merged: Collected)
    ensures merged == Transpose(Items(results))
    ensures results == [] ==> merged == map[]
  {
    merged := map[];
    for i := 0 to |results|
      invariant merged == Transpose(Items(results[..i]))
    {
      assert results[..i + 1][..i] == results[..i];
      var res := results[i];
      var normalizedPackage := Discovery.Normalize(res.packageName);
      merged := StoreLocales(merged, normalizedPackage, res.translationsByLocale);
    }
    assert results[..|results|] == results;
  }

  /** Every outer key of the merge is a locale of some input result, and every such locale is one. */
  lemma {:induction false} MergedLocales(results: seq<PackageScanResult>, l: string)
    ensures l in Transpose(Items(results)) <==> exists i :: 0 <= i < |results| && l in results[i].translationsByLocale
  {
    var items := Items(results);
    TransposeLocales(items, l);
    if exists i :: 0 <= i < |items| && l in items[i].1 {
      var i :| 0 <= i < |items| && l in items[i].1;
      ItemsAt(results, i);
    }
    if exists i :: 0 <= i < |results| && l in results[i].translationsByLocale {
      var i :| 0 <= i < |results| && l in results[i].translationsByLocale;
      ItemsAt(results, i);
    }
  }

  /** Each inner key is the normalised name of a result that has that locale. */
  lemma {:induction false} MergedPackages(results: seq<PackageScanResult>, l: string, n: string)
    requires l in Transpose(Items(results)) && n in Transpose(Items(results))[l]
    ensures exists i :: 0 <= i < |results| && Discovery.Normalize(results[i].packageName) == n
                        && l in results[i].translationsByLocale
  {
    var items := Items(results);
    TransposeCells(items, l, n);
    var i :| 0 <= i < |items| && items[i].0 == n && l in items[i].1;
    ItemsAt(results, i);
  }

  /**
   * `merged[l][norm(r.package_name)]` is `r`'s mapping for `l` unless a later
   * result with the same normalised name also has `l`: the later one wins.
   */
  lemma {:induction false} MergedLastWins(results: seq<PackageScanResult>, i: nat, l: string)
    requires i < |results| && l in results[i].translationsByLocale
    requires forall j :: i < j < |results| ==>
      Discovery.Normalize(results[j].packageName) != Discovery.Normalize(results[i].packageName)
      || l !in results[j].translationsByLocale
    ensures var m := Transpose(Items(results)); var n := Discovery.Normalize(results[i].packageName);
      l in m && n in m[l] && m[l][n] == results[i].translationsByLocale[l]
  {
    var items := Items(results);
    ItemsAt(results, i);
    forall j | i < j < |items| ensures items[j].0 != items[i].0 || l !in items[j].1 {
      ItemsAt(results, j);
    }
    TransposeLastWins(items, i, l);
  }
}
