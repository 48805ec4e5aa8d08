/**
 * The validation-report summariser: `_calculate_validation_report`
 * (translation_utilities/collect.py) and its copy `_summarize_validation_reports`
 * (collections/collect.py).  The loop adds each report into a per-package and
 * a per-locale breakdown; the summary totals are sums over all reports.
 */
module Summary {
  import opened Validate

  // ---------------------------------------------------------------------
  // Reference definitions: filters and sums over the report list.

  function PackageOf(r: Report): string { r.package }
  function LocaleOf(r: Report): string { r.locale }

  /** `sum(counts.values())` of one report. */
  function Issues(r: Report): nat { IssueTotal(r.counts) }
  function Untranslated(r: Report): nat { r.counts.untranslated }
  function Fuzzy(r: Report): nat { r.counts.fuzzyTranslations }
  function One(r: Report): nat { 1 }

  /** The reports whose `axis` is `key`, in report order. */
  function Select(rs: seq<Report>, axis: Report -> string, key: string): seq<Report> {
    if rs == [] then []
    else
      var init := Select(rs[..|rs| - 1], axis, key);
      if axis(rs[|rs| - 1]) == key then init + [rs[|rs| - 1]] else init
  }

  /** The sum of measure `m` over the reports. */
  function Total(rs: seq<Report>, m: Report -> nat): nat {
    if rs == [] then 0 else Total(rs[..|rs| - 1], m) + m(rs[|rs| - 1])
  }

  /** An entry of `problematicLanguages`: `{"locale": locale, "issues": counts}`. */
  datatype Problem = Problem(locale: string, issues: Counts)

  /** The reports with issues, as problem entries, in report order. */
  function Problems(rs: seq<Report>): seq<Problem> {
    if rs == [] then []
    else
      var r := rs[|rs| - 1];
      Problems(rs[..|rs| - 1]) + (if Issues(r) > 0 then [Problem(r.locale, r.counts)] else [])
  }

  /** No report has issues. */
  function Clean(rs: seq<Report>): bool {
    rs == [] || (Clean(rs[..|rs| - 1]) && Issues(rs[|rs| - 1]) == 0)
  }

  /** The distinct values of `axis` over the reports. */
  function KeySet(rs: seq<Report>, axis: Report -> string): set<string> {
    set r | r in rs :: axis(r)
  }

  // ---------------------------------------------------------------------
  // The summary as the source returns it.

  datatype PackageStats = PackageStats(
    locales: nat, totalIssues: nat, untranslatedStrings: nat, fuzzyTranslations: nat,
    problematicLanguages: seq<Problem>)

  datatype LanguageStats = LanguageStats(
    packages: nat, totalIssues: nat, untranslatedStrings: nat, fuzzyTranslations: nat,
    isComplete: bool)

  datatype SummaryData = SummaryData(
    totalPackages: nat, totalLocales: nat, totalIssues: nat, untranslatedStrings: nat,
    fuzzyTranslations: nat)

  datatype ValidationSummary = ValidationSummary(
    summary: SummaryData,
    packageBreakdown: map<string, PackageStats>,
    languageBreakdown: map<string, LanguageStats>,
    reports: seq<Report>)

  /** What the breakdown of a package holds, from that package's reports alone. */
  function PackageStatsOf(rs: seq<Report>): PackageStats {
    PackageStats(|rs|, Total(rs, Issues), Total(rs, Untranslated), Total(rs, Fuzzy), Problems(rs))
  }

  /** What the breakdown of a locale holds, from that locale's reports alone. */
  function LanguageStatsOf(rs: seq<Report>): LanguageStats {
    LanguageStats(|rs|, Total(rs, Issues), Total(rs, Untranslated), Total(rs, Fuzzy), Clean(rs))
  }

  function PackageBreakdown(rs: seq<Report>): map<string, PackageStats> {
    map p | p in KeySet(rs, PackageOf) :: PackageStatsOf(Select(rs, PackageOf, p))
  }

  function LanguageBreakdown(rs: seq<Report>): map<string, LanguageStats> {
    map l | l in KeySet(rs, LocaleOf) :: LanguageStatsOf(Select(rs, LocaleOf, l))
  }

  /** The summary defined report by report, independent of the loop that builds it. */
  function ExpectedSummary(reports: seq<Report>, packages: seq<string>): ValidationSummary {
    ValidationSummary(
      SummaryData(|packages|, |KeySet(reports, LocaleOf)|, Total(reports, Issues),
                  Total(reports, Untranslated), Total(reports, Fuzzy)),
      PackageBreakdown(reports),
      LanguageBreakdown(reports),
      reports)
  }

  // ---------------------------------------------------------------------
  // The loop.

  /** The package breakdown holds exactly the groups of `rs`. */
  predicate PackageBreakdownOf(pb: map<string, PackageStats>, rs: seq<Report>) {
    pb.Keys == KeySet(rs, PackageOf)
    && forall p :: p in pb ==> pb[p] == PackageStatsOf(Select(rs, PackageOf, p))
  }

  /** The language breakdown holds exactly the groups of `rs`. */
  predicate LanguageBreakdownOf(lb: map<string, LanguageStats>, rs: seq<Report>) {
    lb.Keys == KeySet(rs, LocaleOf)
    && forall l :: l in lb ==> lb[l] == LanguageStatsOf(Select(rs, LocaleOf, l))
  }

  /** `_calculate_validation_report(reports, packages)`. */
  method CalculateValidationReport(reports: seq<Report>, packages: seq<string>) returns (result: ValidationSummary)
    ensures result == ExpectedSummary(reports, packages)
  {
    var packageBreakdown: map<string, PackageStats> := map[];
    var languageBreakdown: map<string, LanguageStats> := map[];
    for i := 0 to |reports|
      invariant PackageBreakdownOf(packageBreakdown, reports[..i])
      invariant LanguageBreakdownOf(languageBreakdown, reports[..i])
    {
      var report := reports[i];
      assert reports[..i + 1] == reports[..i] + [report];
      packageBreakdown := AddToPackageBreakdown(packageBreakdown, reports[..i], report);
      languageBreakdown := AddToLanguageBreakdown(languageBreakdown, reports[..i], report);
    }
    assert reports[..|reports|] == reports;
    assert packageBreakdown == PackageBreakdown(reports);
    assert languageBreakdown == LanguageBreakdown(reports);
    var allLocales := set r | r in reports :: r.locale;
    assert allLocales == KeySet(reports, LocaleOf);
    var summaryData := SummaryData(|packages|, |allLocales|, Total(reports, Issues),
                                   Total(reports, Untranslated), Total(reports, Fuzzy));
    result := ValidationSummary(summaryData, packageBreakdown, languageBreakdown, reports);
  }

  /** The package half of the loop body: `report` is added into its package's entry. */
  method AddToPackageBreakdown(pb: map<string, PackageStats>, ghost rs: seq<Report>, report: Report)
    returns (result: map<string, PackageStats>)
    requires PackageBreakdownOf(pb, rs)
    ensures PackageBreakdownOf(result, rs + [report])
  {
    StatsSnoc(Select(rs, PackageOf, report.package), report);
    SelectSnocAt(rs, report, PackageOf, report.package);
    var pkg := report.package;
    var counts := report.counts;
    SelectAbsent(rs, PackageOf, pkg);
    result := pb;
    if pkg !in result {
      result := result[pkg := PackageStats(0, 0, 0, 0, [])];
    }
    assert result[pkg] == PackageStatsOf(Select(rs, PackageOf, pkg));
    var ps := result[pkg];
    ps := ps.(locales := ps.locales + 1,
              totalIssues := ps.totalIssues + IssueTotal(counts),
              untranslatedStrings := ps.untranslatedStrings + counts.untranslated,
              fuzzyTranslations := ps.fuzzyTranslations + counts.fuzzyTranslations);
    if IssueTotal(counts) > 0 {
      ps := ps.(problematicLanguages := ps.problematicLanguages + [Problem(report.locale, counts)]);
    }
    assert ps == PackageStatsOf(Select(rs + [report], PackageOf, pkg)) by {
      assert Issues(report) == IssueTotal(counts);
    }
    result := result[pkg := ps];
    assert result == pb[pkg := ps];
    PackageBreakdownStep(pb, rs, report, ps);
  }

  /** The locale half of the loop body: `report` is added into its locale's entry. */
  method AddToLanguageBreakdown(lb: map<string, LanguageStats>, ghost rs: seq<Report>, report: Report)
    returns (result: map<string, LanguageStats>)
    requires LanguageBreakdownOf(lb, rs)
    ensures LanguageBreakdownOf(result, rs + [report])
  {
    StatsSnoc(Select(rs, LocaleOf, report.locale), report);
    SelectSnocAt(rs, report, LocaleOf, report.locale);
    var locale := report.locale;
    var counts := report.counts;
    SelectAbsent(rs, LocaleOf, locale);
    result := lb;
    if locale !in result {
      result := result[locale := LanguageStats(0, 0, 0, 0, true)];
    }
    assert result[locale] == LanguageStatsOf(Select(rs, LocaleOf, locale));
    var ls := result[locale];
    ls := ls.(packages := ls.packages + 1,
              totalIssues := ls.totalIssues + IssueTotal(counts),
              untranslatedStrings := ls.untranslatedStrings + counts.untranslated,
              fuzzyTranslations := ls.fuzzyTranslations + counts.fuzzyTranslations);
    if IssueTotal(counts) > 0 {
      ls := ls.(isComplete := false);
    }
    assert ls == LanguageStatsOf(Select(rs + [report], LocaleOf, locale)) by {
      assert Issues(report) == IssueTotal(counts);
    }
    result := result[locale := ls];
    assert result == lb[locale := ls];
    LanguageBreakdownStep(lb, rs, report, ls);
  }

  /** Storing the grown entry of the report's key keeps the breakdown exact. */
  lemma PackageBreakdownStep(m: map<string, PackageStats>, rs: seq<Report>, r: Report, v: PackageStats)
    requires PackageBreakdownOf(m, rs)
    requires v == PackageStatsOf(Select(rs + [r], PackageOf, r.package))
    ensures PackageBreakdownOf(m[r.package := v], rs + [r])
  {
    SelectSnoc(rs, r, PackageOf);
    KeySetSnoc(rs, r, PackageOf);
  }

  /** Storing the grown entry of the report's key keeps the breakdown exact. */
  lemma LanguageBreakdownStep(m: map<string, LanguageStats>, rs: seq<Report>, r: Report, v: LanguageStats)
    requires LanguageBreakdownOf(m, rs)
    requires v == LanguageStatsOf(Select(rs + [r], LocaleOf, r.locale))
    ensures LanguageBreakdownOf(m[r.locale := v], rs + [r])
  {
    SelectSnoc(rs, r, LocaleOf);
    KeySetSnoc(rs, r, LocaleOf);
  }

  /** A key no report carries selects nothing. */
  lemma {:induction false} SelectAbsent(rs: seq<Report>, axis: Report -> string, key: string)
    ensures key !in KeySet(rs, axis) ==> Select(rs, axis, key) == []
  {
    if rs != [] && key !in KeySet(rs, axis) {
      var init := rs[..|rs| - 1];
      assert forall x :: x in init ==> x in rs;
      assert KeySet(init, axis) <= KeySet(rs, axis);
      SelectAbsent(init, axis, key);
    }
  }

  /** Appending one report to the filter of its own key appends it there. */
  lemma SelectSnocAt(rs: seq<Report>, r: Report, axis: Report -> string, key: string)
    requires axis(r) == key
    ensures Select(rs + [r], axis, key) == Select(rs, axis, key) + [r]
  {
    assert (rs + [r])[..|rs|] == rs;
  }

  /** Appending one report to a filter: it joins the reports of its own key only. */
  lemma SelectSnoc(rs: seq<Report>, r: Report, axis: Report -> string)
    ensures forall key :: Select(rs + [r], axis, key) == Select(rs, axis, key) + (if axis(r) == key then [r] else [])
  {
    assert (rs + [r])[..|rs|] == rs;
  }

  /** Appending one report to the key set adds its key. */
  lemma KeySetSnoc(rs: seq<Report>, r: Report, axis: Report -> string)
    ensures KeySet(rs + [r], axis) == KeySet(rs, axis) + {axis(r)}
  {
    assert forall x :: x in rs + [r] <==> x in rs || x == r;
  }

  /** Appending one report to a group: every breakdown field grows by that report's share. */
  lemma StatsSnoc(s: seq<Report>, r: Report)
    ensures var p := PackageStatsOf(s);
      PackageStatsOf(s + [r]) == PackageStats(p.locales + 1, p.totalIssues + Issues(r),
        p.untranslatedStrings + Untranslated(r), p.fuzzyTranslations + Fuzzy(r),
        p.problematicLanguages + (if Issues(r) > 0 then [Problem(r.locale, r.counts)] else []))
    ensures var l := LanguageStatsOf(s);
      LanguageStatsOf(s + [r]) == LanguageStats(l.packages + 1, l.totalIssues + Issues(r),
        l.untranslatedStrings + Untranslated(r), l.fuzzyTranslations + Fuzzy(r), l.isComplete && Issues(r) == 0)
  {
    assert (s + [r])[..|s|] == s;
  }

  // ---------------------------------------------------------------------
  // Conservation: the breakdowns split the summary totals.

  predicate NoDup(keys: seq<string>) {
    forall i, j :: 0 <= i < j < |keys| ==> keys[i] != keys[j]
  }

  /** The sum over `keys` of the measure of each key's reports. */
  function GroupTotal(keys: seq<string>, rs: seq<Report>, axis: Report -> string, m: Report -> nat): nat {
    if keys == [] then 0
    else GroupTotal(keys[..|keys| - 1], rs, axis, m) + Total(Select(rs, axis, keys[|keys| - 1]), m)
  }

  /** The sum of `f` over the entries of `m` listed in `keys`. */
  function SumValues<V>(m: map<string, V>, keys: seq<string>, f: V -> nat): nat
    requires forall k :: k in keys ==> k in m
  {
    if keys == [] then 0 else SumValues(m, keys[..|keys| - 1], f) + f(m[keys[|keys| - 1]])
  }

  function PkgLocales(s: PackageStats): nat { s.locales }
  function PkgIssues(s: PackageStats): nat { s.totalIssues }
  function PkgUntranslated(s: PackageStats): nat { s.untranslatedStrings }
  function PkgFuzzy(s: PackageStats): nat { s.fuzzyTranslations }
  function LangPackages(s: LanguageStats): nat { s.packages }
  function LangIssues(s: LanguageStats): nat { s.totalIssues }
  function LangUntranslated(s: LanguageStats): nat { s.untranslatedStrings }
  function LangFuzzy(s: LanguageStats): nat { s.fuzzyTranslations }

  lemma {:induction false} TotalOne(rs: seq<Report>)
    ensures Total(rs, One) == |rs|
  {
    if rs != [] {
      TotalOne(rs[..|rs| - 1]);
    }
  }

  lemma {:induction false} GroupTotalEmpty(keys: seq<string>, axis: Report -> string, m: Report -> nat)
    ensures GroupTotal(keys, [], axis, m) == 0
  {
    if keys != [] {
      GroupTotalEmpty(keys[..|keys| - 1], axis, m);
    }
  }

  /** One more report raises the grouped sum by its measure, when its key is listed once. */
  lemma {:induction false} GroupTotalSnoc(keys: seq<string>, rs: seq<Report>, r: Report, axis: Report -> string, m: Report -> nat)
    requires NoDup(keys)
    ensures GroupTotal(keys, rs + [r], axis, m) == GroupTotal(keys, rs, axis, m) + (if axis(r) in keys then m(r) else 0)
  {
    if keys != [] {
      var ks := keys[..|keys| - 1];
      var k := keys[|keys| - 1];
      assert keys == ks + [k];
      assert NoDup(ks) by {
        forall i, j | 0 <= i < j < |ks| ensures ks[i] != ks[j] {
          assert ks[i] == keys[i] && ks[j] == keys[j];
        }
      }
      GroupTotalSnoc(ks, rs, r, axis, m);
      SelectSnoc(rs, r, axis);
      var s := Select(rs, axis, k);
      assert (s + [r])[..|s|] == s;
      if axis(r) == k {
        assert axis(r) !in ks by {
          forall i | 0 <= i < |ks| ensures ks[i] != k {
            assert ks[i] == keys[i];
          }
        }
      }
    }
  }

  /**
   * Summing a measure group by group over a duplicate-free listing of all
   * keys gives the measure summed over all reports.
   */
  lemma {:induction false} Conservation(keys: seq<string>, rs: seq<Report>, axis: Report -> string, m: Report -> nat)
    requires NoDup(keys)
    requires forall i :: 0 <= i < |rs| ==> axis(rs[i]) in keys
    ensures GroupTotal(keys, rs, axis, m) == Total(rs, m)
  {
    if rs == [] {
      GroupTotalEmpty(keys, axis, m);
    } else {
      var init := rs[..|rs| - 1];
      var r := rs[|rs| - 1];
      assert rs == init + [r];
      forall i | 0 <= i < |init| ensures axis(init[i]) in keys {
        assert init[i] == rs[i];
      }
      Conservation(keys, init, axis, m);
      GroupTotalSnoc(keys, init, r, axis, m);
    }
  }

  /** The package breakdown's fields, summed over listed packages, are grouped sums of the reports. */
  lemma {:induction false} PackageSums(rs: seq<Report>, keys: seq<string>)
    requires forall k :: k in keys ==> k in PackageBreakdown(rs)
    ensures var pb := PackageBreakdown(rs);
      SumValues(pb, keys, PkgLocales) == GroupTotal(keys, rs, PackageOf, One)
      && SumValues(pb, keys, PkgIssues) == GroupTotal(keys, rs, PackageOf, Issues)
      && SumValues(pb, keys, PkgUntranslated) == GroupTotal(keys, rs, PackageOf, Untranslated)
      && SumValues(pb, keys, PkgFuzzy) == GroupTotal(keys, rs, PackageOf, Fuzzy)
  {
    if keys != [] {
      var ks := keys[..|keys| - 1];
      assert forall k :: k in ks ==> k in keys;
      PackageSums(rs, ks);
      TotalOne(Select(rs, PackageOf, keys[|keys| - 1]));
    }
  }

  /** The language breakdown's fields, summed over listed locales, are grouped sums of the reports. */
  lemma {:induction false} LanguageSums(rs: seq<Report>, keys: seq<string>)
    requires forall k :: k in keys ==> k in LanguageBreakdown(rs)
    ensures var lb := LanguageBreakdown(rs);
      SumValues(lb, keys, LangPackages) == GroupTotal(keys, rs, LocaleOf, One)
      && SumValues(lb, keys, LangIssues) == GroupTotal(keys, rs, LocaleOf, Issues)
      && SumValues(lb, keys, LangUntranslated) == GroupTotal(keys, rs, LocaleOf, Untranslated)
      && SumValues(lb, keys, LangFuzzy) == GroupTotal(keys, rs, LocaleOf, Fuzzy)
  {
    if keys != [] {
      var ks := keys[..|keys| - 1];
      assert forall k :: k in ks ==> k in keys;
      LanguageSums(rs, ks);
      TotalOne(Select(rs, LocaleOf, keys[|keys| - 1]));
    }
  }

  /**
   * Summed over all packages, the package breakdown gives back the summary:
   * `locales` adds up to the number of reports and `totalIssues`,
   * `untranslatedStrings` and `fuzzyTranslations` to the summary totals.
   */
  lemma PackageBreakdownConserves(reports: seq<Report>, packages: seq<string>, keys: seq<string>)
    requires NoDup(keys)
    requires forall k :: k in keys <==> k in ExpectedSummary(reports, packages).packageBreakdown
    ensures var s := ExpectedSummary(reports, packages); var pb := s.packageBreakdown;
      SumValues(pb, keys, PkgLocales) == |reports|
      && SumValues(pb, keys, PkgIssues) == s.summary.totalIssues
      && SumValues(pb, keys, PkgUntranslated) == s.summary.untranslatedStrings
      && SumValues(pb, keys, PkgFuzzy) == s.summary.fuzzyTranslations
  {
    forall i | 0 <= i < |reports| ensures PackageOf(reports[i]) in keys {
      assert reports[i] in reports;
    }
    PackageSums(reports, keys);
    Conservation(keys, reports, PackageOf, One);
    Conservation(keys, reports, PackageOf, Issues);
    Conservation(keys, reports, PackageOf, Untranslated);
    Conservation(keys, reports, PackageOf, Fuzzy);
    TotalOne(reports);
  }

  /**
   * Summed over all locales, the language breakdown gives back the summary:
   * `packages` adds up to the number of reports and `totalIssues`,
   * `untranslatedStrings` and `fuzzyTranslations` to the summary totals.
   */
  lemma LanguageBreakdownConserves(reports: seq<Report>, packages: seq<string>, keys: seq<string>)
    requires NoDup(keys)
    requires forall k :: k in keys <==> k in ExpectedSummary(reports, packages).languageBreakdown
    ensures var s := ExpectedSummary(reports, packages); var lb := s.languageBreakdown;
      SumValues(lb, keys, LangPackages) == |reports|
      && SumValues(lb, keys, LangIssues) == s.summary.totalIssues
      && SumValues(lb, keys, LangUntranslated) == s.summary.untranslatedStrings
      && SumValues(lb, keys, LangFuzzy) == s.summary.fuzzyTranslations
  {
    forall i | 0 <= i < |reports| ensures LocaleOf(reports[i]) in keys {
      assert reports[i] in reports;
    }
    LanguageSums(reports, keys);
    Conservation(keys, reports, LocaleOf, One);
    Conservation(keys, reports, LocaleOf, Issues);
    Conservation(keys, reports, LocaleOf, Untranslated);
    Conservation(keys, reports, LocaleOf, Fuzzy);
    TotalOne(reports);
  }

  // ---------------------------------------------------------------------
  // Completeness and problem lists.

  /** A report is in the filter of `key` exactly when it is a report with that key. */
  lemma {:induction false} SelectMembership(rs: seq<Report>, axis: Report -> string, key: string, x: Report)
    ensures x in Select(rs, axis, key) <==> x in rs && axis(x) == key
  {
    if rs != [] {
      var init := rs[..|rs| - 1];
      SelectMembership(init, axis, key, x);
      assert rs == init + [rs[|rs| - 1]];
    }
  }

  lemma {:induction false} CleanMeansNoIssues(rs: seq<Report>)
    ensures Clean(rs) <==> forall x :: x in rs ==> Issues(x) == 0
  {
    if rs != [] {
      var init := rs[..|rs| - 1];
      CleanMeansNoIssues(init);
      assert rs == init + [rs[|rs| - 1]];
    }
  }

  /** `isComplete` is false exactly when some report for the locale has issues. */
  lemma IsCompleteIff(reports: seq<Report>, packages: seq<string>, l: string)
    requires l in ExpectedSummary(reports, packages).languageBreakdown
    ensures !ExpectedSummary(reports, packages).languageBreakdown[l].isComplete
            <==> exists i :: 0 <= i < |reports| && reports[i].locale == l && IssueTotal(reports[i].counts) > 0
  {
    var sel := Select(reports, LocaleOf, l);
    CleanMeansNoIssues(sel);
    if exists i :: 0 <= i < |reports| && reports[i].locale == l && IssueTotal(reports[i].counts) > 0 {
      var i :| 0 <= i < |reports| && reports[i].locale == l && IssueTotal(reports[i].counts) > 0;
      SelectMembership(reports, LocaleOf, l, reports[i]);
    }
    if !Clean(sel) {
      var x :| x in sel && Issues(x) > 0;
      SelectMembership(reports, LocaleOf, l, x);
      var i :| 0 <= i < |reports| && reports[i] == x;
    }
  }

  lemma {:induction false} ProblemsMembership(rs: seq<Report>, q: Problem)
    ensures q in Problems(rs) <==> exists x :: x in rs && Issues(x) > 0 && q == Problem(x.locale, x.counts)
  {
    if rs != [] {
      var init := rs[..|rs| - 1];
      ProblemsMembership(init, q);
      assert rs == init + [rs[|rs| - 1]];
    }
  }

  lemma {:induction false} SelectAppend(a: seq<Report>, b: seq<Report>, axis: Report -> string, key: string)
    ensures Select(a + b, axis, key) == Select(a, axis, key) + Select(b, axis, key)
    decreases |b|
  {
    if b == [] {
      assert a + b == a;
    } else {
      var b0 := b[..|b| - 1];
      assert (a + b)[..|a + b| - 1] == a + b0;
      assert (a + b)[|a + b| - 1] == b[|b| - 1];
      SelectAppend(a, b0, axis, key);
    }
  }

  lemma {:induction false} ProblemsAppend(a: seq<Report>, b: seq<Report>)
    ensures Problems(a + b) == Problems(a) + Problems(b)
    decreases |b|
  {
    if b == [] {
      assert a + b == a;
    } else {
      var b0 := b[..|b| - 1];
      assert (a + b)[..|a + b| - 1] == a + b0;
      assert (a + b)[|a + b| - 1] == b[|b| - 1];
      ProblemsAppend(a, b0);
    }
  }

  /**
   * `problematicLanguages` of a package lists exactly its reports with
   * issues, as `(locale, counts)` entries.
   */
  lemma ProblematicLanguages(reports: seq<Report>, packages: seq<string>, p: string, q: Problem)
    requires p in ExpectedSummary(reports, packages).packageBreakdown
    ensures q in ExpectedSummary(reports, packages).packageBreakdown[p].problematicLanguages
            <==> exists i :: 0 <= i < |reports| && reports[i].package == p && IssueTotal(reports[i].counts) > 0
                             && q == Problem(reports[i].locale, reports[i].counts)
  {
    var sel := Select(reports, PackageOf, p);
    ProblemsMembership(sel, q);
    if exists i :: 0 <= i < |reports| && reports[i].package == p && IssueTotal(reports[i].counts) > 0
                   && q == Problem(reports[i].locale, reports[i].counts) {
      var i :| 0 <= i < |reports| && reports[i].package == p && IssueTotal(reports[i].counts) > 0
               && q == Problem(reports[i].locale, reports[i].counts);
      SelectMembership(reports, PackageOf, p, reports[i]);
    }
    if q in Problems(sel) {
      var x :| x in sel && Issues(x) > 0 && q == Problem(x.locale, x.counts);
      SelectMembership(reports, PackageOf, p, x);
      var i :| 0 <= i < |reports| && reports[i] == x;
    }
  }

  /** The problem list keeps report order: the reports of `a` come before those of `b`. */
  lemma ProblematicInOrder(a: seq<Report>, b: seq<Report>, packages: seq<string>, p: string)
    requires p in ExpectedSummary(a + b, packages).packageBreakdown
    ensures ExpectedSummary(a + b, packages).packageBreakdown[p].problematicLanguages
            == Problems(Select(a, PackageOf, p)) + Problems(Select(b, PackageOf, p))
  {
    SelectAppend(a, b, PackageOf, p);
    ProblemsAppend(Select(a, PackageOf, p), Select(b, PackageOf, p));
  }

  /** `totalLocales` counts the locale breakdown's entries; `totalPackages` counts the packages asked for. */
  lemma SummaryCounts(reports: seq<Report>, packages: seq<string>)
    ensures var s := ExpectedSummary(reports, packages);
      s.summary.totalLocales == |s.languageBreakdown.Keys| == |set i | 0 <= i < |reports| :: reports[i].locale|
      && s.summary.totalPackages == |packages|
  {
    var a := set i | 0 <= i < |reports| :: reports[i].locale;
    forall l | l in KeySet(reports, LocaleOf) ensures l in a {
      var x :| x in reports && LocaleOf(x) == l;
      var i :| 0 <= i < |reports| && reports[i] == x;
    }
    forall l | l in a ensures l in KeySet(reports, LocaleOf) {
      var i :| 0 <= i < |reports| && reports[i].locale == l;
      assert reports[i] in reports && LocaleOf(reports[i]) == l;
    }
    assert KeySet(reports, LocaleOf) == a;
    assert LanguageBreakdown(reports).Keys == KeySet(reports, LocaleOf);
  }
}
