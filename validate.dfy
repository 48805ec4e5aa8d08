/**
 * Validation of one PO catalog (translation_utilities/validate.py,
 * `validate_po`): every entry is sorted into at most one of three issue
 * lists, and the report carries the lists and their lengths.
 */
module Validate {
  import opened Po
  import Discovery

  /** Where an entry lands; `Translated` entries are in no list. */
  datatype Category = Obsolete | Fuzzy | Untranslated | Translated

  /** The first test that holds decides: obsolete, then fuzzy, then untranslated. */
  function Categorize(e: PoEntry): (c: Category)
    ensures c == Obsolete <==> e.obsolete
    ensures c == Fuzzy <==> !e.obsolete && "fuzzy" in e.flags
    ensures c == Untranslated <==> !e.obsolete && "fuzzy" !in e.flags && e.msgstr == "" && e.msgstrPlural == map[]
  {
    if e.obsolete then Obsolete
    else if "fuzzy" in e.flags then Fuzzy
    else if e.msgstr == "" && e.msgstrPlural == map[] then Untranslated
    else Translated
  }

  /** The msgids of the entries of category `c`, in entry order. */
  function Msgids(entries: seq<PoEntry>, c: Category): seq<string> {
    if entries == [] then []
    else
      var init := Msgids(entries[..|entries| - 1], c);
      var last := entries[|entries| - 1];
      if Categorize(last) == c then init + [last.msgid] else init
  }

  datatype Issues = Issues(untranslated: seq<string>, fuzzyTranslations: seq<string>, obsoleteTranslations: seq<string>)

  datatype Counts = Counts(untranslated: nat, fuzzyTranslations: nat, obsoleteTranslations: nat)

  /** The three counts added up, `sum(report["counts"].values())`. */
  function IssueTotal(c: Counts): nat {
    c.untranslated + c.fuzzyTranslations + c.obsoleteTranslations
  }

  /** The report of one catalog; `file` is the catalog's path. */
  datatype Report = Report(package: string, locale: string, file: Discovery.Path, issues: Issues, counts: Counts)

  /** The report `validate_po` returns, field by field. */
  function ReportOf(entries: seq<PoEntry>, packageName: string, locale: string, poPath: Discovery.Path): Report {
    var untranslated := Msgids(entries, Untranslated);
    var fuzzy := Msgids(entries, Fuzzy);
    var obsolete := Msgids(entries, Obsolete);
    Report(Discovery.Normalize(packageName), locale, poPath, Issues(untranslated, fuzzy, obsolete),
           Counts(|untranslated|, |fuzzy|, |obsolete|))
  }

  /** `validate_po(po_file, package_name, locale, po_path)`. */
  method ValidatePo(entries: seq<PoEntry>, packageName: string, locale: string, poPath: Discovery.Path) returns (report: Report)
    ensures report.package == Discovery.Normalize(packageName)
    ensures report.locale == locale && report.file == poPath
    ensures report.issues.untranslated == Msgids(entries, Untranslated)
    ensures report.issues.fuzzyTranslations == Msgids(entries, Fuzzy)
    ensures report.issues.obsoleteTranslations == Msgids(entries, Obsolete)
    ensures report.counts.untranslated == |report.issues.untranslated|
    ensures report.counts.fuzzyTranslations == |report.issues.fuzzyTranslations|
    ensures report.counts.obsoleteTranslations == |report.issues.obsoleteTranslations|
    ensures report == ReportOf(entries, packageName, locale, poPath)
  {
    var untranslated: seq<string> := [];
    var fuzzy: seq<string> := [];
    var obsolete: seq<string> := [];
    for i := 0 to |entries|
      invariant untranslated == Msgids(entries[..i], Untranslated)
      invariant fuzzy == Msgids(entries[..i], Fuzzy)
      invariant obsolete == Msgids(entries[..i], Obsolete)
    {
      assert entries[..i + 1][..i] == entries[..i];
      var entry := entries[i];
      if entry.obsolete {
        obsolete := obsolete + [entry.msgid];
      } else if "fuzzy" in entry.flags {
        fuzzy := fuzzy + [entry.msgid];
      } else if entry.msgstr == "" && entry.msgstrPlural == map[] {
        untranslated := untranslated + [entry.msgid];
      }
    }
    assert entries[..|entries|] == entries;
    var issues := Issues(untranslated, fuzzy, obsolete);
    report := Report(Discovery.Normalize(packageName), locale, poPath, issues,
                     Counts(|untranslated|, |fuzzy|, |obsolete|));
  }

  // ---------------------------------------------------------------------
  // What the lists hold.

  /** A list keeps entry order: the list of a concatenation is the concatenation of the lists. */
  lemma {:induction false} MsgidsAppend(a: seq<PoEntry>, b: seq<PoEntry>, c: Category)
    ensures Msgids(a + b, c) == Msgids(a, c) + Msgids(b, c)
    decreases |b|
  {
    if b == [] {
      assert a + b == a;
    } else {
      var b0 := b[..|b| - 1];
      assert (a + b)[..|a + b| - 1] == a + b0;
      assert (a + b)[|a + b| - 1] == b[|b| - 1];
      MsgidsAppend(a, b0, c);
    }
  }

  /** One entry contributes its msgid to the list of its own category and to no other. */
  lemma MsgidsSingle(e: PoEntry, c: Category)
    ensures Msgids([e], c) == if Categorize(e) == c then [e.msgid] else []
  {
    assert [e][..0] == [];
  }

  /** A msgid is in the list of `c` exactly when some entry of category `c` has it. */
  lemma {:induction false} MsgidsMembership(entries: seq<PoEntry>, c: Category, x: string)
    ensures x in Msgids(entries, c) <==> exists i :: 0 <= i < |entries| && entries[i].msgid == x && Categorize(entries[i]) == c
  {
    if entries != [] {
      var init := entries[..|entries| - 1];
      MsgidsMembership(init, c, x);
      if exists i :: 0 <= i < |init| && init[i].msgid == x && Categorize(init[i]) == c {
        var i :| 0 <= i < |init| && init[i].msgid == x && Categorize(init[i]) == c;
        assert entries[i] == init[i];
      }
      if exists i :: 0 <= i < |entries| && entries[i].msgid == x && Categorize(entries[i]) == c {
        var i :| 0 <= i < |entries| && entries[i].msgid == x && Categorize(entries[i]) == c;
        if i < |init| {
          assert init[i] == entries[i];
        }
      }
    }
  }

  /**
   * The categories split the entries: the four lists together are exactly
   * as long as the catalog, one msgid per entry.
   */
  lemma {:induction false} MsgidsPartition(entries: seq<PoEntry>)
    ensures |Msgids(entries, Obsolete)| + |Msgids(entries, Fuzzy)| + |Msgids(entries, Untranslated)|
            + |Msgids(entries, Translated)| == |entries|
  {
    if entries != [] {
      MsgidsPartition(entries[..|entries| - 1]);
    }
  }

  /** The reported counts add up to at most the number of entries. */
  lemma IssueTotalBound(entries: seq<PoEntry>)
    ensures |Msgids(entries, Untranslated)| + |Msgids(entries, Fuzzy)| + |Msgids(entries, Obsolete)| <= |entries|
  {
    MsgidsPartition(entries);
  }
}
