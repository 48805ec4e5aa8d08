/**
 * The locale-by-package tables that merge.py and both collect.py files
 * build: each package's `locale -> JSON` table is stored under
 * `table[locale][package]`.
 */
module LocaleTables {
  import Convert

  /** One package's translations: locale to i18next JSON object. */
  type ByLocale = map<string, Convert.Json>

  /** The merged tables: locale to package to i18next JSON object. */
  type Collected = map<string, map<string, Convert.Json>>

  /**
   * `for locale, mapping in tbl.items(): table.setdefault(locale, {})[name] = mapping`.
   * Locales of `tbl` get `name` mapped to their JSON; other locales are untouched.
   */
  function AddPackage(c: Collected, name: string, tbl: ByLocale): (r: Collected)
    ensures r.Keys == c.Keys + tbl.Keys
  {
    map l | l in c.Keys + tbl.Keys ::
      if l in tbl then (if l in c then c[l] else map[])[name := tbl[l]] else c[l]
  }

  /** The loop over one package's locales, visiting them in any order. */
  method StoreLocales(c: Collected, name: string, tbl: ByLocale) returns (r: Collected)
    ensures r == AddPackage(c, name, tbl)
  {
    r := c;
    var todo := tbl.Keys;
    while todo != {}
      invariant todo <= tbl.Keys
      invariant r.Keys == c.Keys + (tbl.Keys - todo)
      invariant forall l :: l in r ==>
        r[l] == if l in tbl.Keys - todo then (if l in c then c[l] else map[])[name := tbl[l]] else c[l]
      decreases todo
    {
      var locale :| locale in todo;
      var row: map<string, Convert.Json> := map[];
      if locale in r {
        row := r[locale];
      }
      assert row == if locale in c then c[locale] else map[];
      r := r[locale := row[name := tbl[locale]]];
      todo := todo - {locale};
    }
  }

  /** The tables after storing every `(name, table)` item in order. */
  function Transpose(items: seq<(string, ByLocale)>): Collected {
    if items == [] then map[]
    else AddPackage(Transpose(items[..|items| - 1]), items[|items| - 1].0, items[|items| - 1].1)
  }

  /** Storing one package: what the locale row `l` holds afterwards. */
  lemma AddPackageEffect(c: Collected, name: string, tbl: ByLocale, l: string, n: string)
    ensures var r := AddPackage(c, name, tbl);
      (l in tbl ==> l in r && name in r[l] && r[l][name] == tbl[l])
      && ((l !in tbl || n != name) ==>
            ((l in r && n in r[l]) <==> (l in c && n in c[l]))
            && (l in c && n in c[l] ==> r[l][n] == c[l][n]))
  {
  }

  /** A locale is in the tables exactly when some item's table has it. */
  lemma {:induction false} TransposeLocales(items: seq<(string, ByLocale)>, l: string)
    ensures l in Transpose(items) <==> exists i :: 0 <= i < |items| && l in items[i].1
  {
    if items != [] {
      var init := items[..|items| - 1];
      TransposeLocales(init, l);
      if exists i :: 0 <= i < |init| && l in init[i].1 {
        var i :| 0 <= i < |init| && l in init[i].1;
        assert items[i] == init[i];
      }
      if exists i :: 0 <= i < |items| && l in items[i].1 {
        var i :| 0 <= i < |items| && l in items[i].1;
        if i < |init| {
          assert init[i] == items[i];
        }
      }
    }
  }

  /** `(l, n)` is filled exactly when some item named `n` has locale `l`. */
  lemma {:induction false} TransposeCells(items: seq<(string, ByLocale)>, l: string, n: string)
    ensures (l in Transpose(items) && n in Transpose(items)[l])
            <==> exists i :: 0 <= i < |items| && items[i].0 == n && l in items[i].1
  {
    if items != [] {
      var init := items[..|items| - 1];
      var last := items[|items| - 1];
      TransposeCells(init, l, n);
      AddPackageEffect(Transpose(init), last.0, last.1, l, n);
      if exists i :: 0 <= i < |init| && init[i].0 == n && l in init[i].1 {
        var i :| 0 <= i < |init| && init[i].0 == n && l in init[i].1;
        assert items[i] == init[i];
      }
      if exists i :: 0 <= i < |items| && items[i].0 == n && l in items[i].1 {
        var i :| 0 <= i < |items| && items[i].0 == n && l in items[i].1;
        if i < |init| {
          assert init[i] == items[i];
        }
      }
    }
  }

  /**
   * The last item named `n` with locale `l` decides the cell: later items
   * overwrite earlier ones.
   */
  lemma {:induction false} TransposeLastWins(items: seq<(string, ByLocale)>, i: nat, l: string)
    requires i < |items| && l in items[i].1
    requires forall j :: i < j < |items| ==> items[j].0 != items[i].0 || l !in items[j].1
    ensures var t := Transpose(items);
      l in t && items[i].0 in t[l] && t[l][items[i].0] == items[i].1[l]
  {
    var init := items[..|items| - 1];
    var last := items[|items| - 1];
    AddPackageEffect(Transpose(init), last.0, last.1, l, items[i].0);
    if i < |items| - 1 {
      forall j | i < j < |init| ensures init[j].0 != init[i].0 || l !in init[j].1 {
        assert init[j] == items[j];
      }
      TransposeLastWins(init, i, l);
    }
  }

  /** An item with locale `l` has a last writer at or after it, so its cell is filled. */
  lemma {:induction false} TransposeLastWriter(items: seq<(string, ByLocale)>, i: nat, l: string)
    requires i < |items| && l in items[i].1
    ensures exists j :: i <= j < |items| && items[j].0 == items[i].0 && l in items[j].1
              && var t := Transpose(items); l in t && items[i].0 in t[l] && t[l][items[i].0] == items[j].1[l]
    decreases |items| - i
  {
    if forall j :: i < j < |items| ==> items[j].0 != items[i].0 || l !in items[j].1 {
      TransposeLastWins(items, i, l);
    } else {
      var j :| i < j < |items| && items[j].0 == items[i].0 && l in items[j].1;
      TransposeLastWriter(items, j, l);
    }
  }

  /**
   * When every item with the same name carries the same table, the tables
   * are an exact transposition: `t[l][n] == tbl_n[l]` for every item `(n, tbl_n)`
   * and locale `l` of it, and nothing else is filled.
   */
  lemma TransposeConsistent(items: seq<(string, ByLocale)>, i: nat, l: string)
    requires forall a, b :: 0 <= a < |items| && 0 <= b < |items| && items[a].0 == items[b].0 ==> items[a].1 == items[b].1
    requires i < |items| && l in items[i].1
    ensures var t := Transpose(items); l in t && items[i].0 in t[l] && t[l][items[i].0] == items[i].1[l]
  {
    TransposeLastWriter(items, i, l);
  }

  /** Every locale row of the tables names at least one package. */
  lemma TransposeRowsNonEmpty(items: seq<(string, ByLocale)>, l: string)
    requires l in Transpose(items)
    ensures Transpose(items)[l] != map[]
  {
    TransposeLocales(items, l);
    var i :| 0 <= i < |items| && l in items[i].1;
    TransposeLastWriter(items, i, l);
  }
}
