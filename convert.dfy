/**
 * Conversion of a PO catalog to the flat i18next JSON object
 * (translation_utilities/convert.py, `po_to_i18next_json`).
 */
module Convert {
  import opened Strings
  import opened Po
  import Discovery

  /** An i18next JSON object: key to translated text. */
  type Json = map<string, string>

  /** Entries that produce keys: not obsolete and with a non-empty msgid. */
  predicate IsLive(e: PoEntry) {
    !e.obsolete && e.msgid != ""
  }

  predicate IsPlural(e: PoEntry) {
    e.msgstrPlural != map[]
  }

  function PluralKey(key: string): string {
    key + "_plural"
  }

  function Namespaced(ns: string, key: string): string {
    ns + ":" + key
  }

  /** `msgstr_plural.get(n) or msgid`, stripped. */
  function PluralForm(e: PoEntry, n: int): string {
    Strip(if n in e.msgstrPlural && e.msgstrPlural[n] != "" then e.msgstrPlural[n] else e.msgid)
  }

  /** `msgstr or msgid`, stripped. */
  function PlainText(e: PoEntry): string {
    Strip(if e.msgstr != "" then e.msgstr else e.msgid)
  }

  /** The writes of one entry, in the order the source performs them. */
  function AddEntry(acc: Json, e: PoEntry, ns: string): Json {
    if !IsLive(e) then acc
    else if IsPlural(e) then
      acc[e.msgid := PluralForm(e, 0)]
         [PluralKey(e.msgid) := PluralForm(e, 1)]
         [Namespaced(ns, e.msgid) := PluralForm(e, 0)]
         [Namespaced(ns, PluralKey(e.msgid)) := PluralForm(e, 1)]
    else
      acc[e.msgid := PlainText(e)][Namespaced(ns, e.msgid) := PlainText(e)]
  }

  /** The JSON object built from `entries` in order, under namespace `ns`. */
  function EntriesJson(entries: seq<PoEntry>, ns: string): Json {
    if entries == [] then map[]
    else AddEntry(EntriesJson(entries[..|entries| - 1], ns), entries[|entries| - 1], ns)
  }

  /** `po_to_i18next_json(po_file, package_name)`. */
  method PoToI18nextJson(entries: seq<PoEntry>, packageName: string) returns (result: Json)
    ensures result == EntriesJson(entries, Discovery.Normalize(packageName))
  {
    result := map[];
    var ns := Discovery.Normalize(packageName);
    for i := 0 to |entries|
      invariant result == EntriesJson(entries[..i], ns)
    {
      assert entries[..i + 1][..i] == entries[..i];
      var entry := entries[i];
      if entry.obsolete {
        continue;
      }
      var baseKey := entry.msgid;
      if baseKey == "" {
        continue;
      }
      result := WriteEntry(result, entry, ns);
    }
    assert entries[..|entries|] == entries;
  }

  /** The loop body of `po_to_i18next_json` for one live entry. */
  method WriteEntry(acc: Json, entry: PoEntry, ns: string) returns (result: Json)
    requires IsLive(entry)
    ensures result == AddEntry(acc, entry, ns)
  {
    var baseKey := entry.msgid;
    result := acc;
    if entry.msgstrPlural != map[] {
      var singular, plural := PluralForm(entry, 0), PluralForm(entry, 1);
      result := result[baseKey := singular];
      result := result[PluralKey(baseKey) := plural];
      result := result[Namespaced(ns, baseKey) := singular];
      result := result[Namespaced(ns, PluralKey(baseKey)) := plural];
    } else {
      var value := PlainText(entry);
      result := result[baseKey := value];
      result := result[Namespaced(ns, baseKey) := value];
    }
  }

  // ---------------------------------------------------------------------
  // What the object holds, entry by entry.

  /** The keys entry `e` writes under namespace `ns`. */
  function KeysOf(e: PoEntry, ns: string): set<string> {
    if !IsLive(e) then {}
    else if IsPlural(e) then {e.msgid, PluralKey(e.msgid), Namespaced(ns, e.msgid), Namespaced(ns, PluralKey(e.msgid))}
    else {e.msgid, Namespaced(ns, e.msgid)}
  }

  /** The text entry `e` gives key `k`: the plural form for the `_plural` keys, else the singular. */
  function TextFor(e: PoEntry, ns: string, k: string): string {
    if !IsPlural(e) then PlainText(e)
    else if k == PluralKey(e.msgid) || k == Namespaced(ns, PluralKey(e.msgid)) then PluralForm(e, 1)
    else PluralForm(e, 0)
  }

  /** `msgid + "_plural"` never equals `ns + ":" + msgid`: ':' is not in "_plural". */
  lemma PluralKeyIsNotNamespaced(m: string, ns: string)
    ensures PluralKey(m) != Namespaced(ns, m)
  {
    var y := "_plural";
    assert multiset(m + y) == multiset(m) + multiset(y);
    assert multiset(y)[':'] == 0;
    assert multiset(ns + ":" + m) == multiset(ns) + multiset(":") + multiset(m);
    assert multiset(":")[':'] == 1;
    assert multiset(PluralKey(m))[':'] < multiset(Namespaced(ns, m))[':'];
  }

  /** A plural entry writes four distinct keys, a plain entry two. */
  lemma EntryKeyCount(e: PoEntry, ns: string)
    requires IsLive(e)
    ensures |KeysOf(e, ns)| == if IsPlural(e) then 4 else 2
  {
    var m := e.msgid;
    PluralKeyIsNotNamespaced(m, ns);
    assert |m| < |PluralKey(m)| && |m| < |Namespaced(ns, m)| < |Namespaced(ns, PluralKey(m))|;
    assert |PluralKey(m)| < |Namespaced(ns, PluralKey(m))|;
    if IsPlural(e) {
      var a, b, c, d := m, PluralKey(m), Namespaced(ns, m), Namespaced(ns, PluralKey(m));
      assert {a, b, c, d} == {a} + {b} + {c} + {d};
      assert |{a} + {b}| == 2;
      assert |{a} + {b} + {c}| == 3;
    }
  }

  /** One entry's writes: its keys get its texts, every other key is left alone. */
  lemma AddEntryEffect(acc: Json, e: PoEntry, ns: string, k: string)
    ensures var r := AddEntry(acc, e, ns);
      (k in KeysOf(e, ns) ==> k in r && r[k] == TextFor(e, ns, k))
      && (k !in KeysOf(e, ns) ==> (k in r <==> k in acc) && (k in acc ==> r[k] == acc[k]))
  {
    if IsLive(e) && IsPlural(e) {
      var m := e.msgid;
      PluralKeyIsNotNamespaced(m, ns);
      FourWrites(acc, m, PluralKey(m), Namespaced(ns, m), Namespaced(ns, PluralKey(m)),
        PluralForm(e, 0), PluralForm(e, 1), k);
    }
  }

  /**
   * Four writes to distinct keys where `a` and `c` get `s0`, `b` and `d`
   * get `s1`: the shape of one plural entry's writes.
   */
  lemma FourWrites(acc: Json, a: string, b: string, c: string, d: string, s0: string, s1: string, k: string)
    requires |a| < |b| && |a| < |c| < |d| && |b| < |d| && b != c
    ensures var r := acc[a := s0][b := s1][c := s0][d := s1];
      (k in {a, b, c, d} ==> k in r && r[k] == if k == b || k == d then s1 else s0)
      && (k !in {a, b, c, d} ==> (k in r <==> k in acc) && (k in acc ==> r[k] == acc[k]))
  {
  }

  /** Every key of the object was written by some live entry. */
  lemma {:induction false} JsonKeyOrigin(entries: seq<PoEntry>, ns: string, k: string)
    requires k in EntriesJson(entries, ns)
    ensures exists i :: 0 <= i < |entries| && k in KeysOf(entries[i], ns)
  {
    var init := entries[..|entries| - 1];
    var last := entries[|entries| - 1];
    AddEntryEffect(EntriesJson(init, ns), last, ns, k);
    if k !in KeysOf(last, ns) {
      JsonKeyOrigin(init, ns, k);
      var i :| 0 <= i < |init| && k in KeysOf(init[i], ns);
      assert entries[i] == init[i];
    }
  }

  /**
   * Later entries overwrite earlier ones: a key holds the text of the last
   * entry that writes it.
   */
  lemma {:induction false} JsonLastWriterWins(entries: seq<PoEntry>, ns: string, i: nat, k: string)
    requires i < |entries| && k in KeysOf(entries[i], ns)
    requires forall j :: i < j < |entries| ==> k !in KeysOf(entries[j], ns)
    ensures var r := EntriesJson(entries, ns); k in r && r[k] == TextFor(entries[i], ns, k)
  {
    var init := entries[..|entries| - 1];
    var last := entries[|entries| - 1];
    AddEntryEffect(EntriesJson(init, ns), last, ns, k);
    if i < |entries| - 1 {
      forall j | i < j < |init| ensures k !in KeysOf(init[j], ns) {
        assert init[j] == entries[j];
      }
      JsonLastWriterWins(init, ns, i, k);
    }
  }

  /**
   * The keys: exactly those written by a live entry (`msgid`,
   * `msgid_plural`, and both with the `ns:` prefix); obsolete entries and
   * entries with an empty msgid contribute none.
   */
  lemma JsonKeys(entries: seq<PoEntry>, ns: string, k: string)
    ensures k in EntriesJson(entries, ns) <==> exists i :: 0 <= i < |entries| && IsLive(entries[i]) && k in KeysOf(entries[i], ns)
  {
    if k in EntriesJson(entries, ns) {
      JsonKeyOrigin(entries, ns, k);
    }
    if exists i :: 0 <= i < |entries| && IsLive(entries[i]) && k in KeysOf(entries[i], ns) {
      var i :| 0 <= i < |entries| && IsLive(entries[i]) && k in KeysOf(entries[i], ns);
      LastWriter(entries, ns, i, k);
    }
  }

  /** A key written at index `i` has a last writer at or after `i`, and so is present. */
  lemma {:induction false} LastWriter(entries: seq<PoEntry>, ns: string, i: nat, k: string)
    requires i < |entries| && k in KeysOf(entries[i], ns)
    ensures k in EntriesJson(entries, ns)
    decreases |entries| - i
  {
    if forall j :: i < j < |entries| ==> k !in KeysOf(entries[j], ns) {
      JsonLastWriterWins(entries, ns, i, k);
    } else {
      var j :| i < j < |entries| && k in KeysOf(entries[j], ns);
      LastWriter(entries, ns, j, k);
    }
  }

  /**
   * A plain live entry gives its msgid and its `ns:` key the same text,
   * the stripped msgstr, or the stripped msgid when msgstr is empty.
   */
  lemma PlainEntryTexts(e: PoEntry, ns: string)
    requires IsLive(e) && !IsPlural(e)
    ensures KeysOf(e, ns) == {e.msgid, Namespaced(ns, e.msgid)}
    ensures TextFor(e, ns, e.msgid) == TextFor(e, ns, Namespaced(ns, e.msgid))
              == Strip(if e.msgstr != "" then e.msgstr else e.msgid)
  {
  }

  /**
   * A plural live entry gives `msgid` and `ns:msgid` form 0 and the two
   * `_plural` keys form 1, each falling back to the msgid when missing or empty.
   */
  lemma PluralEntryTexts(e: PoEntry, ns: string)
    requires IsLive(e) && IsPlural(e)
    ensures TextFor(e, ns, e.msgid) == TextFor(e, ns, Namespaced(ns, e.msgid)) == PluralForm(e, 0)
    ensures TextFor(e, ns, PluralKey(e.msgid)) == TextFor(e, ns, Namespaced(ns, PluralKey(e.msgid))) == PluralForm(e, 1)
  {
    PluralKeyIsNotNamespaced(e.msgid, ns);
    assert |e.msgid| < |PluralKey(e.msgid)|;
    assert |Namespaced(ns, e.msgid)| < |Namespaced(ns, PluralKey(e.msgid))|;
  }
}
