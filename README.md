# invenio-i18n, modelled in Dafny

This project models the deterministic core of invenio-i18n, the
internationalisation module of the Invenio framework, and proves what that
code promises. The model covers:

- **Locale selection** (`Selectors`): `get_locale` picks the first supported
  signal among a forced locale, the `ln` query argument, the session value
  and the signed-in user's preference. It then falls back to the
  Accept-Language match, and finally to `BABEL_DEFAULT_LOCALE`.
- **The translation-directory registry** (`Babel`): the `MultidirDomain` class
  has an append-only directory list. Its `add_path` raises on a missing path,
  and `add_entrypoint` registers each entry-point module's `translations`
  directory. The `set_locale` context manager also lives here.
- **The extension object** (`Ext`): `InvenioI18N` applies the configuration
  defaults and registers directories in `init_app`. It also keeps the cached
  language and locale lists.
- **The set-language view** (`Views`): `set_lang` validates the code, writes
  the session and chooses a redirect. `get_redirect_target` returns the first
  safe target.
- **PO-catalog processing** over an abstract entry type:
  - package-name normalisation and PO-file discovery over an abstract file
    tree (`Discovery`);
  - PO to i18next JSON conversion (`Convert`);
  - the untranslated/fuzzy/obsolete classification (`Validate`).
- **Collection and aggregation**:
  - the locale-by-package transposition (`LocaleTables`, `Merge`, `Collect`,
    `Collections`);
  - the validation-report summariser (`Summary`), which both collect modules
    share.

Some pieces are shared helpers:

- `Wrappers` (an `Option` type);
- `Strings` (`str.strip`, ASCII `str.lower` and the lexicographic order);
- `Sorting` (`sorted()` on a set of strings);
- `Po` (the PO entry datatype).

Stateful pieces are classes whose methods are proved against specification
functions:

- `MultidirDomain` with `Babel.Register`;
- `InvenioI18N` with `Ext.WithDefaults`;
- `Session` in the view;
- `RequestContext` for `set_locale`.

Loops become methods with invariants. Each loop method is proved equal to a
reference function: `ScanCandidate`, `PoToI18nextJson`, `ValidatePo`,
`MergeByLocale`, `CollectTranslations` and `CalculateValidationReport`. The
properties are then proved as lemmas about those functions.

Everything the code reads from outside is an explicit parameter:

- the import system's module index;
- the file tree;
- the parsed catalog at each path;
- the existing paths and the entry points;
- the URL helpers;
- the Accept-Language matcher.

A Python exception is modelled as `None` or `ok == false`. A run that raises
part-way is proved to fail as a whole.

Where the code says more than its own comments, the model follows the code:

- `get_locale` first honours a locale forced on the Babel context
  (invenio_i18n/selectors.py:43-47), although its docstring's precedence list
  (invenio_i18n/selectors.py:27-33) starts with the query string.
- The entry-point group is used when it is truthy
  (invenio_i18n/ext.py:109), so an empty group name is skipped like `None`.
- `add_path` raises `RuntimeError` for a missing path
  (invenio_i18n/babel.py:80-81); the model reports that raise as `ok == false`.

## Model

| member | source | states |
|---|---|---|
| Strings.Strip | invenio_i18n/translation_utilities/convert.py:37-46 | `.strip()`: the result is the slice of the input that starts after its leading whitespace, and neither end of it is whitespace |
| Strings.StripRemovesOnlySpace | invenio_i18n/translation_utilities/convert.py:37-46 | only whitespace lies before and after that slice, so `.strip()` removes the surrounding whitespace and nothing else |
| Strings.TrimLeft | invenio_i18n/translation_utilities/convert.py:37-46 | the result is a suffix of the input, and only whitespace was removed in front |
| Strings.TrimRight | invenio_i18n/translation_utilities/convert.py:37-46 | the result is a prefix of the input, and only whitespace was removed at the end |
| Strings.StripIdempotent | invenio_i18n/translation_utilities/convert.py:37-46 | stripping twice is stripping once |
| Strings.StripKeepsTrimmed | invenio_i18n/translation_utilities/convert.py:37-46 | a string with no surrounding whitespace is left unchanged |
| Strings.Lower | invenio_i18n/views.py:44 | `.lower()` keeps the length and lowers each ASCII capital, leaving other characters as they are |
| Strings.LowerIdempotent | invenio_i18n/views.py:44 | lowering twice is lowering once |
| Sorting.SortedListing | invenio_i18n/translation_utilities/collect.py:103 | `sorted()` of a set is strictly ascending and holds exactly the set's members |
| Sorting.ListingUnique | invenio_i18n/translation_utilities/collect.py:103 | two strictly ascending lists with the same members are equal, so the sorted listing is unique |
| Sorting.SortStrings | invenio_i18n/translation_utilities/discovery.py:56 | the insertion loop returns the sorted listing of the set |
| Discovery.Normalize | invenio_i18n/translation_utilities/discovery.py:17-23 | the length is kept, each '-' becomes '_', and every other character stays at its position |
| Discovery.NormalizeHasNoDash | invenio_i18n/translation_utilities/discovery.py:23 | a normalised name contains no '-' |
| Discovery.NormalizeKeepsDashless | invenio_i18n/translation_utilities/discovery.py:23 | a name without '-' is returned unchanged |
| Discovery.NormalizeIdempotent | invenio_i18n/translation_utilities/discovery.py:23 | normalising twice is normalising once |
| Discovery.Children | invenio_i18n/translation_utilities/discovery.py:56 | `iterdir()` lists exactly the names whose path under the directory exists |
| Discovery.FindPackagePath | invenio_i18n/translation_utilities/discovery.py:26-36 | none exactly when the normalised module is unknown or has no search locations, else its first location |
| Discovery.ScanCandidate | invenio_i18n/translation_utilities/discovery.py:52-61 | one base's loop gives the base's scan: nothing for a missing base, a failure for a non-directory, else the hits among its sorted entries |
| Discovery.FindPoFiles | invenio_i18n/translation_utilities/discovery.py:39-61 | the generator's output is both candidate bases' scans in order, and it fails when either scan fails |
| Discovery.HitsShape | invenio_i18n/translation_utilities/discovery.py:56-61 | every pair is a listed locale directory with its path `<base>/<locale>/LC_MESSAGES/messages.po`, which exists |
| Discovery.HitsComplete | invenio_i18n/translation_utilities/discovery.py:56-61 | every listed locale directory holding the PO file is yielded |
| Discovery.HitsSorted | invenio_i18n/translation_utilities/discovery.py:56 | locales visited in sorted order are yielded in strictly increasing order |
| Discovery.ScanBase | invenio_i18n/translation_utilities/discovery.py:54-61 | reference definition: nothing for a missing base, a failure for a base that is not a directory, else the PO hits among the sorted entries |
| Discovery.PoFiles | invenio_i18n/translation_utilities/discovery.py:47-61 | reference definition: the hits of `<root>/translations` followed by those of `<root>/<module>/translations`, failing when either scan fails |
| Discovery.ScanBaseShape | invenio_i18n/translation_utilities/discovery.py:52-61 | one base's pairs have paths three components below the base, with locales strictly increasing |
| Discovery.PoFilesShape | invenio_i18n/translation_utilities/discovery.py:47-61 | every yielded pair comes from an existing candidate base, with a directory holding the PO file |
| Discovery.PoFilesComplete | invenio_i18n/translation_utilities/discovery.py:47-61 | every such locale directory of either candidate base is yielded |
| Discovery.PoFilesOrdered | invenio_i18n/translation_utilities/discovery.py:47-56 | pairs of `<root>/translations` come before those of `<root>/<module>/translations`, and each base's locales are increasing |
| Discovery.FindPackagePathByModule | invenio_i18n/translation_utilities/discovery.py:32-36 | spellings with the same normalised name find the same path |
| Convert.PoToI18nextJson | invenio_i18n/translation_utilities/convert.py:17-50 | the loop builds the JSON object of the entries in order, under the normalised package name |
| Convert.WriteEntry | invenio_i18n/translation_utilities/convert.py:35-48 | one live entry's writes, plural or plain |
| Convert.PluralKeyIsNotNamespaced | invenio_i18n/translation_utilities/convert.py:41-43 | `msgid_plural` never collides with `pkg:msgid` |
| Convert.EntryKeyCount | invenio_i18n/translation_utilities/convert.py:35-48 | a live entry writes four distinct keys when plural and two otherwise |
| Convert.AddEntry | invenio_i18n/translation_utilities/convert.py:28-48 | reference definition: one live entry's writes (four for a plural entry, two otherwise); an obsolete or empty-msgid entry writes nothing |
| Convert.EntriesJson | invenio_i18n/translation_utilities/convert.py:24-50 | reference definition: the entries' writes applied in file order to an empty object |
| Convert.AddEntryEffect | invenio_i18n/translation_utilities/convert.py:35-48 | after one entry, its keys hold its texts and every other key is unchanged |
| Convert.JsonKeys | invenio_i18n/translation_utilities/convert.py:27-48 | a key is present exactly when some live entry (not obsolete, non-empty msgid) writes it |
| Convert.JsonKeyOrigin | invenio_i18n/translation_utilities/convert.py:35-48 | every key is the msgid of an entry, optionally with `_plural`, optionally with `pkg:` |
| Convert.JsonLastWriterWins | invenio_i18n/translation_utilities/convert.py:41-48 | on a collision the last entry writing a key decides its value |
| Convert.LastWriter | invenio_i18n/translation_utilities/convert.py:41-48 | a key any entry writes is in the result |
| Convert.PlainEntryTexts | invenio_i18n/translation_utilities/convert.py:45-48 | a plain entry gives `msgid` and `pkg:msgid` the same text: the stripped msgstr, or the stripped msgid when msgstr is empty |
| Convert.PluralEntryTexts | invenio_i18n/translation_utilities/convert.py:35-44 | a plural entry gives form 0 to `msgid` and `pkg:msgid` and form 1 to both `_plural` keys, each falling back to the msgid |
| Validate.Categorize | invenio_i18n/translation_utilities/validate.py:35-41 | obsolete before fuzzy before untranslated; untranslated only when both msgstr and msgstr_plural are empty |
| Validate.ReportOf | invenio_i18n/translation_utilities/validate.py:19-58 | reference definition: the normalised package, locale, path, the three per-category msgid lists and their lengths |
| Validate.ValidatePo | invenio_i18n/translation_utilities/validate.py:19-58 | normalised package, locale and file passed through; each list holds that category's msgids in entry order; each count is its list's length |
| Validate.MsgidsAppend | invenio_i18n/translation_utilities/validate.py:35-41 | each list of a concatenation is the concatenation of the lists, so entry order is kept |
| Validate.MsgidsSingle | invenio_i18n/translation_utilities/validate.py:35-41 | one entry lands in its own category's list and in no other |
| Validate.MsgidsMembership | invenio_i18n/translation_utilities/validate.py:35-41 | a msgid is in a list exactly when some entry of that category has it |
| Validate.MsgidsPartition | invenio_i18n/translation_utilities/validate.py:35-41 | the three issue lists and the translated entries together are exactly as long as the catalog |
| Validate.IssueTotalBound | invenio_i18n/translation_utilities/validate.py:53-57 | the counts sum to at most the number of entries |
| LocaleTables.AddPackage | invenio_i18n/collections/merge.py:28-31 | storing a package adds exactly its locales as rows |
| LocaleTables.StoreLocales | invenio_i18n/collections/merge.py:28-31 | the loop over one package's locales stores the package under each of them |
| LocaleTables.AddPackageEffect | invenio_i18n/collections/merge.py:28-31 | the package's cells hold its tables and every other cell is unchanged |
| LocaleTables.TransposeLocales | invenio_i18n/collections/merge.py:28-30 | a locale row exists exactly when some package has that locale |
| LocaleTables.TransposeCells | invenio_i18n/collections/merge.py:27-31 | a cell `(locale, package)` is filled exactly when some item with that name has that locale |
| LocaleTables.TransposeLastWins | invenio_i18n/collections/merge.py:31 | a later item with the same name and locale overwrites an earlier one |
| LocaleTables.TransposeLastWriter | invenio_i18n/collections/merge.py:31 | every item's cell is filled, by the last item of that name with that locale |
| LocaleTables.TransposeConsistent | invenio_i18n/translation_utilities/collect.py:91-97 | when items of the same name agree, the tables are an exact transposition |
| LocaleTables.TransposeRowsNonEmpty | invenio_i18n/collections/merge.py:29-31 | every locale row names at least one package |
| Merge.Items | invenio_i18n/collections/merge.py:26-28 | one `(normalised name, table)` item per scan result |
| Merge.ItemsAt | invenio_i18n/collections/merge.py:27-28 | item `i` is result `i`'s normalised name and table |
| Merge.MergeByLocale | invenio_i18n/collections/merge.py:16-32 | the loop builds the transposition of the results, and empty input gives an empty map |
| Merge.MergedLocales | invenio_i18n/collections/merge.py:28-30 | an outer key exists exactly when it is a locale of some result |
| Merge.MergedPackages | invenio_i18n/collections/merge.py:27-31 | every inner key is the normalised name of some result |
| Merge.MergedLastWins | invenio_i18n/collections/merge.py:26-31 | `merged[l][norm(r)]` is r's table for l unless a later result with the same normalised name has l |
| Summary.ExpectedSummary | invenio_i18n/translation_utilities/collect.py:166-237 | reference definition, independent of the loop: counts by group-by sums over all reports, the two breakdowns and the reports |
| Summary.CalculateValidationReport | invenio_i18n/translation_utilities/collect.py:166-237 | the loop builds the summary defined report by report |
| Summary.AddToPackageBreakdown | invenio_i18n/translation_utilities/collect.py:190-205 | adding a report keeps the package breakdown exact for the reports seen |
| Summary.AddToLanguageBreakdown | invenio_i18n/translation_utilities/collect.py:207-220 | adding a report keeps the language breakdown exact for the reports seen |
| Summary.StatsSnoc | invenio_i18n/translation_utilities/collect.py:198-220 | one more report raises every breakdown field by that report's share, and clears `isComplete` when it has issues |
| Summary.Conservation | invenio_i18n/translation_utilities/collect.py:198-229 | summing a measure group by group over all keys gives the sum over all reports |
| Summary.PackageBreakdownConserves | invenio_i18n/translation_utilities/collect.py:198-229 | over all packages, `locales` sums to the number of reports, and `totalIssues`, `untranslatedStrings` and `fuzzyTranslations` sum to the summary totals |
| Summary.LanguageBreakdownConserves | invenio_i18n/collections/collect.py:170-184 | over all locales, `packages` sums to the number of reports, and the issue fields sum to the summary totals |
| Summary.IsCompleteIff | invenio_i18n/translation_utilities/collect.py:213-220 | `isComplete` is false exactly when some report for the locale has a positive issue sum |
| Summary.ProblematicLanguages | invenio_i18n/translation_utilities/collect.py:202-205 | `problematicLanguages` lists exactly the package's reports with issues, as `(locale, counts)` |
| Summary.ProblematicInOrder | invenio_i18n/translation_utilities/collect.py:185-205 | the problem list keeps report order |
| Summary.SummaryCounts | invenio_i18n/translation_utilities/collect.py:222-226 | `totalLocales` is the number of distinct report locales, and `totalPackages` is the number of packages |
| Summary.CleanMeansNoIssues | invenio_i18n/translation_utilities/collect.py:219-220 | a group is clean exactly when none of its reports has issues |
| Summary.SelectMembership | invenio_i18n/translation_utilities/collect.py:185-190 | a report is in its key's group exactly when it carries that key |
| Collect.PackageTranslations | invenio_i18n/translation_utilities/collect.py:27-43 | reference definition: an empty table for an unknown package, a failure when the file scan fails, else the PO files' tables by locale |
| Collect.GetPackageTranslations | invenio_i18n/translation_utilities/collect.py:27-43 | the table of the package's PO files by locale; an empty table when the package root is not found |
| Collect.LocaleJsonsKeys | invenio_i18n/translation_utilities/collect.py:39-41 | the table's locales are exactly the locales found |
| Collect.LocaleJsonsLastWins | invenio_i18n/translation_utilities/collect.py:39-41 | a locale holds the conversion of the last catalog found for it |
| Collect.NestedCatalogWins | invenio_i18n/translation_utilities/collect.py:39-41 | a locale found under `<root>/<module>/translations` takes that catalog, whatever `<root>/translations` holds |
| Collect.PackageTranslationsByModule | invenio_i18n/translation_utilities/collect.py:33-41 | spellings that normalise alike give the same translations |
| Collect.CollectTranslations | invenio_i18n/translation_utilities/collect.py:69-104 | the four outputs: by-package map, its transposition, `len(packages)`, and the sorted locales; fails exactly when a scan fails |
| Collect.Kept | invenio_i18n/translation_utilities/collect.py:87-93 | reference definition: the `(normalised name, table)` items of the packages with non-empty tables, in order; a failure when any scan fails |
| Collect.KeptNoneExtends | invenio_i18n/translation_utilities/collect.py:88-89 | a failure in a prefix fails the whole run |
| Collect.KeptNoneIff | invenio_i18n/translation_utilities/collect.py:88-89 | the run fails exactly when some package's scan fails |
| Collect.KeptItem | invenio_i18n/translation_utilities/collect.py:89-93 | every kept item is a non-empty table under its package's normalised name |
| Collect.KeptComplete | invenio_i18n/translation_utilities/collect.py:89-93 | every package with a non-empty table is kept |
| Collect.KeptConsistent | invenio_i18n/translation_utilities/collect.py:92-93 | items with the same name carry the same table |
| Collect.ByNameKeys | invenio_i18n/translation_utilities/collect.py:93 | the by-package names are exactly the items' names |
| Collect.ByNameAt | invenio_i18n/translation_utilities/collect.py:93 | every item's table is the one stored under its name |
| Collect.TranslationsByPackage | invenio_i18n/translation_utilities/collect.py:89-93 | a package appears exactly when its table is non-empty, and holds that table; empty packages appear nowhere |
| Collect.ByPackageOrigin | invenio_i18n/translation_utilities/collect.py:92-93 | every by-package name is a requested package's normalised name |
| Collect.CollectedIsTransposition | invenio_i18n/translation_utilities/collect.py:91-97 | `collected[l][n]` exists exactly when `by_package[n][l]` does, and the two are equal |
| Collect.CollectedLocales | invenio_i18n/translation_utilities/collect.py:96-103 | the collected locales are exactly those some package has translations for |
| Collect.LocaleReports | invenio_i18n/translation_utilities/collect.py:62-64 | one report per PO file found |
| Collect.LocaleReportsAt | invenio_i18n/translation_utilities/collect.py:62-64 | report k validates the catalog of file k under its locale and path |
| Collect.GetPackageValidationReports | invenio_i18n/translation_utilities/collect.py:46-66 | the reports of the package's PO files; an empty list when the root is not found |
| Collect.ReportsMatchTranslations | invenio_i18n/translation_utilities/collect.py:33-64 | validation and conversion fail together, and the report locales are the translation locales |
| Collect.ReportPackage | invenio_i18n/translation_utilities/collect.py:64 | every report names the package's normalised name |
| Collect.ValidateTranslations | invenio_i18n/translation_utilities/collect.py:139-163 | the summary of all packages' reports in order; fails exactly when a scan fails |
| Collect.AllReports | invenio_i18n/translation_utilities/collect.py:155-159 | reference definition: every package's reports, extended in package order; a failure when any scan fails |
| Collect.AllReportsNoneExtends | invenio_i18n/translation_utilities/collect.py:157-159 | a failure in a prefix fails the whole validation |
| Collect.AllReportsOrigin | invenio_i18n/translation_utilities/collect.py:157-159 | every collected report comes from some requested package's reports |
| Collections.ScanPackageForTranslations | invenio_i18n/collections/collect.py:26-43 | the same scan as `get_package_translations`: empty when the root is not found |
| Collections.ScanPackageForValidation | invenio_i18n/collections/collect.py:46-63 | the same scan as `get_package_validation_reports`: empty when the root is not found |
| Collections.CollectTranslationsToJson | invenio_i18n/collections/collect.py:66-101 | per-package files, the merged transposition, `len(packages)` and the sorted merged locales; fails exactly when a scan fails |
| Collections.MergedFileContents | invenio_i18n/collections/collect.py:83-92 | `results[l][norm(p)]` is package p's table for l |
| Collections.EmptyPackageWritesNothing | invenio_i18n/collections/collect.py:83 | a package with empty translations writes no per-package file and adds nothing |
| Collections.SummarizeValidationReports | invenio_i18n/collections/collect.py:129-192 | the same summary as the report-by-report definition |
| Collections.ValidateTranslationsFromPackages | invenio_i18n/collections/collect.py:104-126 | the summary of all packages' reports in order; fails exactly when a scan fails |
| Selectors.GetLocale | invenio_i18n/selectors.py:24-82 | with a matcher that answers from the offered list, the result is a supported code or `BABEL_DEFAULT_LOCALE` |
| Selectors.FirstSupported | invenio_i18n/selectors.py:43-73 | reference definition: the first candidate that is present and one of the supported codes, or none |
| Selectors.FirstSupportedIff | invenio_i18n/selectors.py:43-73 | the first supported candidate is chosen exactly when every earlier one is absent or unsupported |
| Selectors.GetLocaleIsFirstSupported | invenio_i18n/selectors.py:37-82 | the selector is the first supported of (forced, `ln`, session, user), else the header match, else the default |
| Selectors.ForcedWins | invenio_i18n/selectors.py:43-47 | a supported forced locale wins over every other signal |
| Selectors.UnsupportedSessionSkipped | invenio_i18n/selectors.py:55-60 | an unsupported session value is skipped, as if absent |
| Selectors.UserIgnoredUnlessConsulted | invenio_i18n/selectors.py:62-73 | the user is not consulted without the attribute, a login manager and an authenticated user |
| Selectors.UnregisteredGivesDefault | invenio_i18n/selectors.py:37-39 | without the extension nothing is supported, so the default is returned |
| Selectors.NoSignalGivesDefault | invenio_i18n/selectors.py:43-82 | inside or outside a request, when no forced, `ln`, session or user value is supported and the header matcher finds nothing, `BABEL_DEFAULT_LOCALE` is returned |
| Babel.Register | invenio_i18n/babel.py:78-82 | reference definition: `add_path` over a list in order, appending each existing path and stopping at the first missing one |
| Babel.RegisterSpec | invenio_i18n/babel.py:78-82 | registration succeeds exactly when every path exists, and then appends them in order |
| Babel.RegisterAppend | invenio_i18n/babel.py:78-82 | registering `a` then `b` is registering `a + b`, and a failure in `a` skips `b` |
| Babel.EntrypointDirs | invenio_i18n/babel.py:70-76 | reference definition: the `translations` directory of each group module that has one, in entry-point order |
| Babel.EntrypointDirsAppend | invenio_i18n/babel.py:70-76 | entry-point directories of consecutive module lists concatenate |
| Babel.EntrypointDirsExist | invenio_i18n/babel.py:72-75 | in a well-formed world every entry-point directory exists, so `add_entrypoint` never raises |
| Babel.EntrypointDirsMembership | invenio_i18n/babel.py:70-76 | a directory is registered exactly when it is the `translations` directory of a module in the group |
| Babel.MultidirDomain.constructor | invenio_i18n/babel.py:49-58 | a fresh domain has no directories |
| Babel.MultidirDomain.HasPaths | invenio_i18n/babel.py:66-68 | true exactly when some directory is registered |
| Babel.MultidirDomain.AddPath | invenio_i18n/babel.py:78-82 | appends an existing path at the end; a missing path raises and leaves the list unchanged |
| Babel.MultidirDomain.AddEntrypoint | invenio_i18n/babel.py:70-76 | registers the group's modules' `translations` directories in order, skipping modules without one |
| Babel.NewMultidirDomain | invenio_i18n/babel.py:49-64 | the constructor registers entry-point directories first, then `paths` |
| Babel.EntrypointsBeforePaths | invenio_i18n/babel.py:46-64 | with every path present, the list is the entry-point directories followed by the paths |
| Babel.MergedCatalog | invenio_i18n/babel.py:40-46 | reference definition: the directories' catalogs merged in order, a later directory overriding an earlier one key by key |
| Babel.MergedCatalogLastWins | invenio_i18n/babel.py:40-46 | the merged catalog takes each key from the last directory defining it |
| Babel.MergedCatalogKeys | invenio_i18n/babel.py:40-46 | a key is in the merged catalog exactly when some directory defines it |
| Babel.EnterSetLocale | invenio_i18n/babel.py:27-34 | with no context it raises; otherwise it saves the old locale and sets the new one |
| Babel.ExitSetLocale | invenio_i18n/babel.py:36 | the saved locale is put back |
| Babel.WithLocaleAsWritten | invenio_i18n/babel.py:22-36 | the block as written restores the locale only when the body returns |
| Babel.SetLocaleLeaksOnRaise | invenio_i18n/babel.py:34-36 | a body that raises leaves `de` installed where `en` was |
| Babel.WithLocale | invenio_i18n/babel.py:22-36 | with the restore in a `finally`, the previous locale is back however the body ends |
| Ext.WithDefaults | invenio_i18n/ext.py:126-130 | an `I18N_` default is added only when the key is absent; existing values stay and other names are ignored |
| Ext.WithDefaultsIdempotent | invenio_i18n/ext.py:126-130 | applying the defaults twice is applying them once |
| Ext.InitConfig | invenio_i18n/ext.py:126-130 | the setdefault loop leaves the configuration with the defaults applied |
| Ext.TranslationPaths | invenio_i18n/ext.py:102 | `config.get('I18N_TRANSLATIONS_PATHS', [])`: the configured list, or none when it is absent |
| Ext.ConfiguredLanguages | invenio_i18n/ext.py:140 | `config.get('I18N_LANGUAGES', [])`: the configured pairs, or none when they are absent |
| Ext.Codes | invenio_i18n/ext.py:155-157 | one code per configured pair |
| Ext.CodesAt | invenio_i18n/ext.py:155-157 | code k is pair k's code |
| Ext.InvenioI18N.constructor | invenio_i18n/ext.py:52-76 | an empty `messages` domain and both caches empty |
| Ext.InvenioI18N.InitApp | invenio_i18n/ext.py:81-124 | defaults applied, then the translation paths, `<root>/translations` if it exists, then the entry-point group, in that order; the extension is registered only when nothing raised |
| Ext.InvenioI18N.AddPaths | invenio_i18n/ext.py:101-103 | each configured path in turn, stopping at the first that raises |
| Ext.JoinPath | invenio_i18n/ext.py:105 | `os.path.join(root, name)`: the root is a prefix and the name the suffix of the result, with a separator between them when the root is non-empty |
| Ext.InvenioI18N.AddAppTranslations | invenio_i18n/ext.py:104-107 | `<root>/translations` is registered only when it exists |
| Ext.InvenioI18N.AddGroup | invenio_i18n/ext.py:108-110 | the entry-point group is registered only when it is truthy |
| Ext.InitAppOrder | invenio_i18n/ext.py:101-110 | with every configured path present, the directories appended are the paths, then `<root>/translations` if it exists, then the entry-point directories |
| Ext.InvenioI18N.IterLanguages | invenio_i18n/ext.py:132-141 | the default language with its display name, then `I18N_LANGUAGES` in order |
| Ext.InvenioI18N.GetLanguages | invenio_i18n/ext.py:143-147 | computed on the first call, then the cached list returned unchanged |
| Ext.InvenioI18N.GetLocales | invenio_i18n/ext.py:149-159 | `[default_locale]` followed by the configured codes, cached after the first call |
| Ext.DefaultLanguageListedTwice | invenio_i18n/ext.py:132-147 | `get_languages()` keeps duplicates: when `I18N_LANGUAGES` also lists the default language, its code appears both first and at its configured place, and the list is one longer than the configuration |
| Ext.LanguageCodes | invenio_i18n/selectors.py:37-39 | the supported codes are the default language followed by the configured codes |
| Ext.LanguagesCacheIgnoresConfig | invenio_i18n/ext.py:143-147 | a configuration change between two calls does not change the languages |
| Ext.LocalesCacheIgnoresConfig | invenio_i18n/ext.py:149-159 | a configuration change between two calls does not change the locales |
| Views.IsLocalUrl | invenio_i18n/views.py:20-25 | the target joined onto the host URL has scheme `http` or `https` and the host's own netloc |
| Views.Safe | invenio_i18n/views.py:30-31 | a candidate target may be followed when it is present, non-empty and local |
| Views.Next | invenio_i18n/views.py:30 | `request.values.get('next')`: the `next` value when the request carries one |
| Views.GetRedirectTarget | invenio_i18n/views.py:28-32 | the result is safe (non-empty and local) and is `next` or the referrer; `next` wins when safe; none only when neither is safe |
| Views.RequestedCode | invenio_i18n/views.py:38 | a non-empty path argument wins over `request.values['lang_code']` |
| Views.Location | invenio_i18n/views.py:47-50 | the safe target, else `url_for` of the configured endpoint, else `/` |
| Views.SetLang | invenio_i18n/views.py:35-52 | an unknown or missing code aborts with 404 for GET and 400 otherwise, leaving the session; a known code is stored lower-cased and the response redirects |
| Views.SetLangCorrected | invenio_i18n/views.py:35-52 | the same, storing the code exactly as configured |
| Views.StoredCodeSelected | invenio_i18n/selectors.py:55-60 | a supported code in the session is selected unless a forced locale or `ln` takes precedence |
| Views.CorrectedRoundTrip | invenio_i18n/views.py:44 | after the corrected view stores a known code, the next request selects that code |
| Views.LowercasedCodeIgnored | invenio_i18n/views.py:44 | choosing `zh_CN` stores `zh_cn`, and the next request falls back to `en` |
| Views.Session.constructor | invenio_i18n/views.py:44 | a session holding the given data |

## Left out

- The Flask and Babel runtime is not modelled. This covers Babel's `init_app`, the locale and timezone selector registration, the template filters and globals, the lazy-string JSON encoder, `LocalProxy` and the Werkzeug patch. `Ext.InvenioI18N.InitApp` models only the configuration and directory registration.
- Ext.InvenioI18N.constructor: the `app` argument, which calls `init_app` at once, is modelled by calling `InitApp` afterwards; `date_formats`, `localeselector` and `timezoneselector` are not kept.
- Ext.InvenioI18N.GetLocales: Babel `Locale` objects are modelled by their identifiers, and `load_locale(lang)` is modelled as the code itself.
- Ext.InvenioI18N.IterLanguages: the default locale's language and display name come from Babel and are given as a `BabelDefaults` record.
- Ext.InitConfig: `dir(config)` is modelled as the keys of a settings map; the result does not depend on the visiting order. A configuration value that is not a list where a list is expected is read as empty.
- Selectors.GetLocale: `forced_babel_locale.language` is given as the forced language; the Accept-Language weighted match is an oracle; `getattr` on the user is a map of the attributes that are not `None`.
- Views.SetLang: the language list is passed in as what `get_languages()` returns, and `I18N_SESSION_KEY` and `I18N_DEFAULT_REDIRECT_ENDPOINT` come in a `ViewConfig` record.
- Views.IsLocalUrl: `urljoin` and `urlparse` are oracles; only the scheme and netloc test is modelled.
- Strings.Lower: only ASCII letters are lowered; Python's Unicode case mapping is not modelled.
- Loading and merging compiled `.mo` catalogs is inherited from Flask-Babel and not part of this model; `Babel.MergedCatalog` states only the documented merge order.
- `Locale.parse` in `set_locale` is a parameter that may fail; a failure is modelled as the `with` block never being entered.
- polib parsing is not modelled; the parsed catalog at each path is a parameter of the environment.
- `find_spec` is not modelled; the import system is a module index that maps module names to search locations.
- The JSON and file writes in both collect modules (`write_translations_to_json`, `write_validation_report`, `write_json_file` in translation_utilities/io.py) are I/O; the model states what is written, as `JsonRun` and the collection results.
- Python dict iteration order is not modelled, because maps have no order. Only `sorted()` output and list orders are stated.
- The sibling modules imported by collections/collect.py (`.convert`, `.discovery`, `.io`, `.validate`) and collections/merge.py (`.discovery`, `.types`) are not part of this model. Their `iter_po_files`, `validate_po`, `po_to_i18next_json` and `normalize_package_to_module_name` are taken to be the translation_utilities functions: `Collections.ScanPackageForTranslations` and `Collections.ScanPackageForValidation` scan with `Discovery.FindPoFiles`, and `Collections.ScanPackageForValidation` validates with `Validate.ValidatePo`.
- Selectors.GetLocale accepts a context with no request but a non-empty session. Flask never produces one, because the session proxy is false outside a request (invenio_i18n/selectors.py:57); in such a context the model still reads the session.
- Discovery.CandidateBases keeps `<root>/<module>/translations` three components long when the normalised name is empty, where pathlib would collapse it to `<root>/translations`; `find_spec("")` raises before that path is built.
- Integer widths do not matter here: the counts are unbounded naturals, as they are in Python.
- `get_timezone`, jinja2.py, cli.py, `create_blueprint`, proxies.py, config.py beyond its `I18N_` defaults, bundles, webpack and assets are framework glue or I/O with no logic to state.

## Findings

| source | as written | input that shows it | evidently intended | confidence | as-written member | corrected member |
|---|---|---|---|---|---|---|
| invenio_i18n/views.py:44 | `set_lang` stores `lang_code.lower()`, but `get_locale` compares the session value case-sensitively with the configured codes | languages `en` and `zh_CN`: choosing `zh_CN` stores `zh_cn`, which is not supported, so the next request gets `en` | store the code as configured, so the chosen language is the one selected | medium, not executed | Views.LowercasedCodeIgnored | Views.SetLangCorrected |
| invenio_i18n/babel.py:34-36 | `set_locale` restores the old locale after `yield` without `try`/`finally` | inside `with set_locale("de")` with `en` active, a body that raises leaves `babel_locale` set to `de` | restore the previous locale however the block ends | medium, not executed | Babel.SetLocaleLeaksOnRaise | Babel.WithLocale |
