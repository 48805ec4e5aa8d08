/**
 * The extension object of ext.py, `InvenioI18N`: configuration defaults,
 * the registration of translation directories in `init_app`, and the
 * cached language and locale lists.
 */
module Ext {
  import opened Wrappers
  import Babel

  /** A configuration value, as far as the extension reads one. */
  datatype Value = Null | Str(s: string) | Strings(items: seq<string>) | Pairs(pairs: seq<(string, string)>)

  /** `app.config`. */
  type Config = map<string, Value>

  /** The `I18N_` settings of config.py with their default values. */
  const ConfigModule: map<string, Value> := map[
    "I18N_TRANSLATIONS_PATHS" := Strings([]),
    "I18N_LANGUAGES" := Pairs([]),
    "I18N_SET_LANGUAGE_URL" := Str("/lang"),
    "I18N_DEFAULT_REDIRECT_ENDPOINT" := Null,
    "I18N_SESSION_KEY" := Str("language"),
    "I18N_USER_LANG_ATTR" := Str("prefered_language")]

  predicate IsI18nName(k: string) {
    |k| >= 5 && k[..5] == "I18N_"
  }

  /**
   * `setdefault` on the configuration for every `I18N_` name of the
   * settings module `settings`: values already set stay, missing ones get
   * the module's value; other names are ignored.
   */
  function WithDefaults(config: Config, settings: map<string, Value>): (r: Config)
    ensures forall k :: k in r <==> k in config || (k in settings && IsI18nName(k))
    ensures forall k :: k in config ==> r[k] == config[k]
    ensures forall k :: k in r && k !in config ==> r[k] == settings[k]
  {
    map k | k in config.Keys + (set n | n in settings.Keys && IsI18nName(n)) :: if k in config then config[k] else settings[k]
  }

  /** Applying the defaults twice changes nothing more. */
  lemma WithDefaultsIdempotent(config: Config, settings: map<string, Value>)
    ensures WithDefaults(WithDefaults(config, settings), settings) == WithDefaults(config, settings)
  {
  }

  /** `config.get('I18N_TRANSLATIONS_PATHS', [])`; a value that is not a list of paths counts as none. */
  function TranslationPaths(config: Config): seq<string> {
    if "I18N_TRANSLATIONS_PATHS" in config && config["I18N_TRANSLATIONS_PATHS"].Strings?
    then config["I18N_TRANSLATIONS_PATHS"].items else []
  }

  /** `config.get('I18N_LANGUAGES', [])`; a value that is not a list of pairs counts as none. */
  function ConfiguredLanguages(config: Config): seq<(string, string)> {
    if "I18N_LANGUAGES" in config && config["I18N_LANGUAGES"].Pairs?
    then config["I18N_LANGUAGES"].pairs else []
  }

  /** The codes of a list of `(code, title)` pairs. */
  function Codes(pairs: seq<(string, string)>): (r: seq<string>)
    ensures |r| == |pairs|
  {
    if pairs == [] then [] else Codes(pairs[..|pairs| - 1]) + [pairs[|pairs| - 1].0]
  }

  /** Code `k` of the list is the code of pair `k`. */
  lemma {:induction false} CodesAt(pairs: seq<(string, string)>, k: nat)
    requires k < |pairs|
    ensures Codes(pairs)[k] == pairs[k].0
  {
    var init := pairs[..|pairs| - 1];
    if k < |init| {
      CodesAt(init, k);
    }
  }

  /** `os.path.join(a, b)` for a relative `b`. */
  function JoinPath(a: string, b: string): (r: string)
    ensures a <= r && |r| >= |a| + |b| && r[|r| - |b|..] == b
    ensures a != [] ==> r[|r| - |b| - 1] == '/'
    ensures |r| <= |a| + |b| + 1
  {
    if a == [] || a[|a| - 1] == '/' then a + b else a + "/" + b
  }

  /** `<root_path>/translations` when it exists. */
  function AppDirs(world: Babel.World, rootPath: string): seq<string> {
    var t := JoinPath(rootPath, "translations");
    if t in world.paths then [t] else []
  }

  /**
   * What Babel says about the default locale: its identifier, its language
   * and that language's display name.  Locale parsing is outside the model.
   */
  datatype BabelDefaults = BabelDefaults(locale: string, language: string, title: string)

  /** The Flask application: its configuration, root path and registered extensions. */
  class App {
    var config: Config
    const rootPath: string
    var extensions: set<string>

    constructor (config: Config, rootPath: string)
      ensures this.config == config && this.rootPath == rootPath && extensions == {}
    {
      this.config := config;
      this.rootPath := rootPath;
      extensions := {};
    }
  }

  /** `init_config(app)` with the settings module `settings`. */
  method InitConfig(app: App, settings: map<string, Value>)
    modifies app
    ensures app.config == WithDefaults(old(app.config), settings)
    ensures app.extensions == old(app.extensions)
  {
    var names := settings.Keys;
    ghost var start := app.config;
    ghost var done: set<string> := {};
    while names != {}
      invariant names == settings.Keys - done && done <= settings.Keys
      invariant app.config == WithDefaults(start, map k | k in done :: settings[k])
      invariant app.extensions == old(app.extensions)
      decreases names
    {
      var k :| k in names;
      if IsI18nName(k) && k !in app.config {
        app.config := app.config[k := settings[k]];
      }
      names := names - {k};
      done := done + {k};
    }
    assert (map k | k in done :: settings[k]) == settings;
  }

  class InvenioI18N {
    const domain: Babel.MultidirDomain
    const entryPointGroup: Option<string>
    var languagesCache: Option<seq<(string, string)>>
    var localesCache: Option<seq<string>>

    /** `InvenioI18N(entry_point_group=...)` without an app: an empty domain and empty caches. */
    constructor (entryPointGroup: Option<string>)
      ensures fresh(domain) && domain.dirs == [] && domain.domain == "messages"
      ensures this.entryPointGroup == entryPointGroup
      ensures languagesCache.None? && localesCache.None?
    {
      domain := new Babel.MultidirDomain("messages");
      this.entryPointGroup := entryPointGroup;
      languagesCache := None;
      localesCache := None;
    }

    /**
     * `init_app(app)`: the defaults, then the directories in order: every
     * `I18N_TRANSLATIONS_PATHS` entry, `<root_path>/translations` when it
     * exists, the entry-point group when there is one.  `ok` is false when
     * a registration raises; the extension is registered only otherwise.
     */
    method InitApp(app: App, world: Babel.World) returns (ok: bool)
      modifies app, domain
      ensures app.config == WithDefaults(old(app.config), ConfigModule)
      ensures (domain.dirs, ok) == Babel.Register(old(domain.dirs),
        TranslationPaths(app.config) + AppDirs(world, app.rootPath) + Babel.GroupDirs(world, entryPointGroup),
        world.paths)
      ensures app.extensions == if ok then old(app.extensions) + {"invenio-i18n"} else old(app.extensions)
    {
      InitConfig(app, ConfigModule);
      ghost var start := domain.dirs;
      var paths := TranslationPaths(app.config);
      ghost var appDirs := AppDirs(world, app.rootPath);
      ghost var groupDirs := Babel.GroupDirs(world, entryPointGroup);
      Babel.RegisterAppend(start, paths + appDirs, groupDirs, world.paths);
      Babel.RegisterAppend(start, paths, appDirs, world.paths);
      ok := AddPaths(world, paths);
      if !ok {
        return;
      }
      ok := AddAppTranslations(world, app.rootPath);
      // Only an existing `<root>/translations` is registered, so this step never raises.
      assert ok;
      ok := AddGroup(world);
      if !ok {
        return;
      }
      app.extensions := app.extensions + {"invenio-i18n"};
    }

    /** Step 1 of `init_app`: `add_path` for each path in turn, stopping at the first that raises. */
    method AddPaths(world: Babel.World, paths: seq<string>) returns (ok: bool)
      modifies domain
      ensures (domain.dirs, ok) == Babel.Register(old(domain.dirs), paths, world.paths)
    {
      ghost var start := domain.dirs;
      ok := true;
      for i := 0 to |paths|
        invariant (domain.dirs, true) == Babel.Register(start, paths[..i], world.paths)
      {
        Babel.RegisterSnoc(start, paths, world.paths, i);
        ok := domain.AddPath(world, paths[i]);
        if !ok {
          assert paths == paths[..i + 1] + paths[i + 1..];
          Babel.RegisterAppend(start, paths[..i + 1], paths[i + 1..], world.paths);
          return;
        }
      }
      assert paths[..|paths|] == paths;
    }

    /** Step 2 of `init_app`: `<root_path>/translations`, registered only when it exists. */
    method AddAppTranslations(world: Babel.World, rootPath: string) returns (ok: bool)
      modifies domain
      ensures (domain.dirs, ok) == Babel.Register(old(domain.dirs), AppDirs(world, rootPath), world.paths)
    {
      var appTranslations := JoinPath(rootPath, "translations");
      ok := true;
      if appTranslations in world.paths {
        ok := domain.AddPath(world, appTranslations);
      }
    }

    /** Step 3 of `init_app`: the entry-point group, when it is truthy. */
    method AddGroup(world: Babel.World) returns (ok: bool)
      modifies domain
      ensures (domain.dirs, ok) == Babel.Register(old(domain.dirs), Babel.GroupDirs(world, entryPointGroup), world.paths)
    {
      ok := true;
      if entryPointGroup.Some? && entryPointGroup.value != "" {
        ok := domain.AddEntrypoint(world, entryPointGroup.value);
      }
    }

    /** `iter_languages()`: the default language with its display name, then `I18N_LANGUAGES` in order. */
    method IterLanguages(app: App, babel: BabelDefaults) returns (langs: seq<(string, string)>)
      ensures langs == [(babel.language, babel.title)] + ConfiguredLanguages(app.config)
    {
      langs := [(babel.language, babel.title)];
      var configured := ConfiguredLanguages(app.config);
      for i := 0 to |configured|
        invariant langs == [(babel.language, babel.title)] + configured[..i]
      {
        assert configured[..i + 1] == configured[..i] + [configured[i]];
        langs := langs + [configured[i]];
      }
      assert configured[..|configured|] == configured;
    }

    /** `get_languages()`: computed on the first call, then the cached list whatever the configuration. */
    method GetLanguages(app: App, babel: BabelDefaults) returns (langs: seq<(string, string)>)
      modifies this
      ensures old(languagesCache).Some? ==> langs == old(languagesCache).value
      ensures old(languagesCache).None? ==> langs == [(babel.language, babel.title)] + ConfiguredLanguages(app.config)
      ensures languagesCache == Some(langs) && localesCache == old(localesCache)
    {
      if languagesCache.None? {
        var computed := IterLanguages(app, babel);
        languagesCache := Some(computed);
      }
      langs := languagesCache.value;
    }

    /** `get_locales()`: the default locale, then each configured language's locale, cached after the first call. */
    method GetLocales(app: App, babel: BabelDefaults) returns (locales: seq<string>)
      modifies this
      ensures old(localesCache).Some? ==> locales == old(localesCache).value
      ensures old(localesCache).None? ==> locales == [babel.locale] + Codes(ConfiguredLanguages(app.config))
      ensures localesCache == Some(locales) && languagesCache == old(languagesCache)
    {
      if localesCache.None? {
        var langs := [babel.locale];
        var configured := ConfiguredLanguages(app.config);
        for i := 0 to |configured|
          invariant langs == [babel.locale] + Codes(configured[..i])
        {
          assert configured[..i + 1][..i] == configured[..i];
          langs := langs + [configured[i].0];
        }
        assert configured[..|configured|] == configured;
        localesCache := Some(langs);
      }
      locales := localesCache.value;
    }
  }

  /**
   * `get_languages()` does not de-duplicate: when `I18N_LANGUAGES` also lists
   * the default language, a fresh extension returns its code twice.
   */
  method DefaultLanguageListedTwice(config: Config, rootPath: string, babel: BabelDefaults, k: nat)
    returns (codes: seq<string>)
    requires k < |ConfiguredLanguages(config)| && ConfiguredLanguages(config)[k].0 == babel.language
    ensures |codes| == 1 + |ConfiguredLanguages(config)|
    ensures codes[0] == babel.language && codes[k + 1] == babel.language
  {
    var app := new App(config, rootPath);
    var ext := new InvenioI18N(None);
    var langs := ext.GetLanguages(app, babel);
    codes := Codes(langs);
    LanguageCodes(babel, config);
    CodesAt(ConfiguredLanguages(config), k);
  }

  /** The codes of the language list are the default language followed by the configured codes. */
  lemma LanguageCodes(babel: BabelDefaults, config: Config)
    ensures Codes([(babel.language, babel.title)] + ConfiguredLanguages(config))
            == [babel.language] + Codes(ConfiguredLanguages(config))
  {
    var c := ConfiguredLanguages(config);
    var all := [(babel.language, babel.title)] + c;
    forall k | 0 <= k < |all| ensures Codes(all)[k] == ([babel.language] + Codes(c))[k] {
      CodesAt(all, k);
      if k > 0 {
        CodesAt(c, k - 1);
      }
    }
  }

  /** A cached list survives a change of configuration: two calls around the change agree. */
  method LanguagesCacheIgnoresConfig(ext: InvenioI18N, app: App, babel: BabelDefaults, newConfig: Config)
    returns (first: seq<(string, string)>, second: seq<(string, string)>)
    modifies ext, app
    ensures first == second
  {
    first := ext.GetLanguages(app, babel);
    app.config := newConfig;
    second := ext.GetLanguages(app, babel);
  }

  /** The same for the locale list. */
  method LocalesCacheIgnoresConfig(ext: InvenioI18N, app: App, babel: BabelDefaults, newConfig: Config)
    returns (first: seq<string>, second: seq<string>)
    modifies ext, app
    ensures first == second
  {
    first := ext.GetLocales(app, babel);
    app.config := newConfig;
    second := ext.GetLocales(app, babel);
  }

  /**
   * The registration order made explicit: when every configured path exists
   * and the world is well formed, `init_app` succeeds and appends the
   * configured paths, then `<root_path>/translations` if present, then the
   * entry-point directories.
   */
  lemma InitAppOrder(dirs: seq<string>, config: Config, world: Babel.World, rootPath: string, group: Option<string>)
    requires Babel.WellFormed(world)
    requires forall k :: 0 <= k < |TranslationPaths(config)| ==> TranslationPaths(config)[k] in world.paths
    ensures var xs := TranslationPaths(config) + AppDirs(world, rootPath) + Babel.GroupDirs(world, group);
      Babel.Register(dirs, xs, world.paths) == (dirs + xs, true)
  {
    var ps := TranslationPaths(config);
    var ad := AppDirs(world, rootPath);
    var gd := Babel.GroupDirs(world, group);
    var xs := ps + ad + gd;
    if group.Some? {
      Babel.EntrypointDirsExist(world, Babel.EntryModules(world, group.value));
    }
    forall k | 0 <= k < |xs| ensures xs[k] in world.paths {
      if k < |ps| {
        assert xs[k] == ps[k];
      } else if k < |ps| + |ad| {
        assert xs[k] == ad[k - |ps|];
      } else {
        assert xs[k] == gd[k - |ps| - |ad|];
      }
    }
    Babel.RegisterSpec(dirs, xs, world.paths);
  }
}
