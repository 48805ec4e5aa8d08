/**
 * The set-language view of views.py: `set_lang` checks the requested code
 * against the configured languages, stores it in the session and
 * redirects to the first safe target.
 */
module Views {
  import opened Wrappers
  import Strings
  import Ext
  import Selectors

  /**
   * URL handling used by `is_local_url`: `urljoin`, and the scheme and
   * netloc `urlparse` finds; these are outside the model.
   */
  datatype UrlTools = UrlTools(join: (string, string) -> string, scheme: string -> string, netloc: string -> string)

  /** The parts of the request the view reads. */
  datatype ViewRequest = ViewRequest(
    httpMethod: string,
    /** `request.values`: query arguments and form fields together. */
    values: map<string, string>,
    referrer: Option<string>,
    hostUrl: string)

  /** `is_local_url(target)`: joined onto the host URL, an http(s) URL on the host's own netloc. */
  predicate IsLocalUrl(tools: UrlTools, hostUrl: string, target: string) {
    var test := tools.join(hostUrl, target);
    (tools.scheme(test) == "http" || tools.scheme(test) == "https") && tools.netloc(hostUrl) == tools.netloc(test)
  }

  /** A redirect candidate that may be followed: present, non-empty and local. */
  predicate Safe(tools: UrlTools, hostUrl: string, t: Option<string>) {
    t.Some? && t.value != "" && IsLocalUrl(tools, hostUrl, t.value)
  }

  function Next(req: ViewRequest): Option<string> {
    if "next" in req.values then Some(req.values["next"]) else None
  }

  /**
   * `get_redirect_target()`: the `next` value when it is safe, else the
   * referrer when it is safe, else nothing.
   */
  function GetRedirectTarget(tools: UrlTools, req: ViewRequest): (r: Option<string>)
    ensures r.Some? ==> Safe(tools, req.hostUrl, r) && (r == Next(req) || r == req.referrer)
    ensures r.None? <==> !Safe(tools, req.hostUrl, Next(req)) && !Safe(tools, req.hostUrl, req.referrer)
    ensures Safe(tools, req.hostUrl, Next(req)) ==> r == Next(req)
  {
    if Safe(tools, req.hostUrl, Next(req)) then Next(req)
    else if Safe(tools, req.hostUrl, req.referrer) then req.referrer
    else None
  }

  /** `lang_code or request.values.get('lang_code')`. */
  function RequestedCode(langCode: Option<string>, req: ViewRequest): (r: Option<string>)
    ensures langCode.Some? && langCode.value != "" ==> r == langCode
    ensures (langCode.None? || langCode.value == "") ==>
      (r.Some? <==> "lang_code" in req.values) && (r.Some? ==> r.value == req.values["lang_code"])
  {
    if langCode.Some? && langCode.value != "" then langCode
    else if "lang_code" in req.values then Some(req.values["lang_code"])
    else None
  }

  /** `flask.session`. */
  class Session {
    var data: map<string, string>

    constructor (data: map<string, string>)
      ensures this.data == data
    {
      this.data := data;
    }
  }

  datatype Response = Abort(status: int) | Redirect(location: string)

  /** The settings `set_lang` reads: `I18N_SESSION_KEY` and `I18N_DEFAULT_REDIRECT_ENDPOINT`. */
  datatype ViewConfig = ViewConfig(sessionKey: string, defaultEndpoint: Option<string>, urlFor: string -> string)

  /** Whether a requested code is one of the configured language codes. */
  predicate Known(code: Option<string>, languages: seq<(string, string)>) {
    code.Some? && code.value in Ext.Codes(languages)
  }

  /** The redirect location after a successful change: the safe target, else the configured endpoint, else `/`. */
  function Location(tools: UrlTools, req: ViewRequest, config: ViewConfig): (r: string)
    ensures GetRedirectTarget(tools, req).Some? ==> r == GetRedirectTarget(tools, req).value && IsLocalUrl(tools, req.hostUrl, r)
    ensures GetRedirectTarget(tools, req).None? && config.defaultEndpoint.Some? && config.defaultEndpoint.value != ""
            ==> r == config.urlFor(config.defaultEndpoint.value)
    ensures GetRedirectTarget(tools, req).None? && (config.defaultEndpoint.None? || config.defaultEndpoint.value == "")
            ==> r == "/"
  {
    var target := GetRedirectTarget(tools, req);
    if target.Some? then target.value
    else if config.defaultEndpoint.Some? && config.defaultEndpoint.value != "" then config.urlFor(config.defaultEndpoint.value)
    else "/"
  }

  /**
   * `set_lang(lang_code)` as written: an unknown or missing code aborts
   * (404 for GET, 400 otherwise) without touching the session; a known one
   * is stored LOWER-CASED and the response redirects.  `languages` is what
   * `get_languages()` returns.
   */
  method SetLang(session: Session, req: ViewRequest, tools: UrlTools, config: ViewConfig,
                 languages: seq<(string, string)>, langCode: Option<string>) returns (resp: Response)
    modifies session
    ensures var code := RequestedCode(langCode, req);
      if Known(code, languages)
      then session.data == old(session.data)[config.sessionKey := Strings.Lower(code.value)]
        && resp == Redirect(Location(tools, req, config))
      else session.data == old(session.data) && resp == Abort(if req.httpMethod == "GET" then 404 else 400)
  {
    var code := RequestedCode(langCode, req);
    if code.None? || code.value !in Ext.Codes(languages) {
      resp := Abort(if req.httpMethod == "GET" then 404 else 400);
      return;
    }
    session.data := session.data[config.sessionKey := Strings.Lower(code.value)];
    resp := Redirect(Location(tools, req, config));
  }

  /**
   * `set_lang` as evidently intended: the same checks and redirect, but the
   * code is stored exactly as configured, so the selector recognises it.
   */
  method SetLangCorrected(session: Session, req: ViewRequest, tools: UrlTools, config: ViewConfig,
                          languages: seq<(string, string)>, langCode: Option<string>) returns (resp: Response)
    modifies session
    ensures var code := RequestedCode(langCode, req);
      if Known(code, languages)
      then session.data == old(session.data)[config.sessionKey := code.value]
        && resp == Redirect(Location(tools, req, config))
      else session.data == old(session.data) && resp == Abort(if req.httpMethod == "GET" then 404 else 400)
  {
    var code := RequestedCode(langCode, req);
    if code.None? || code.value !in Ext.Codes(languages) {
      resp := Abort(if req.httpMethod == "GET" then 404 else 400);
      return;
    }
    session.data := session.data[config.sessionKey := code.value];
    resp := Redirect(Location(tools, req, config));
  }

  /**
   * The round trip the corrected view completes: a code stored under the
   * session key is what `get_locale` selects on the next request, as long
   * as nothing with higher precedence (a forced locale, an `ln` argument)
   * names a supported code.
   */
  lemma StoredCodeSelected(ctx: Selectors.Context, code: string)
    requires code in Selectors.Locales(ctx)
    requires ctx.sessionKey in ctx.session && ctx.session[ctx.sessionKey] == code
    requires !Selectors.Supported(ctx.forced, Selectors.Locales(ctx))
    requires !Selectors.Supported(Selectors.ArgCandidate(ctx), Selectors.Locales(ctx))
    ensures Selectors.GetLocale(ctx) == code
  {
  }

  /** The request that follows a language change: no `ln`, no header match, nothing forced, no user. */
  function NextRequestContext(languages: seq<(string, string)>, session: map<string, string>, sessionKey: string,
                              defaultLocale: string): Selectors.Context
  {
    Selectors.Context(Some(Ext.Codes(languages)), None, Some(Selectors.Request(map[], _ => None)), session,
      sessionKey, None, false, None, defaultLocale)
  }

  /**
   * With the corrected view, a known code is selected on the next request
   * whatever its case.
   */
  lemma CorrectedRoundTrip(languages: seq<(string, string)>, session: map<string, string>, key: string,
                           code: string, defaultLocale: string)
    requires code in Ext.Codes(languages)
    ensures Selectors.GetLocale(NextRequestContext(languages, session[key := code], key, defaultLocale)) == code
  {
    StoredCodeSelected(NextRequestContext(languages, session[key := code], key, defaultLocale), code);
  }

  /**
   * The as-written view loses a code with upper-case letters: with the
   * languages `en` and `zh_CN`, choosing `zh_CN` stores `zh_cn`, which the
   * selector does not support, so the next request falls back to `en`.
   */
  method LowercasedCodeIgnored() returns (stored: string, selected: string)
    ensures stored == "zh_cn" && selected == "en"
  {
    var languages := [("en", "English"), ("zh_CN", "Chinese (China)")];
    var session := new Session(map[]);
    var req := ViewRequest("GET", map[], None, "http://localhost/");
    var tools := UrlTools((a, b) => a + b, _ => "http", _ => "localhost");
    var config := ViewConfig("language", None, e => "/" + e);
    assert Ext.Codes(languages) == ["en", "zh_CN"] by {
      Ext.CodesAt(languages, 0);
      Ext.CodesAt(languages, 1);
    }
    assert Strings.Lower("zh_CN") == "zh_cn" by {
      assert Strings.LowerChar('C') == 'c' && Strings.LowerChar('N') == 'n';
    }
    var resp := SetLang(session, req, tools, config, languages, Some("zh_CN"));
    stored := session.data["language"];
    assert "zh_cn" != "zh_CN" by {
      assert "zh_cn"[3] != "zh_CN"[3];
    }
    selected := Selectors.GetLocale(NextRequestContext(languages, session.data, "language", "en"));
  }
}
