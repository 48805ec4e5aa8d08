/**
 * The locale selector `get_locale` (selectors.py): the first supported
 * candidate among the forced locale, the `ln` query argument, the session
 * value and the signed-in user's preference; then the Accept-Language
 * match; then `BABEL_DEFAULT_LOCALE`.  Everything the selector reads is
 * an explicit field of a `Context` record.
 */
module Selectors {
  import opened Wrappers

  /**
   * The current request: its query arguments and the Accept-Language
   * matcher `request.accept_languages.best_match`, which is outside the model.
   */
  datatype Request = Request(args: map<string, string>, bestMatch: seq<string> -> Option<string>)

  /** `current_user`: whether it is authenticated and its attributes that are not `None`. */
  datatype User = User(isAuthenticated: bool, attributes: map<string, string>)

  datatype Context = Context(
    /** The codes of `get_languages()` when the extension is registered, else `None`. */
    languages: Option<seq<string>>,
    /** The language of the locale forced on the Babel context, if one is. */
    forced: Option<string>,
    /** `None` outside a request. */
    request: Option<Request>,
    session: map<string, string>,
    /** `I18N_SESSION_KEY`. */
    sessionKey: string,
    /** `I18N_USER_LANG_ATTR`; `None` switches the user preference off. */
    userLangAttr: Option<string>,
    /** Whether the application has a login manager. */
    hasLoginManager: bool,
    /** `None` when there is no user object at all. */
    currentUser: Option<User>,
    /** `BABEL_DEFAULT_LOCALE`. */
    defaultLocale: string)

  /** The supported codes: none when the extension is not registered. */
  function Locales(ctx: Context): seq<string> {
    ctx.languages.GetOr([])
  }

  /** The `ln` query argument, when there is a request that carries one. */
  function ArgCandidate(ctx: Context): Option<string> {
    if ctx.request.Some? && "ln" in ctx.request.value.args then Some(ctx.request.value.args["ln"]) else None
  }

  /** The session's language, when the session has the key. */
  function SessionCandidate(ctx: Context): Option<string> {
    if ctx.sessionKey in ctx.session then Some(ctx.session[ctx.sessionKey]) else None
  }

  /** The user preference is read only with the attribute configured, a login manager, and a signed-in user. */
  predicate UserConsulted(ctx: Context) {
    ctx.userLangAttr.Some? && ctx.hasLoginManager && ctx.currentUser.Some? && ctx.currentUser.value.isAuthenticated
  }

  /** The signed-in user's preferred language, when it is consulted and set. */
  function UserCandidate(ctx: Context): Option<string> {
    if UserConsulted(ctx) && ctx.userLangAttr.value in ctx.currentUser.value.attributes
    then Some(ctx.currentUser.value.attributes[ctx.userLangAttr.value])
    else None
  }

  /** The matcher's answer for the supported codes, when there is a request. */
  function HeaderMatch(ctx: Context): Option<string> {
    if ctx.request.Some? then ctx.request.value.bestMatch(Locales(ctx)) else None
  }

  /** The matcher only ever answers with one of the codes it is offered. */
  predicate MatchSound(ctx: Context) {
    HeaderMatch(ctx).Some? ==> HeaderMatch(ctx).value in Locales(ctx)
  }

  /** `get_locale()`: the guarded returns in the source's order. */
  function GetLocale(ctx: Context): (r: string)
    ensures MatchSound(ctx) ==> r in Locales(ctx) || r == ctx.defaultLocale
  {
    var locales := Locales(ctx);
    if ctx.forced.Some? && ctx.forced.value in locales then ctx.forced.value
    else if ctx.request.Some? && "ln" in ctx.request.value.args && ctx.request.value.args["ln"] in locales
    then ctx.request.value.args["ln"]
    else if ctx.sessionKey in ctx.session && ctx.session[ctx.sessionKey] in locales
    then ctx.session[ctx.sessionKey]
    else if UserConsulted(ctx) && ctx.userLangAttr.value in ctx.currentUser.value.attributes
            && ctx.currentUser.value.attributes[ctx.userLangAttr.value] in locales
    then ctx.currentUser.value.attributes[ctx.userLangAttr.value]
    else if ctx.request.Some? && ctx.request.value.bestMatch(locales).Some?
    then ctx.request.value.bestMatch(locales).value
    else ctx.defaultLocale
  }

  // ---------------------------------------------------------------------
  // The reference definition: the first supported candidate.

  /** The candidates in order of precedence. */
  function Candidates(ctx: Context): seq<Option<string>> {
    [ctx.forced, ArgCandidate(ctx), SessionCandidate(ctx), UserCandidate(ctx)]
  }

  predicate Supported(c: Option<string>, locales: seq<string>) {
    c.Some? && c.value in locales
  }

  /** The first candidate that names a supported code. */
  function FirstSupported(cands: seq<Option<string>>, locales: seq<string>): Option<string> {
    if cands == [] then None
    else if Supported(cands[0], locales) then cands[0]
    else FirstSupported(cands[1..], locales)
  }

  /**
   * `FirstSupported` picks candidate `k` exactly when it is supported and
   * every earlier candidate is absent or unsupported.
   */
  lemma {:induction false} FirstSupportedIff(cands: seq<Option<string>>, locales: seq<string>, c: string)
    ensures FirstSupported(cands, locales) == Some(c) <==>
      exists k :: 0 <= k < |cands| && cands[k] == Some(c) && c in locales
        && forall j :: 0 <= j < k ==> !Supported(cands[j], locales)
  {
    if cands != [] {
      FirstSupportedIff(cands[1..], locales, c);
      if !Supported(cands[0], locales) {
        if exists k :: 0 <= k < |cands[1..]| && cands[1..][k] == Some(c) && c in locales
             && forall j :: 0 <= j < k ==> !Supported(cands[1..][j], locales) {
          var k :| 0 <= k < |cands[1..]| && cands[1..][k] == Some(c) && c in locales
             && forall j :: 0 <= j < k ==> !Supported(cands[1..][j], locales);
          assert cands[k + 1] == Some(c);
          forall j | 0 <= j < k + 1 ensures !Supported(cands[j], locales) {
            if j > 0 {
              assert cands[j] == cands[1..][j - 1];
            }
          }
        }
        if exists k :: 0 <= k < |cands| && cands[k] == Some(c) && c in locales
             && forall j :: 0 <= j < k ==> !Supported(cands[j], locales) {
          var k :| 0 <= k < |cands| && cands[k] == Some(c) && c in locales
             && forall j :: 0 <= j < k ==> !Supported(cands[j], locales);
          assert k > 0;
          assert cands[1..][k - 1] == Some(c);
          forall j | 0 <= j < k - 1 ensures !Supported(cands[1..][j], locales) {
            assert cands[1..][j] == cands[j + 1];
          }
        }
      }
    }
  }

  /**
   * The selector is the first supported candidate, otherwise the header
   * match, otherwise the default.
   */
  lemma GetLocaleIsFirstSupported(ctx: Context)
    ensures GetLocale(ctx) == match FirstSupported(Candidates(ctx), Locales(ctx))
      case Some(c) => c
      case None => HeaderMatch(ctx).GetOr(ctx.defaultLocale)
  {
    var ls := Locales(ctx);
    var c3 := [UserCandidate(ctx)];
    var c2 := [SessionCandidate(ctx)] + c3;
    var c1 := [ArgCandidate(ctx)] + c2;
    assert Candidates(ctx) == [ctx.forced] + c1;
    assert FirstSupported(c3, ls) == if Supported(c3[0], ls) then c3[0] else None by {
      assert c3[1..] == [];
    }
    assert c2[1..] == c3 && c1[1..] == c2 && ([ctx.forced] + c1)[1..] == c1;
    assert FirstSupported(c2, ls) == if Supported(c2[0], ls) then c2[0] else FirstSupported(c3, ls);
    assert FirstSupported(c1, ls) == if Supported(c1[0], ls) then c1[0] else FirstSupported(c2, ls);
    var all := [ctx.forced] + c1;
    assert FirstSupported(all, ls) == if Supported(all[0], ls) then all[0] else FirstSupported(c1, ls);
  }

  /** A supported forced locale wins over every other signal. */
  lemma ForcedWins(ctx: Context)
    requires ctx.forced.Some? && ctx.forced.value in Locales(ctx)
    ensures GetLocale(ctx) == ctx.forced.value
  {
  }

  /**
   * A candidate that names an unsupported code is skipped: changing it to
   * another unsupported value, or removing it, does not change the result.
   */
  lemma UnsupportedSessionSkipped(ctx: Context, other: map<string, string>)
    requires SessionCandidate(ctx).None? || SessionCandidate(ctx).value !in Locales(ctx)
    requires ctx.sessionKey !in other || other[ctx.sessionKey] !in Locales(ctx)
    ensures GetLocale(ctx) == GetLocale(ctx.(session := other))
  {
  }

  /** An anonymous user, or a configuration without the attribute or a login manager, is never consulted. */
  lemma UserIgnoredUnlessConsulted(ctx: Context, u: Option<User>)
    requires !UserConsulted(ctx)
    ensures GetLocale(ctx) == GetLocale(ctx.(currentUser := u, userLangAttr := None))
  {
  }

  /** Without the extension nothing is supported, so a sound matcher leaves only the default. */
  lemma UnregisteredGivesDefault(ctx: Context)
    requires ctx.languages.None? && MatchSound(ctx)
    ensures GetLocale(ctx) == ctx.defaultLocale
  {
  }

  /**
   * With no supported candidate and no header match, inside or outside a
   * request, the default is chosen.
   */
  lemma NoSignalGivesDefault(ctx: Context)
    requires !Supported(ctx.forced, Locales(ctx)) && !Supported(ArgCandidate(ctx), Locales(ctx))
    requires !Supported(SessionCandidate(ctx), Locales(ctx)) && !Supported(UserCandidate(ctx), Locales(ctx))
    requires HeaderMatch(ctx).None?
    ensures GetLocale(ctx) == ctx.defaultLocale
  {
  }
}
