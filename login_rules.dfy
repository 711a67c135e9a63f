/** The login-page customisation rules (`LFO_Core`): whether the customisations apply to a
    request, which client address is used, and the filters over the login page's error text,
    redirects, logo link and hidden elements. All of them read the settings map that
    `get_all_settings` returns; the object loads it once. */
module LoginCustomization {
  import opened Php
  import opened SettingsStore

  /** The request facts the rules read: `is_user_logged_in()`, the current user's roles, and the
      `HTTP_X_FORWARDED_FOR` and `REMOTE_ADDR` entries of `$_SERVER` when set. */
  datatype Request = Request(loggedIn: bool, roles: seq<string>, forwardedFor: Option<string>, remoteAddr: Option<string>)

  // ================================================================ get_user_ip

  /** `get_user_ip`: the trimmed first entry of X-Forwarded-For whenever that header is set,
      otherwise REMOTE_ADDR, otherwise the empty string. */
  function UserIp(req: Request): string
  {
    match req.forwardedFor
    case Some(h) => Trim(FirstEntry(h))
    case None => if req.remoteAddr.Some? then req.remoteAddr.value else ""
  }

  /** With X-Forwarded-For set, the address is its first comma-separated entry without the
      surrounding whitespace, whatever REMOTE_ADDR says. */
  lemma UserIpForwarded(req: Request)
    requires req.forwardedFor.Some?
    ensures var ip := UserIp(req);
            var first := FirstEntry(req.forwardedFor.value);
      && ',' !in ip
      && (ip == [] || (!IsTrimmed(ip[0]) && !IsTrimmed(ip[|ip| - 1])))
      && (exists w1, w2 :: AllTrimmed(w1) && AllTrimmed(w2) && first == w1 + ip + w2)
      && UserIp(req.(remoteAddr := None)) == ip
  {
    var first := FirstEntry(req.forwardedFor.value);
    var ip := Trim(first);
    TrimSpec(first);
    var w1, w2 :| AllTrimmed(w1) && AllTrimmed(w2) && first == w1 + ip + w2;
    forall k | 0 <= k < |ip| ensures ip[k] != ',' {
      assert ip[k] == first[|w1| + k];
    }
  }

  /** Without X-Forwarded-For, REMOTE_ADDR is used as it is. */
  lemma UserIpDirect(req: Request)
    requires req.forwardedFor.None?
    ensures UserIp(req) == if req.remoteAddr.Some? then req.remoteAddr.value else ""
  {
  }

  // ================================================================ should_apply_customizations

  /** The three conditions of `should_apply_customizations`: the plugin flag (missing means
      '1'), no role exception held by a logged-in user, and the address not allowlisted. */
  predicate Applies(settings: map<string, Value>, req: Request)
  {
    var exceptions := Get(settings, "role_exceptions", List([]));
    var allowlist := Get(settings, "ip_allowlist", List([]));
    && Get(settings, "enable_plugin", Str("1")) == Str("1")
    && !(!EmptyValue(exceptions) && req.loggedIn && exists r :: r in Items(exceptions) && r in req.roles)
    && !(!EmptyValue(allowlist) && UserIp(req) in Items(allowlist))
  }

  /** The decision, with the early-returning loop over the role exceptions. */
  method ShouldApplyCustomizations(settings: map<string, Value>, req: Request) returns (apply: bool)
    ensures apply == Applies(settings, req)
  {
    if Get(settings, "enable_plugin", Str("1")) != Str("1") {
      return false;
    }
    var exceptions := Get(settings, "role_exceptions", List([]));
    if !EmptyValue(exceptions) && req.loggedIn {
      var roles := Items(exceptions);
      var i := 0;
      while i < |roles|
        invariant 0 <= i <= |roles|
        invariant forall k :: 0 <= k < i ==> roles[k] !in req.roles
      {
        if roles[i] in req.roles {
          return false;
        }
        i := i + 1;
      }
    }
    var allowlist := Get(settings, "ip_allowlist", List([]));
    if !EmptyValue(allowlist) {
      var ip := UserIp(req);
      if ip in Items(allowlist) {
        return false;
      }
    }
    return true;
  }

  /** Role exceptions are ignored for anonymous visitors: only the plugin flag and the
      allowlist decide. */
  lemma AnonymousIgnoresExceptions(settings: map<string, Value>, req: Request)
    requires !req.loggedIn
    ensures Applies(settings, req) <==>
      && Get(settings, "enable_plugin", Str("1")) == Str("1")
      && UserIp(req) !in Items(Get(settings, "ip_allowlist", List([])))
  {
  }

  /** Any stored value of `enable_plugin` other than '1' switches everything off. */
  lemma DisabledNeverApplies(settings: map<string, Value>, req: Request)
    requires "enable_plugin" in settings && settings["enable_plugin"] != Str("1")
    ensures !Applies(settings, req)
  {
  }

  /** A logged-in user holding any exempted role is exempted. */
  lemma RoleExceptionExempts(settings: map<string, Value>, req: Request, role: string)
    requires req.loggedIn
    requires role in Items(Get(settings, "role_exceptions", List([]))) && role in req.roles
    ensures !Applies(settings, req)
  {
  }

  /** An allowlisted address is exempted, even when it came from a forged X-Forwarded-For. */
  lemma AllowlistExempts(settings: map<string, Value>, req: Request, forged: string)
    requires Trim(FirstEntry(forged)) in Items(Get(settings, "ip_allowlist", List([])))
    ensures !Applies(settings, req.(forwardedFor := Some(forged)))
  {
  }

  // ================================================================ filters

  const DefaultErrorMessage := "Invalid credentials."

  /** `filter_login_errors`: the configured message in `<strong>` when hiding is on ('1'),
      otherwise the errors as given (escaping is not modelled). */
  function FilterLoginErrors(settings: map<string, Value>, errors: string): string
  {
    if Get(settings, "hide_login_errors", Str("0")) == Str("1") then
      "<strong>" + Text(Get(settings, "custom_error_message", Str(DefaultErrorMessage))) + "</strong>"
    else errors
  }

  /** Hiding replaces every error with the same text, so the page no longer tells which part of
      the credentials was wrong; without hiding the errors pass through unchanged. */
  lemma FilterLoginErrorsSpec(settings: map<string, Value>, e1: string, e2: string)
    ensures Get(settings, "hide_login_errors", Str("0")) == Str("1") ==>
      FilterLoginErrors(settings, e1) == FilterLoginErrors(settings, e2)
    ensures Get(settings, "hide_login_errors", Str("0")) != Str("1") ==> FilterLoginErrors(settings, e1) == e1
    ensures "hide_login_errors" !in settings ==> FilterLoginErrors(settings, e1) == e1
    ensures Get(settings, "hide_login_errors", Str("0")) == Str("1") && "custom_error_message" !in settings ==>
      FilterLoginErrors(settings, e1) == "<strong>" + DefaultErrorMessage + "</strong>"
  {
  }

  /** The user `custom_login_redirect` receives: a failed login (a `WP_Error`) or a user's roles. */
  datatype LoginUser = ErrorUser | User(roles: seq<string>)

  /** `custom_login_redirect`. */
  function LoginRedirect(settings: map<string, Value>, redirectTo: string, user: LoginUser): string
  {
    if user.ErrorUser? then redirectTo
    else if "subscriber" in user.roles && !EmptyValue(Get(settings, "login_redirect_subscriber", Str(""))) then
      Text(Get(settings, "login_redirect_subscriber", Str("")))
    else redirectTo
  }

  lemma LoginRedirectSpec(settings: map<string, Value>, redirectTo: string, user: LoginUser)
    ensures user.ErrorUser? || "subscriber" !in user.roles ==> LoginRedirect(settings, redirectTo, user) == redirectTo
    ensures user.User? && "subscriber" in user.roles && "login_redirect_subscriber" in settings
            && settings["login_redirect_subscriber"].Str? && !EmptyString(settings["login_redirect_subscriber"].s) ==>
      LoginRedirect(settings, redirectTo, user) == settings["login_redirect_subscriber"].s
    ensures "login_redirect_subscriber" !in settings ==> LoginRedirect(settings, redirectTo, user) == redirectTo
  {
  }

  /** A configured URL when it is not PHP-empty, otherwise the home URL (the fallback of both
      `custom_logout_redirect` and `custom_logo_url`). */
  function UrlOr(v: Value, homeUrl: string): (r: string)
    ensures !EmptyString(homeUrl) ==> !EmptyString(r)
    ensures v.Str? && !EmptyString(v.s) ==> r == v.s
    ensures EmptyValue(v) ==> r == homeUrl
  {
    if !EmptyValue(v) then Text(v) else homeUrl
  }

  /** `custom_logout_redirect`. */
  function LogoutRedirect(settings: map<string, Value>, homeUrl: string): (r: string)
    ensures !EmptyString(homeUrl) ==> !EmptyString(r)
    ensures "logout_redirect_url" !in settings ==> r == homeUrl
  {
    UrlOr(Get(settings, "logout_redirect_url", Str("")), homeUrl)
  }

  /** `custom_logo_url`: the configured link, defaulting to the home URL both when the key is
      missing and when it is empty. */
  function LogoUrl(settings: map<string, Value>, homeUrl: string): (r: string)
    ensures !EmptyString(homeUrl) ==> !EmptyString(r)
    ensures "logo_link_url" !in settings ==> r == homeUrl
  {
    UrlOr(Get(settings, "logo_link_url", Str(homeUrl)), homeUrl)
  }

  // ================================================================ hide_form_elements

  /** The three toggles of `hide_form_elements`, in the order the selectors are emitted. */
  const Toggles: seq<(string, string)> := [
    ("disable_language_switcher", ".language-switcher"),
    ("disable_privacy_link", ".privacy-policy-page-link"),
    ("disable_back_to_site", "#backtoblog") ]

  predicate ToggleOn(settings: map<string, Value>, toggle: (string, string))
  {
    Get(settings, toggle.0, Str("0")) == Str("1")
  }

  function Selectors(toggles: seq<(string, string)>): (r: seq<string>)
    ensures |r| == |toggles|
    ensures forall k :: 0 <= k < |r| ==> r[k] == toggles[k].1
  {
    if toggles == [] then [] else [toggles[0].1] + Selectors(toggles[1..])
  }

  /** The selectors hidden: those of the toggles set to '1', in the fixed order. */
  function HiddenSelectors(settings: map<string, Value>): seq<string>
  {
    Selectors(Filter(Toggles, t => ToggleOn(settings, t)))
  }

  /** Position of a toggle in the emission order. */
  function Rank(t: (string, string)): nat
  {
    if t == Toggles[0] then 0 else if t == Toggles[1] then 1 else 2
  }

  /** The selector of one toggle when it is on. */
  function Pick(settings: map<string, Value>, t: (string, string)): seq<string>
  {
    if ToggleOn(settings, t) then [t.1] else []
  }

  lemma Unfold(settings: map<string, Value>)
    ensures HiddenSelectors(settings) == Pick(settings, Toggles[0]) + Pick(settings, Toggles[1]) + Pick(settings, Toggles[2])
  {
    var keep := (t: (string, string)) => ToggleOn(settings, t);
    var f2 := Filter(Toggles[2..], keep);
    var f1 := Filter(Toggles[1..], keep);
    var f0 := Filter(Toggles, keep);
    assert Toggles[2..][1..] == [];
    assert Toggles[1..][1..] == Toggles[2..];
    assert f2 == if keep(Toggles[2]) then [Toggles[2]] else [];
    assert f1 == (if keep(Toggles[1]) then [Toggles[1]] else []) + f2;
    assert f0 == (if keep(Toggles[0]) then [Toggles[0]] else []) + f1;
    var r := Pick(settings, Toggles[0]) + Pick(settings, Toggles[1]) + Pick(settings, Toggles[2]);
    assert |Selectors(f0)| == |r|;
    forall k | 0 <= k < |r| ensures Selectors(f0)[k] == r[k] {
      assert Selectors(f0)[k] == f0[k].1;
    }
  }

  /** A selector is hidden exactly when its flag is '1', each at most once and in the fixed
      order `.language-switcher`, `.privacy-policy-page-link`, `#backtoblog`. */
  lemma HiddenSelectorsSpec(settings: map<string, Value>)
    ensures var r := HiddenSelectors(settings);
      && (".language-switcher" in r <==> Get(settings, "disable_language_switcher", Str("0")) == Str("1"))
      && (".privacy-policy-page-link" in r <==> Get(settings, "disable_privacy_link", Str("0")) == Str("1"))
      && ("#backtoblog" in r <==> Get(settings, "disable_back_to_site", Str("0")) == Str("1"))
      && |r| <= 3
  {
    Unfold(settings);
  }

  lemma HiddenSelectorsOrdered(settings: map<string, Value>)
    ensures var on := Filter(Toggles, t => ToggleOn(settings, t));
      forall i, j :: 0 <= i < j < |on| ==> Rank(on[i]) < Rank(on[j])
  {
    var before := (a: (string, string), b: (string, string)) => Rank(a) < Rank(b);
    FilterPairwise(Toggles, t => ToggleOn(settings, t), before);
  }

  /** The inline style `hide_form_elements` prints, or nothing. */
  function HideStyle(selectors: seq<string>): string
  {
    if selectors == [] then "" else "<style type=\"text/css\">" + Join(selectors, ",") + "{display:none!important;}</style>"
  }

  /** `hide_form_elements`, appending one selector per toggle that is on. */
  method HideFormElements(settings: map<string, Value>) returns (hidden: seq<string>, style: string)
    ensures hidden == HiddenSelectors(settings)
    ensures style == HideStyle(hidden)
    ensures style == "" <==> hidden == []
  {
    hidden := [];
    if Get(settings, "disable_language_switcher", Str("0")) == Str("1") {
      hidden := hidden + [".language-switcher"];
    }
    if Get(settings, "disable_privacy_link", Str("0")) == Str("1") {
      hidden := hidden + [".privacy-policy-page-link"];
    }
    if Get(settings, "disable_back_to_site", Str("0")) == Str("1") {
      hidden := hidden + ["#backtoblog"];
    }
    Unfold(settings);
    style := HideStyle(hidden);
  }

  // ================================================================ the core object

  class Core {
    const database: Database
    /** `$this->settings`: loaded on first use, then kept for the object's lifetime. */
    var settings: Option<map<string, Value>>
    /** Whether the constructor registered the login-page hooks. */
    var hooked: bool

    /** `__construct`: the hooks are registered exactly when the customisations apply to the
        request; `queryOk` is whether the settings query succeeds. */
    constructor (database: Database, req: Request, queryOk: bool)
      requires database.Valid()
      modifies database, database.table
      ensures database.Valid() && this.database == database
      ensures settings.Some? && hooked == Applies(settings.value, req)
      ensures old(database.cache).Some? ==> settings.value == old(database.cache).value
      ensures old(database.cache).None? ==>
        && (database.verified, database.table.present) == TableCheck(old(database.verified), old(database.table.present), database.table.creatable)
        && settings.value == (if database.verified == Some(true) && queryOk then Visible(database.table.rows) else map[])
    {
      var loaded := database.GetAllSettings(queryOk);
      var apply := ShouldApplyCustomizations(loaded, req);
      this.database := database;
      settings := Some(loaded);
      hooked := apply;
    }

    /** `get_settings`: the store is read only when nothing is loaded yet. */
    method GetSettings(queryOk: bool) returns (s: map<string, Value>)
      requires database.Valid()
      modifies this`settings, database, database.table
      ensures database.Valid() && settings == Some(s)
      ensures old(settings).Some? ==>
        && s == old(settings).value
        && database.cache == old(database.cache) && database.verified == old(database.verified)
        && database.table.present == old(database.table.present) && database.table.rows == old(database.table.rows)
      ensures old(settings).None? && old(database.cache).Some? ==> s == old(database.cache).value
      ensures old(settings).None? && old(database.cache).None? ==>
        && (database.verified, database.table.present) == TableCheck(old(database.verified), old(database.table.present), database.table.creatable)
        && s == (if database.verified == Some(true) && queryOk then Visible(database.table.rows) else map[])
    {
      if settings.Some? {
        return settings.value;
      }
      s := database.GetAllSettings(queryOk);
      settings := Some(s);
    }
  }
}
