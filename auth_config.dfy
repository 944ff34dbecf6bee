/** PREVIOUSPROJECTATTEMPT/auth/config.py: the Entra ID settings, read from
    the environment (a map from variable names to values) and stored in the
    application's configuration. */
module AuthConfig {
  import opened Wrappers
  import opened Text

  type Environ = map<string, string>

  const TenantVar := "AAD_TENANT_ID"
  const ClientVar := "AAD_CLIENT_ID"
  const SecretVar := "AAD_CLIENT_SECRET"
  const DomainVar := "AAD_ALLOWED_EMAIL_DOMAIN"
  const ScopesVar := "AAD_SCOPES"
  const DefaultDomain := "pvedi-ae.com"
  const DefaultScopes := "openid profile email"
  const AuthorityBase := "https://login.microsoftonline.com/"
  const MissingHead := "Missing required auth environment variables: "
  const MissingTail := ". Set them in Azure App Service Configuration (or your local env) before starting the app."
  /** The `app.config` key the settings are stored under. */
  const AuthSettingsKey := "AUTH_SETTINGS"

  datatype AuthSettings = AuthSettings(
    tenantId: string,
    clientId: string,
    clientSecret: string,
    allowedEmailDomain: string,
    scopes: seq<string>)

  /** The `authority` property: the tenant's login endpoint. */
  function Authority(s: AuthSettings): (r: string)
    ensures StartsWith(r, AuthorityBase) && r[|AuthorityBase|..] == s.tenantId
  {
    AuthorityBase + s.tenantId
  }

  /** `os.environ.get(name, default)`. */
  function EnvGet(environ: Environ, name: string, default: string): string {
    if name in environ then environ[name] else default
  }

  /** Position of a required variable in the fixed order of the check. */
  function Rank(v: string): int {
    if v == TenantVar then 0 else if v == ClientVar then 1 else 2
  }

  /** The `missing` list: the names of the blank required values, in the
      order tenant, client id, secret. */
  function MissingVars(tenant: string, client: string, secret: string): (missing: seq<string>)
    ensures forall v :: v in missing <==>
              (v == TenantVar && tenant == []) || (v == ClientVar && client == []) || (v == SecretVar && secret == [])
    ensures forall i, j :: 0 <= i < j < |missing| ==> Rank(missing[i]) < Rank(missing[j])
    ensures missing == [] <==> tenant != [] && client != [] && secret != []
  {
    (if tenant == [] then [TenantVar] else []) +
    (if client == [] then [ClientVar] else []) +
    (if secret == [] then [SecretVar] else [])
  }

  /** Not blank, and no whitespace at either end. */
  predicate Trimmed(s: string) {
    s != [] && s[0] !in Whitespace && s[|s| - 1] !in Whitespace
  }

  /** A required value: the variable stripped, "" when unset. */
  function Required(environ: Environ, name: string): (r: string)
    ensures r == [] || Trimmed(r)
  {
    Strip(EnvGet(environ, name, ""), Whitespace)
  }

  /** The allowed domain: stripped and lowercased, "pvedi-ae.com" when
      unset. */
  function DomainSetting(environ: Environ): (d: string)
    ensures forall i :: 0 <= i < |d| ==> !('A' <= d[i] <= 'Z')
    ensures DomainVar in environ ==> d == Lower(Strip(environ[DomainVar], Whitespace))
  {
    Lower(Strip(EnvGet(environ, DomainVar, DefaultDomain), Whitespace))
  }

  /** The scopes: `[s for s in raw.strip().split() if s]`, with raw
      "openid profile email" when unset. */
  function ScopesSetting(environ: Environ): (scopes: seq<string>)
    ensures scopes == Words(Strip(EnvGet(environ, ScopesVar, DefaultScopes), Whitespace))
    ensures forall w :: w in scopes ==> w != [] && forall i :: 0 <= i < |w| ==> w[i] !in Whitespace
  {
    var words := Words(Strip(EnvGet(environ, ScopesVar, DefaultScopes), Whitespace));
    NonEmptyKeepsWords(words);
    NonEmpty(words)
  }

  /** `load_auth_settings()`. The three required values are stripped; when
      any is blank the load fails naming the blank ones in order, otherwise
      the settings hold them with the domain and scopes settings. */
  function LoadAuthSettings(environ: Environ): (r: Result<AuthSettings, string>)
    ensures var tenant := Required(environ, TenantVar);
            var client := Required(environ, ClientVar);
            var secret := Required(environ, SecretVar);
            && (r.Failure? <==> tenant == [] || client == [] || secret == [])
            && (r.Failure? ==> r.error == MissingHead + Join(MissingVars(tenant, client, secret), ", ") + MissingTail)
            && (r.Success? ==>
                  && r.value == AuthSettings(tenant, client, secret, DomainSetting(environ), ScopesSetting(environ))
                  && Trimmed(tenant) && Trimmed(client) && Trimmed(secret))
  {
    var tenant := Required(environ, TenantVar);
    var client := Required(environ, ClientVar);
    var secret := Required(environ, SecretVar);
    var missing := MissingVars(tenant, client, secret);
    if missing != [] then Failure(MissingHead + Join(missing, ", ") + MissingTail)
    else Success(AuthSettings(tenant, client, secret, DomainSetting(environ), ScopesSetting(environ)))
  }

  /** The `if s` filter over `split()` keeps every word. */
  lemma {:induction false} NonEmptyKeepsWords(ws: seq<string>)
    requires forall w :: w in ws ==> w != []
    ensures NonEmpty(ws) == ws
    decreases |ws|
  {
    if ws != [] {
      assert ws[0] in ws;
      assert forall w :: w in ws[1..] ==> w in ws;
      NonEmptyKeepsWords(ws[1..]);
      assert [ws[0]] + ws[1..] == ws;
    }
  }

  /** With the domain variable unset, the domain is "pvedi-ae.com". */
  lemma DefaultDomainSetting(environ: Environ)
    requires DomainVar !in environ
    ensures DomainSetting(environ) == DefaultDomain
  {
    assert EnvGet(environ, DomainVar, DefaultDomain) == DefaultDomain;
    StripKeeps(DefaultDomain, Whitespace);
    LowerKeepsLowercase(DefaultDomain);
  }

  /** With the scopes variable unset, the scopes are openid, profile and
      email. */
  lemma DefaultScopesSetting(environ: Environ)
    requires ScopesVar !in environ
    ensures ScopesSetting(environ) == ["openid", "profile", "email"]
  {
    assert EnvGet(environ, ScopesVar, DefaultScopes) == DefaultScopes;
    StripKeeps(DefaultScopes, Whitespace);
    DefaultScopesJoin();
    DefaultWordsPlain();
    WordsJoin(["openid", "profile", "email"]);
  }

  lemma DefaultWordsPlain()
    ensures forall w :: w in ["openid", "profile", "email"] ==> w != [] && forall i :: 0 <= i < |w| ==> w[i] !in Whitespace
  {
    forall w | w in ["openid", "profile", "email"]
      ensures w != [] && forall i :: 0 <= i < |w| ==> w[i] !in Whitespace
    {
      assert forall i :: 0 <= i < |w| ==> 'a' <= w[i] <= 'z';
    }
  }

  lemma DefaultScopesJoin()
    ensures Join(["openid", "profile", "email"], " ") == DefaultScopes
  {
    assert Join(["email"], " ") == "email";
    assert ["openid", "profile", "email"][1..] == ["profile", "email"];
    assert ["profile", "email"][1..] == ["email"];
  }

  /** A text without capitals is its own lowercase. */
  lemma LowerKeepsLowercase(s: string)
    requires forall i :: 0 <= i < |s| ==> !('A' <= s[i] <= 'Z')
    ensures Lower(s) == s
  {
  }

  /** The stored domain is already lowercase, so comparing it with a
      lowercased address is a case-insensitive comparison. */
  lemma DomainIsLowercase(environ: Environ)
    ensures Lower(DomainSetting(environ)) == DomainSetting(environ)
  {
    LowerKeepsLowercase(DomainSetting(environ));
  }

  /** Loaded scopes survive a round trip through a space-separated string. */
  lemma ScopesRoundTrip(environ: Environ)
    ensures Words(Join(ScopesSetting(environ), " ")) == ScopesSetting(environ)
  {
    WordsJoin(ScopesSetting(environ));
  }

  /** An `app.config` entry: the auth settings, or anything else. */
  datatype ConfigValue = AuthEntry(settings: AuthSettings) | OtherSetting

  /** `_settings()`: the stored settings, or None where the source raises
      "Auth settings not initialized". */
  function SettingsOf(config: map<string, ConfigValue>): (r: Option<AuthSettings>)
    ensures r.Some? <==> AuthSettingsKey in config && config[AuthSettingsKey].AuthEntry?
  {
    if AuthSettingsKey in config && config[AuthSettingsKey].AuthEntry? then Some(config[AuthSettingsKey].settings)
    else None
  }

  datatype Initialised = Initialised(config: map<string, ConfigValue>, settings: AuthSettings)

  /** `init_auth(app)`: load the settings, store them under AUTH_SETTINGS
      and return them; a failed load stores nothing. */
  function InitAuth(config: map<string, ConfigValue>, environ: Environ): (r: Result<Initialised, string>)
    ensures r.Success? <==> LoadAuthSettings(environ).Success?
    ensures r.Failure? ==> r.error == LoadAuthSettings(environ).error
    ensures r.Success? ==> r.value.settings == LoadAuthSettings(environ).value &&
                           r.value.config == config[AuthSettingsKey := AuthEntry(r.value.settings)]
  {
    var loaded := LoadAuthSettings(environ);
    if loaded.Failure? then Failure(loaded.error)
    else Success(Initialised(config[AuthSettingsKey := AuthEntry(loaded.value)], loaded.value))
  }

  /** What `init_auth` returns is exactly what the routes later read back,
      and every other configuration entry is left as it was. */
  lemma InitThenSettings(config: map<string, ConfigValue>, environ: Environ)
    requires InitAuth(config, environ).Success?
    ensures SettingsOf(InitAuth(config, environ).value.config) == Some(InitAuth(config, environ).value.settings)
    ensures InitAuth(config, environ).value.config - {AuthSettingsKey} == config - {AuthSettingsKey}
  {
    var r := InitAuth(config, environ).value;
    StoreKeepsOthers(config, r.settings);
  }

  lemma StoreKeepsOthers(config: map<string, ConfigValue>, settings: AuthSettings)
    ensures config[AuthSettingsKey := AuthEntry(settings)] - {AuthSettingsKey} == config - {AuthSettingsKey}
  {
  }
}
