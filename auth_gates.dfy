/** PREVIOUSPROJECTATTEMPT/auth/decorators.py: the two view gates. A gate
    either lets the view run or answers in its place; `domain_required`
    also empties the session whenever it refuses. */
module AuthGates {
  import opened Wrappers
  import opened Text
  import opened PyValues
  import opened FlaskSession
  import opened AuthClaims
  import opened AuthConfig

  datatype GateOutcome =
    | CallView                      // the wrapped view runs
    | RedirectToLogin(next: string) // redirect to auth.login with next = the request URL
    | Deny(message: string)         // status 403
    | GateFault                     // "Auth settings not initialized" raised

  /** `login_required`: the view runs exactly when the session's user is
      truthy. */
  function LoginRequired(session: map<string, Value>, requestUrl: string): (o: GateOutcome)
    ensures o == CallView <==> Truthy(Get(session, "user"))
    ensures o != CallView ==> o == RedirectToLogin(requestUrl)
  {
    if Truthy(Get(session, "user")) then CallView else RedirectToLogin(requestUrl)
  }

  /** The e-mail of the signed-in user: `session.get("user") or {}`, its
      "claims" when the user is a dict, and the claims' e-mail when those
      are a dict. */
  function SessionEmail(session: map<string, Value>): Option<string> {
    var user := Or(Get(session, "user"), Dict(map[]));
    var claims := if user.Dict? then Get(user.entries, "claims") else PyNone;
    if claims.Dict? then GetEmailFromClaims(Some(claims.entries)) else None
  }

  /** The address ends with "@" + the allowed domain, ignoring the case of
      the address. */
  predicate DomainAllowed(email: string, allowed: string) {
    EndsWith(Lower(email), "@" + allowed)
  }

  function UnauthorizedMessage(email: string, allowed: string): string {
    "Unauthorized: your account '" + email + "' is not allowed. " + "Please sign in with an @" + allowed + " account."
  }

  /** The decision of `domain_required`: no e-mail sends the user to log
      in; an e-mail in the allowed domain runs the view; any other e-mail
      is refused with 403. The settings are read only once an e-mail was
      found. */
  function DomainDecision(session: map<string, Value>, settings: Option<AuthSettings>, requestUrl: string): (o: GateOutcome)
    ensures SessionEmail(session).None? ==> o == RedirectToLogin(requestUrl)
    ensures o == CallView <==> SessionEmail(session).Some? && settings.Some? &&
                               DomainAllowed(SessionEmail(session).value, settings.value.allowedEmailDomain)
    ensures o.Deny? ==> SessionEmail(session).Some? && settings.Some? &&
                        o.message == UnauthorizedMessage(SessionEmail(session).value, settings.value.allowedEmailDomain)
    ensures SessionEmail(session).Some? && settings.None? ==> o == GateFault
    ensures SessionEmail(session).Some? && settings.Some? &&
            !DomainAllowed(SessionEmail(session).value, settings.value.allowedEmailDomain) ==>
              o == Deny(UnauthorizedMessage(SessionEmail(session).value, settings.value.allowedEmailDomain))
  {
    var email := SessionEmail(session);
    if email.None? then RedirectToLogin(requestUrl)
    else if settings.None? then GateFault
    else if DomainAllowed(email.value, settings.value.allowedEmailDomain) then CallView
    else Deny(UnauthorizedMessage(email.value, settings.value.allowedEmailDomain))
  }

  /** `domain_required`'s wrapper: decide, and clear the session whenever
      the user is sent to log in or refused. */
  method DomainRequired(s: Session, settings: Option<AuthSettings>, requestUrl: string) returns (o: GateOutcome)
    modifies s
    ensures o == DomainDecision(old(s.data), settings, requestUrl)
    ensures o.RedirectToLogin? || o.Deny? ==> s.data == map[]
    ensures o.CallView? || o.GateFault? ==> s.data == old(s.data)
  {
    var email := SessionEmail(s.data);
    if email.None? {
      s.Clear();
      return RedirectToLogin(requestUrl);
    }
    if settings.None? {
      return GateFault;
    }
    var allowed := settings.value.allowedEmailDomain;
    if DomainAllowed(email.value, allowed) {
      return CallView;
    }
    s.Clear();
    return Deny(UnauthorizedMessage(email.value, allowed));
  }

  /** `domain_required` is the stronger gate: whatever it lets through,
      `login_required` lets through too. */
  lemma DomainImpliesLogin(session: map<string, Value>, settings: Option<AuthSettings>, requestUrl: string)
    ensures DomainDecision(session, settings, requestUrl) == CallView ==> LoginRequired(session, requestUrl) == CallView
  {
    if !Truthy(Get(session, "user")) {
      assert Or(Get(session, "user"), Dict(map[])) == Dict(map[]);
      assert SessionEmail(session).None?;
    }
  }

  /** The domain check ignores the case of the address: an address and its
      lowercase get the same answer. */
  lemma DomainCaseInsensitive(email: string, allowed: string)
    ensures DomainAllowed(Lower(email), allowed) == DomainAllowed(email, allowed)
  {
    LowerIdempotent(email);
  }

  lemma LowerIdempotent(s: string)
    ensures Lower(Lower(s)) == Lower(s)
  {
    var l := Lower(s);
    forall i | 0 <= i < |l| ensures LowerChar(l[i]) == l[i] {
    }
  }

  /** A user whose claims carry an address in the allowed domain (in any
      case) passes. */
  lemma AllowedUserPasses(claims: map<string, Value>, settings: AuthSettings, requestUrl: string)
    requires Qualifies(claims, "preferred_username")
    requires DomainAllowed(Strip(claims["preferred_username"].s, Whitespace), settings.allowedEmailDomain)
    ensures DomainDecision(map["user" := Dict(map["claims" := Dict(claims)])], Some(settings), requestUrl) == CallView
  {
    var session := map["user" := Dict(map["claims" := Dict(claims)])];
    assert "claims" in session["user"].entries;
    assert Truthy(Get(session, "user"));
    PreferredUsernameWins(claims);
  }
}
