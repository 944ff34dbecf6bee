/** PREVIOUSPROJECTATTEMPT/auth/routes.py: the sign-in flow. `/auth/login`
    remembers a state token and where to go afterwards, `/auth/callback`
    checks the state, exchanges the code for tokens and admits only
    addresses in the allowed domain, `/auth/logout` ends the session.
    The state token, the stored settings and the token endpoint are inputs;
    `None` settings stand for the "Auth settings not initialized" error. */
module AuthRoutes {
  import opened Wrappers
  import opened Text
  import opened PyValues
  import opened FlaskSession
  import opened AuthClaims
  import opened AuthConfig
  import opened AuthGates

  const InvalidStateMessage := "Authentication failed (invalid state). Please try again."
  const NoEmailMessage := "Authentication failed: no email claim returned by identity provider."
  const StateKey := "auth_state"
  const NextKey := "post_login_redirect"
  const UserKey := "user"

  datatype AuthReply =
    | AuthorizeAt(scopes: seq<string>, state: string)        // redirect to Microsoft, prompt=select_account
    | Redirect(target: Value)                                // redirect inside the app
    | SignOutAt(authority: string, postLogoutRedirect: string) // redirect to the tenant's logout endpoint
    | Fail(status: int, message: string)
    | TokenFailure(error: Value, description: Value)         // status 400, the token endpoint's error
    | ServerFault                                            // an exception escapes: status 500

  /** What a route answers, the session it leaves, and the authorization
      code it sent to the token endpoint (None when it sent none). */
  datatype Step = Step(reply: AuthReply, session: map<string, Value>, exchanged: Option<string>)

  /** `a or b` over an optional query argument. */
  function OrText(arg: Option<string>, default: string): (r: string)
    ensures arg.Some? && arg.value != [] ==> r == arg.value
    ensures arg.None? || arg.value == [] ==> r == default
  {
    if arg.Some? && arg.value != [] then arg.value else default
  }

  /** The 400 text when the callback carries no code. */
  function CodeFailureMessage(error: Option<string>, desc: Option<string>): string {
    "Authentication failed: " + OrText(error, "unknown_error") + "\n\n" + OrText(desc, "")
  }

  /** The `next` argument, or the index page when it is missing or empty. */
  function PostLoginTarget(next: Option<string>, indexUrl: string): string {
    OrText(next, indexUrl)
  }

  /** `/auth/login`: store the state token and the post-login target, then
      send the browser to Microsoft with the configured scopes. */
  function LoginStep(session: map<string, Value>, settings: Option<AuthSettings>, state: string,
                     next: Option<string>, indexUrl: string): (r: Step)
    ensures settings.None? ==> r == Step(ServerFault, session, None)
    ensures settings.Some? ==>
              && r.reply == AuthorizeAt(settings.value.scopes, state) && r.exchanged == None
              && Get(r.session, StateKey) == Str(state)
              && Get(r.session, NextKey) == Str(PostLoginTarget(next, indexUrl))
              && r.session - {StateKey, NextKey} == session - {StateKey, NextKey}
  {
    if settings.None? then Step(ServerFault, session, None)
    else
      var s' := session[StateKey := Str(state)][NextKey := Str(PostLoginTarget(next, indexUrl))];
      assert s' - {StateKey, NextKey} == session - {StateKey, NextKey};
      Step(AuthorizeAt(settings.value.scopes, state), s', None)
  }

  method Login(s: Session, settings: Option<AuthSettings>, state: string, next: Option<string>, indexUrl: string)
    returns (reply: AuthReply)
    modifies s
    ensures Step(reply, s.data, None) == LoginStep(old(s.data), settings, state, next, indexUrl)
  {
    if settings.None? {
      return ServerFault;
    }
    s.Set(StateKey, Str(state));
    s.Set(NextKey, Str(PostLoginTarget(next, indexUrl)));
    reply := AuthorizeAt(settings.value.scopes, state);
  }

  /** The CSRF check: a truthy stored state equal to the received one. */
  predicate StatePasses(session: map<string, Value>, received: Option<string>) {
    Truthy(Get(session, StateKey)) && received.Some? && Get(session, StateKey) == Str(received.value)
  }

  /** The profile stored for a signed-in user. */
  function SignedInUser(claims: map<string, Value>, email: string): Value {
    Dict(map["name" := Or(Get(claims, "name"), Str(email)), "email" := Str(email), "claims" := Dict(claims)])
  }

  /** `/auth/callback`, step by step as the route runs:
      the state check, the code check, the settings, the token exchange,
      the shape of its result, the claims, the e-mail and its domain, and
      finally the signed-in session and the redirect. Every refusal clears
      the session; an exception leaves it as it was at that point. */
  function CallbackStep(session: map<string, Value>, settings: Option<AuthSettings>,
                        state: Option<string>, code: Option<string>, error: Option<string>, desc: Option<string>,
                        exchange: string -> Value, indexUrl: string): Step
  {
    if !StatePasses(session, state) then Step(Fail(400, InvalidStateMessage), map[], None)
    else if code.None? || code.value == [] then Step(Fail(400, CodeFailureMessage(error, desc)), map[], None)
    else if settings.None? then Step(ServerFault, session, None)
    else
      var result := exchange(code.value);
      var sent := Some(code.value);
      if !result.Dict? then Step(ServerFault, map[], sent)   // cleared, then `.get` on a non-dict raises
      else if "error" in result.entries then
        Step(TokenFailure(Get(result.entries, "error"), Get(result.entries, "error_description")), map[], sent)
      else
        var claims := Or(Get(result.entries, "id_token_claims"), Dict(map[]));
        if !claims.Dict? then Step(ServerFault, session, sent)  // `.get` on truthy non-dict claims raises
        else
          var email := GetEmailFromClaims(Some(claims.entries));
          var allowed := settings.value.allowedEmailDomain;
          if email.None? then Step(Fail(400, NoEmailMessage), map[], sent)
          else if !DomainAllowed(email.value, allowed) then Step(Fail(403, UnauthorizedMessage(email.value, allowed)), map[], sent)
          else
            var signedIn := session[UserKey := SignedInUser(claims.entries, email.value)] - {StateKey};
            Step(Redirect(Or(Get(signedIn, NextKey), Str(indexUrl))), signedIn - {NextKey}, sent)
  }

  method Callback(s: Session, settings: Option<AuthSettings>,
                  state: Option<string>, code: Option<string>, error: Option<string>, desc: Option<string>,
                  exchange: string -> Value, indexUrl: string)
    returns (reply: AuthReply, exchanged: Option<string>)
    modifies s
    ensures Step(reply, s.data, exchanged) == CallbackStep(old(s.data), settings, state, code, error, desc, exchange, indexUrl)
  {
    var expected := Get(s.data, StateKey);
    if !Truthy(expected) || state.None? || expected != Str(state.value) {
      s.Clear();
      return Fail(400, InvalidStateMessage), None;
    }
    if code.None? || code.value == [] {
      s.Clear();
      return Fail(400, CodeFailureMessage(error, desc)), None;
    }
    if settings.None? {
      return ServerFault, None;
    }
    var result := exchange(code.value);
    exchanged := Some(code.value);
    if !result.Dict? || "error" in result.entries {
      s.Clear();
      if !result.Dict? {
        return ServerFault, exchanged;
      }
      return TokenFailure(Get(result.entries, "error"), Get(result.entries, "error_description")), exchanged;
    }
    var claims := Or(Get(result.entries, "id_token_claims"), Dict(map[]));
    if !claims.Dict? {
      return ServerFault, exchanged;
    }
    var email := GetEmailFromClaims(Some(claims.entries));
    if email.None? {
      s.Clear();
      return Fail(400, NoEmailMessage), exchanged;
    }
    var allowed := settings.value.allowedEmailDomain;
    if !DomainAllowed(email.value, allowed) {
      s.Clear();
      return Fail(403, UnauthorizedMessage(email.value, allowed)), exchanged;
    }
    s.Set(UserKey, SignedInUser(claims.entries, email.value));
    var _ := s.Pop(StateKey);
    var next := s.Pop(NextKey);
    reply := Redirect(Or(next, Str(indexUrl)));
  }

  /** `/auth/logout`: read the settings, clear the session, and send the
      browser to the tenant's logout endpoint with the index page as the
      place to come back to. */
  function LogoutStep(session: map<string, Value>, settings: Option<AuthSettings>, indexUrl: string): (r: Step)
    ensures settings.None? ==> r == Step(ServerFault, session, None)
    ensures settings.Some? ==> r.session == map[] && r.exchanged == None &&
                               r.reply.SignOutAt? && StartsWith(r.reply.authority, AuthorityBase) &&
                               r.reply.authority[|AuthorityBase|..] == settings.value.tenantId &&
                               r.reply.postLogoutRedirect == indexUrl
  {
    if settings.None? then Step(ServerFault, session, None)
    else Step(SignOutAt(Authority(settings.value), indexUrl), map[], None)
  }

  method Logout(s: Session, settings: Option<AuthSettings>, indexUrl: string) returns (reply: AuthReply)
    modifies s
    ensures Step(reply, s.data, None) == LogoutStep(old(s.data), settings, indexUrl)
  {
    if settings.None? {
      return ServerFault;
    }
    s.Clear();
    reply := SignOutAt(Authority(settings.value), indexUrl);
  }

  /** The state check comes first: a missing or mismatched state is refused
      with 400, the session is cleared, and no code is exchanged. */
  lemma BadStateRefused(session: map<string, Value>, settings: Option<AuthSettings>,
                        state: Option<string>, code: Option<string>, error: Option<string>, desc: Option<string>,
                        exchange: string -> Value, indexUrl: string)
    requires !StatePasses(session, state)
    ensures CallbackStep(session, settings, state, code, error, desc, exchange, indexUrl) ==
            Step(Fail(400, InvalidStateMessage), map[], None)
  {
  }

  /** A code reaches the token endpoint only after the state check and the
      code check passed, and it is the code the callback received. */
  lemma ExchangeOnlyAfterChecks(session: map<string, Value>, settings: Option<AuthSettings>,
                                state: Option<string>, code: Option<string>, error: Option<string>, desc: Option<string>,
                                exchange: string -> Value, indexUrl: string)
    ensures var r := CallbackStep(session, settings, state, code, error, desc, exchange, indexUrl);
            r.exchanged.Some? <==> StatePasses(session, state) && code.Some? && code.value != [] && settings.Some?
    ensures var r := CallbackStep(session, settings, state, code, error, desc, exchange, indexUrl);
            r.exchanged.Some? ==> r.exchanged == code
  {
  }

  /** Every refusal (400 or 403, from the checks or the token endpoint)
      leaves an empty session. */
  lemma RefusalsClearSession(session: map<string, Value>, settings: Option<AuthSettings>,
                             state: Option<string>, code: Option<string>, error: Option<string>, desc: Option<string>,
                             exchange: string -> Value, indexUrl: string)
    ensures var r := CallbackStep(session, settings, state, code, error, desc, exchange, indexUrl);
            r.reply.Fail? || r.reply.TokenFailure? ==> r.session == map[]
  {
  }

  /** Only a successful callback signs a user in: any other outcome leaves
      the session as it was or empty. */
  lemma OnlySuccessSignsIn(session: map<string, Value>, settings: Option<AuthSettings>,
                           state: Option<string>, code: Option<string>, error: Option<string>, desc: Option<string>,
                           exchange: string -> Value, indexUrl: string)
    ensures var r := CallbackStep(session, settings, state, code, error, desc, exchange, indexUrl);
            !r.reply.Redirect? ==> r.session == session || r.session == map[]
  {
  }

  /** A successful callback stores the user, drops the state token and the
      post-login target, keeps everything else, and redirects to the stored
      target (the index page when there is none). */
  lemma SuccessSession(session: map<string, Value>, settings: Option<AuthSettings>,
                       state: Option<string>, code: Option<string>, error: Option<string>, desc: Option<string>,
                       exchange: string -> Value, indexUrl: string)
    ensures var r := CallbackStep(session, settings, state, code, error, desc, exchange, indexUrl);
            r.reply.Redirect? ==>
              && UserKey in r.session && StateKey !in r.session && NextKey !in r.session
              && r.session - {UserKey} == session - {UserKey, StateKey, NextKey}
              && r.reply.target == Or(Get(session, NextKey), Str(indexUrl))
  {
    var r := CallbackStep(session, settings, state, code, error, desc, exchange, indexUrl);
    if r.reply.Redirect? {
      var result := exchange(code.value);
      var claims := Or(Get(result.entries, "id_token_claims"), Dict(map[]));
      var email := GetEmailFromClaims(Some(claims.entries));
      SignInMap(session, SignedInUser(claims.entries, email.value));
    }
  }

  /** The map updates of a successful callback. */
  lemma SignInMap(session: map<string, Value>, user: Value)
    ensures var signedIn := session[UserKey := user] - {StateKey};
            && Get(signedIn, NextKey) == Get(session, NextKey)
            && UserKey in signedIn - {NextKey}
            && (signedIn - {NextKey}) - {UserKey} == session - {UserKey, StateKey, NextKey}
  {
  }

  /** A user the callback signs in passes `domain_required` on the next
      request (the settings unchanged). */
  lemma SignedInPassesGate(session: map<string, Value>, settings: Option<AuthSettings>,
                           state: Option<string>, code: Option<string>, error: Option<string>, desc: Option<string>,
                           exchange: string -> Value, indexUrl: string, requestUrl: string)
    ensures var r := CallbackStep(session, settings, state, code, error, desc, exchange, indexUrl);
            r.reply.Redirect? ==> DomainDecision(r.session, settings, requestUrl) == CallView
  {
    var r := CallbackStep(session, settings, state, code, error, desc, exchange, indexUrl);
    if r.reply.Redirect? {
      var result := exchange(code.value);
      var claims := Or(Get(result.entries, "id_token_claims"), Dict(map[]));
      var email := GetEmailFromClaims(Some(claims.entries));
      var user := SignedInUser(claims.entries, email.value);
      assert Get(r.session, UserKey) == user;
      assert "email" in user.entries;
      assert Or(user, Dict(map[])) == user;
      assert Get(user.entries, "claims") == claims;
      assert SessionEmail(r.session) == email;
    }
  }

  /** Login then callback: the state token login stored passes the CSRF
      check when Microsoft hands it back, and a successful callback returns
      the browser to the target login remembered. */
  lemma LoginThenCallback(session: map<string, Value>, settings: AuthSettings, token: string,
                          next: Option<string>, indexUrl: string,
                          code: Option<string>, error: Option<string>, desc: Option<string>, exchange: string -> Value)
    requires token != []
    ensures var afterLogin := LoginStep(session, Some(settings), token, next, indexUrl).session;
            && StatePasses(afterLogin, Some(token))
            && var r := CallbackStep(afterLogin, Some(settings), Some(token), code, error, desc, exchange, indexUrl);
               r.reply.Redirect? ==> r.reply.target == Str(PostLoginTarget(next, indexUrl))
  {
    var afterLogin := LoginStep(session, Some(settings), token, next, indexUrl).session;
    var target := PostLoginTarget(next, indexUrl);
    assert target != [] || indexUrl == [] by {
      if next.Some? && next.value != [] { assert target == next.value; }
    }
    var r := CallbackStep(afterLogin, Some(settings), Some(token), code, error, desc, exchange, indexUrl);
    SuccessSession(afterLogin, Some(settings), Some(token), code, error, desc, exchange, indexUrl);
    if r.reply.Redirect? && target == [] {
      assert Or(Str(target), Str(indexUrl)) == Str(indexUrl);
    }
  }

  /** After logout no gate admits the session: both send the user to log
      in. */
  lemma LogoutEndsSession(session: map<string, Value>, settings: AuthSettings, indexUrl: string, requestUrl: string)
    ensures var r := LogoutStep(session, Some(settings), indexUrl);
            && LoginRequired(r.session, requestUrl) == RedirectToLogin(requestUrl)
            && DomainDecision(r.session, Some(settings), requestUrl) == RedirectToLogin(requestUrl)
  {
    var r := LogoutStep(session, Some(settings), indexUrl);
    assert Or(Get(r.session, UserKey), Dict(map[])) == Dict(map[]);
  }
}
