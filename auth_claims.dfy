/** PREVIOUSPROJECTATTEMPT/auth/msal_auth.py: the e-mail identifier taken
    from ID-token claims. Building the MSAL client and drawing state tokens
    are outside the model; the state token is an input where it is used. */
module AuthClaims {
  import opened Wrappers
  import opened Text
  import opened PyValues

  /** The claim keys, in the order they are tried. */
  const EmailClaimKeys := ["preferred_username", "email", "upn"]

  /** A claim qualifies when it is a string that is not blank. */
  predicate Qualifies(claims: map<string, Value>, key: string) {
    key in claims && claims[key].Str? && Strip(claims[key].s, Whitespace) != []
  }

  /** The stripped value of the first qualifying key. */
  function FirstEmail(claims: map<string, Value>, keys: seq<string>): (r: Option<string>)
    ensures r.Some? ==> r.value != [] && r.value[0] !in Whitespace && r.value[|r.value| - 1] !in Whitespace
    decreases |keys|
  {
    if keys == [] then None
    else if Qualifies(claims, keys[0]) then Some(Strip(claims[keys[0]].s, Whitespace))
    else FirstEmail(claims, keys[1..])
  }

  /** `get_email_from_claims(claims)`: None for missing or empty claims,
      otherwise the first qualifying claim among preferred_username, email
      and upn, stripped. */
  function GetEmailFromClaims(claims: Option<map<string, Value>>): (r: Option<string>)
    ensures claims.None? || claims.value == map[] ==> r == None
    ensures r.Some? ==> r.value != [] && r.value[0] !in Whitespace && r.value[|r.value| - 1] !in Whitespace
  {
    if claims.None? || claims.value == map[] then None
    else FirstEmail(claims.value, EmailClaimKeys)
  }

  /** First match wins: the result is the stripped value of a qualifying
      key, and no key before it qualifies; there is no result exactly when
      no key qualifies. */
  lemma {:induction false} FirstEmailIsFirstMatch(claims: map<string, Value>, keys: seq<string>)
    ensures FirstEmail(claims, keys).None? <==> forall j :: 0 <= j < |keys| ==> !Qualifies(claims, keys[j])
    ensures FirstEmail(claims, keys).Some? ==>
              exists i :: 0 <= i < |keys| && Qualifies(claims, keys[i]) &&
                          FirstEmail(claims, keys).value == Strip(claims[keys[i]].s, Whitespace) &&
                          forall j :: 0 <= j < i ==> !Qualifies(claims, keys[j])
    decreases |keys|
  {
    if keys != [] && !Qualifies(claims, keys[0]) {
      FirstEmailIsFirstMatch(claims, keys[1..]);
      assert forall j :: 0 < j < |keys| ==> keys[j] == keys[1..][j - 1];
      if FirstEmail(claims, keys).Some? {
        var i :| 0 <= i < |keys[1..]| && Qualifies(claims, keys[1..][i]) &&
                 FirstEmail(claims, keys).value == Strip(claims[keys[1..][i]].s, Whitespace) &&
                 forall j :: 0 <= j < i ==> !Qualifies(claims, keys[1..][j]);
        assert Qualifies(claims, keys[i + 1]);
      }
    } else if keys != [] {
      assert Qualifies(claims, keys[0]);
    }
  }

  /** preferred_username takes precedence: when it qualifies, the other
      claims are not looked at. */
  lemma PreferredUsernameWins(claims: map<string, Value>)
    requires Qualifies(claims, "preferred_username")
    ensures GetEmailFromClaims(Some(claims)) == Some(Strip(claims["preferred_username"].s, Whitespace))
  {
  }

  /** A blank preferred_username is passed over for the next key. */
  lemma BlankClaimSkipped()
    ensures GetEmailFromClaims(Some(map["preferred_username" := Str(" "), "email" := Str("a@b")])) == Some("a@b")
  {
    var claims := map["preferred_username" := Str(" "), "email" := Str("a@b")];
    assert !Qualifies(claims, "preferred_username") by {
      assert claims["preferred_username"] == Str(" ");
      assert Strip(" ", Whitespace) == [];
    }
    assert Qualifies(claims, "email") && Strip("a@b", Whitespace) == "a@b" by {
      assert claims["email"] == Str("a@b");
      StripKeeps("a@b", Whitespace);
    }
    assert FirstEmail(claims, EmailClaimKeys) == FirstEmail(claims, ["email", "upn"]) by {
      assert EmailClaimKeys[0] == "preferred_username";
      assert EmailClaimKeys[1..] == ["email", "upn"];
    }
  }
}
