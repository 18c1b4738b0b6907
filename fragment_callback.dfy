/**
 * The client-side callback page (`handleCallback` in
 * src/app/auth/callback/page.tsx) for tokens delivered in the URL fragment.
 * It reads `access_token`, `refresh_token` and `type` from the fragment,
 * sets the session only when both tokens are non-empty, and then records
 * exactly one error message or none, and exactly one navigation.
 */
module FragmentCallback {
  import opened Wrappers
  import opened FormUrlEncoded
  import opened Provider
  import Routes

  const InvalidTokensMessage: string := "Invalid authentication tokens"
  const ExceptionMessage: string := "An error occurred during authentication"

  /** The `setSession` call made (access token, refresh token), the error shown, and where the router goes. */
  datatype Outcome = Outcome(setSessionCall: Option<(string, string)>, error: Option<string>, navigateTo: string)

  /** `new URLSearchParams(window.location.hash.substring(1))`: the first character (the `#`) is dropped. */
  function FragmentParams(hash: string): seq<Pair> {
    FromString(if |hash| >= 1 then hash[1..] else "")
  }

  /**
   * Whatever the first character is, it is dropped and the rest is read
   * as a query, itself without one leading `?`; an empty hash has no
   * parameters.
   */
  lemma FragmentParamsDropsFirstCharacter(first: char, body: string)
    ensures FragmentParams([first] + body) == FromString(body)
    ensures FragmentParams("#?" + body) == Parse(body)
    ensures FragmentParams("") == []
  {
    assert ([first] + body)[1..] == body;
    assert ("#?" + body)[1..] == "?" + body;
    FromStringDropsQuestionMark(body);
    assert Split("", '&') == [[]];
  }

  /** The handler, given `window.location.hash` and what `setSession` returned. */
  function HandleCallback(hash: string, setSession: CallOutcome): (r: Outcome)
    ensures r.setSessionCall.Some? <==>
      Truthy(Get(FragmentParams(hash), "access_token")) && Truthy(Get(FragmentParams(hash), "refresh_token"))
    ensures r.setSessionCall.Some? ==>
      r.setSessionCall.value == (Get(FragmentParams(hash), "access_token").value, Get(FragmentParams(hash), "refresh_token").value)
    ensures r.error.None? <==> r.setSessionCall.Some? && setSession.Succeeded?
    ensures r.error.Some? ==> r.navigateTo == Routes.Login
    ensures r.error.None? ==>
      r.navigateTo == if Get(FragmentParams(hash), "type") == Some("recovery") then Routes.ResetPassword else Routes.Dashboard
    ensures r.setSessionCall.None? ==> r.error == Some(InvalidTokensMessage)
    ensures r.setSessionCall.Some? && setSession.Failed? ==> r.error == Some(setSession.message)
    ensures r.setSessionCall.Some? && setSession.Threw? ==> r.error == Some(ExceptionMessage)
  {
    var params := FragmentParams(hash);
    var accessToken := Get(params, "access_token");
    var refreshToken := Get(params, "refresh_token");
    var tokenType := Get(params, "type");
    if Truthy(accessToken) && Truthy(refreshToken) then
      var call := Some((accessToken.value, refreshToken.value));
      match setSession
      case Failed(message) => Outcome(call, Some(message), Routes.Login)
      case Threw => Outcome(call, Some(ExceptionMessage), Routes.Login)
      case Succeeded =>
        if tokenType == Some("recovery") then Outcome(call, None, Routes.ResetPassword)
        else Outcome(call, None, Routes.Dashboard)
    else Outcome(None, Some(InvalidTokensMessage), Routes.Login)
  }

  /** The fragment of an implicit-grant redirect. */
  function TokenFragment(accessToken: string, refreshToken: string, tokenType: string): string {
    "#" + Serialize([("access_token", accessToken), ("refresh_token", refreshToken), ("type", tokenType)])
  }

  /** The three values of an implicit-grant fragment are read back from it. */
  lemma {:induction false} TokenFragmentParams(accessToken: string, refreshToken: string, tokenType: string)
    requires Serializable([("access_token", accessToken), ("refresh_token", refreshToken), ("type", tokenType)])
    ensures Get(FragmentParams(TokenFragment(accessToken, refreshToken, tokenType)), "access_token") == Some(accessToken)
    ensures Get(FragmentParams(TokenFragment(accessToken, refreshToken, tokenType)), "refresh_token") == Some(refreshToken)
    ensures Get(FragmentParams(TokenFragment(accessToken, refreshToken, tokenType)), "type") == Some(tokenType)
  {
    var pairs := [("access_token", accessToken), ("refresh_token", refreshToken), ("type", tokenType)];
    var body := Serialize(pairs);
    assert TokenFragment(accessToken, refreshToken, tokenType)[1..] == body;
    ParseSerialize(pairs);
    assert body != [] && body[0] == 'a' by {
      var pieces := PairPieces(pairs);
      assert body == Join(pieces, '&') == pieces[0] + ['&'] + Join(pieces[1..], '&');
      assert pieces[0] == Encode("access_token") + "=" + Encode(accessToken);
      assert Encode("access_token")[0] == 'a';
    }
    assert FragmentParams(TokenFragment(accessToken, refreshToken, tokenType)) == pairs;
    assert "access_token" != "refresh_token" by { assert "access_token"[0] != "refresh_token"[0]; }
    assert "access_token" != "type" && "refresh_token" != "type";
    assert pairs[1..] == [("refresh_token", refreshToken), ("type", tokenType)];
    assert pairs[1..][1..] == [("type", tokenType)];
    assert Get(pairs, "access_token") == Some(accessToken);
    assert Get(pairs, "refresh_token") == Get(pairs[1..], "refresh_token") == Some(refreshToken);
    assert Get(pairs, "type") == Get(pairs[1..], "type") == Get(pairs[1..][1..], "type") == Some(tokenType);
  }

  /** A recovery fragment with two non-empty tokens sets the session and goes to the reset page. */
  lemma RecoveryFragment(accessToken: string, refreshToken: string)
    requires accessToken != "" && refreshToken != ""
    requires Serializable([("access_token", accessToken), ("refresh_token", refreshToken), ("type", "recovery")])
    ensures HandleCallback(TokenFragment(accessToken, refreshToken, "recovery"), Succeeded) ==
      Outcome(Some((accessToken, refreshToken)), None, Routes.ResetPassword)
  {
    TokenFragmentParams(accessToken, refreshToken, "recovery");
  }

  /** An empty refresh token counts as missing: no session is set, whatever `setSession` would have answered. */
  lemma EmptyRefreshTokenRejected(accessToken: string, tokenType: string, setSession: CallOutcome)
    requires Serializable([("access_token", accessToken), ("refresh_token", ""), ("type", tokenType)])
    ensures HandleCallback(TokenFragment(accessToken, "", tokenType), setSession) ==
      Outcome(None, Some(InvalidTokensMessage), Routes.Login)
  {
    TokenFragmentParams(accessToken, "", tokenType);
  }
}
