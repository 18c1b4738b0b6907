/**
 * The one-time-token callback (`GET` in src/lib/supabase/server.ts). It
 * reads `token_hash`, `type` and `next` from the query, verifies the token
 * hash when both of the first two are present, and always ends in exactly
 * one redirect: the reset page after a verified recovery token, `next`
 * after any other verified token, and the error page otherwise, including
 * when anything in the handler throws.
 */
module OtpCallback {
  import opened Wrappers
  import opened FormUrlEncoded
  import opened Url
  import opened Provider
  import Routes

  /** The arguments `verifyOtp` is called with. */
  datatype OtpParams = OtpParams(tokenHash: string, otpType: string)

  /** The `verifyOtp` call made, if any, and where the browser is sent. */
  datatype Outcome = Outcome(verifyOtpCall: Option<OtpParams>, redirect: Target)

  /** `searchParams.get('next') ?? '/'`: only an absent `next` falls back to the root. */
  function NextParam(query: string): (next: string)
    ensures Get(Parse(query), "next").None? ==> next == Routes.Root
    ensures Get(Parse(query), "next").Some? ==> next == Get(Parse(query), "next").value
  {
    Get(Parse(query), "next").GetOr(Routes.Root)
  }

  /**
   * The handler, given the request's query and what creating the client and
   * then the verification returned. A client that cannot be created throws
   * before `verifyOtp` is reached; the `catch` turns that into the error
   * page like every other exception.
   */
  function HandleOtp(query: string, verify: ServerCall): (r: Outcome)
    ensures r.verifyOtpCall.Some? <==>
      Truthy(Get(Parse(query), "token_hash")) && Truthy(Get(Parse(query), "type")) && verify.Called?
    ensures r.verifyOtpCall.Some? ==>
      r.verifyOtpCall.value == OtpParams(Get(Parse(query), "token_hash").value, Get(Parse(query), "type").value)
    ensures r.redirect == Local(Routes.AuthCodeError) || r.redirect == Local(Routes.ResetPassword) ||
            r.redirect == Resolve(NextParam(query))
    ensures !(r.verifyOtpCall.Some? && verify == Called(Succeeded)) ==> r.redirect == Local(Routes.AuthCodeError)
    ensures r.verifyOtpCall.Some? && verify == Called(Succeeded) && r.verifyOtpCall.value.otpType == "recovery" ==>
      r.redirect == Local(Routes.ResetPassword)
    ensures r.verifyOtpCall.Some? && verify == Called(Succeeded) && r.verifyOtpCall.value.otpType != "recovery" ==>
      r.redirect == Resolve(NextParam(query))
  {
    var params := Parse(query);
    var tokenHash := Get(params, "token_hash");
    var otpType := Get(params, "type");
    var next := NextParam(query);
    if Truthy(tokenHash) && Truthy(otpType) then
      match verify
      case NoClient => Outcome(None, Local(Routes.AuthCodeError))
      case Called(outcome) =>
        var call := Some(OtpParams(tokenHash.value, otpType.value));
        match outcome
        case Succeeded =>
          if otpType.value == "recovery" then Outcome(call, Local(Routes.ResetPassword))
          else Outcome(call, Resolve(next))
        case Failed(_) => Outcome(call, Local(Routes.AuthCodeError))
        case Threw => Outcome(call, Local(Routes.AuthCodeError))
    else Outcome(None, Local(Routes.AuthCodeError))
  }

  /** The query of a callback link: a token hash, a type and a `next` destination. */
  function LinkQuery(tokenHash: string, otpType: string, next: string): string {
    Serialize([("token_hash", tokenHash), ("type", otpType), ("next", next)])
  }

  /** The three values of a callback link are read back from its query. */
  lemma {:induction false} LinkQueryParams(tokenHash: string, otpType: string, next: string)
    requires Serializable([("token_hash", tokenHash), ("type", otpType), ("next", next)])
    ensures Get(Parse(LinkQuery(tokenHash, otpType, next)), "token_hash") == Some(tokenHash)
    ensures Get(Parse(LinkQuery(tokenHash, otpType, next)), "type") == Some(otpType)
    ensures NextParam(LinkQuery(tokenHash, otpType, next)) == next
  {
    var pairs := [("token_hash", tokenHash), ("type", otpType), ("next", next)];
    ParseSerialize(pairs);
    assert Parse(LinkQuery(tokenHash, otpType, next)) == pairs;
    assert |"token_hash"| != |"type"| && |"token_hash"| != |"next"| && |"type"| != |"next"[..3]|;
    assert "type" != "next" by { assert "type"[0] != "next"[0]; }
    assert pairs[1..] == [("type", otpType), ("next", next)];
    assert pairs[1..][1..] == [("next", next)];
    assert Get(pairs, "token_hash") == Some(tokenHash);
    assert Get(pairs, "type") == Get(pairs[1..], "type") == Some(otpType);
    assert Get(pairs, "next") == Get(pairs[1..], "next") == Get(pairs[1..][1..], "next") == Some(next);
  }

  /** A verified recovery link goes to the reset page, whatever `next` says. */
  lemma RecoveryIgnoresNext(tokenHash: string, next: string)
    requires tokenHash != ""
    requires Serializable([("token_hash", tokenHash), ("type", "recovery"), ("next", next)])
    ensures HandleOtp(LinkQuery(tokenHash, "recovery", next), Called(Succeeded)) ==
      Outcome(Some(OtpParams(tokenHash, "recovery")), Local(Routes.ResetPassword))
  {
    LinkQueryParams(tokenHash, "recovery", next);
  }

  /**
   * Current behaviour, not a safety guarantee: `next` is not checked for
   * its origin, so after any verified non-recovery token an absolute
   * `https://` destination becomes the redirect target, with its own host.
   */
  lemma OpenRedirectOnNext(tokenHash: string, otpType: string, rest: string)
    requires tokenHash != "" && otpType != "" && otpType != "recovery"
    requires Serializable([("token_hash", tokenHash), ("type", otpType), ("next", "https://" + rest)])
    ensures HandleOtp(LinkQuery(tokenHash, otpType, "https://" + rest), Called(Succeeded)).redirect ==
      Resolve("https://" + rest)
    ensures HandleOtp(LinkQuery(tokenHash, otpType, "https://" + rest), Called(Succeeded)).redirect.Absolute?
    ensures (forall i :: 0 <= i < |rest| ==> !IsControlOrSpace(rest[i])) ==>
      HandleOtp(LinkQuery(tokenHash, otpType, "https://" + rest), Called(Succeeded)).redirect == Absolute("https://" + rest)
  {
    LinkQueryParams(tokenHash, otpType, "https://" + rest);
    HttpsUrlIsAbsolute(rest);
  }

  /**
   * Current behaviour, not a safety guarantee: a `next` written `+//host`
   * in the link decodes to ` //host`; the URL parser strips the leading
   * space, so the redirect names another host.
   */
  lemma LeadingSpaceLeavesOrigin(tokenHash: string, otpType: string, host: string)
    requires tokenHash != "" && otpType != "" && otpType != "recovery"
    requires Serializable([("token_hash", tokenHash), ("type", otpType), ("next", " //" + host)])
    ensures HandleOtp(LinkQuery(tokenHash, otpType, " //" + host), Called(Succeeded)).redirect.NetworkPath?
  {
    LinkQueryParams(tokenHash, otpType, " //" + host);
    LeadingSpaceNetworkPath(host);
  }

  /**
   * As the project stands, `createClient` is not among the exports of the
   * module this handler imports it from, so creating the client always
   * throws: every request, whatever its query, lands on the error page and
   * no token is verified.
   */
  lemma WithoutClientAlwaysErrorPage(query: string)
    ensures HandleOtp(query, NoClient) == Outcome(None, Local(Routes.AuthCodeError))
  {
  }

  /** Without a `next` parameter a verified non-recovery token goes to the root. */
  lemma {:induction false} MissingNextGoesToRoot(tokenHash: string, otpType: string)
    requires tokenHash != "" && otpType != "" && otpType != "recovery"
    requires Serializable([("token_hash", tokenHash), ("type", otpType)])
    ensures HandleOtp(Serialize([("token_hash", tokenHash), ("type", otpType)]), Called(Succeeded)) ==
      Outcome(Some(OtpParams(tokenHash, otpType)), Local(Routes.Root))
  {
    var pairs := [("token_hash", tokenHash), ("type", otpType)];
    ParseSerialize(pairs);
    assert Parse(Serialize(pairs)) == pairs;
    assert "type" != "next" by { assert "type"[0] != "next"[0]; }
    assert "token_hash" != "next" && "token_hash" != "type";
    assert pairs[1..] == [("type", otpType)];
    assert Get(pairs, "token_hash") == Some(tokenHash);
    assert Get(pairs, "type") == Get(pairs[1..], "type") == Some(otpType);
    assert Get(pairs, "next") == Get(pairs[1..], "next") == Get(pairs[1..][1..], "next") == None;
  }
}
