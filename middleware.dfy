/**
 * The route guard that runs ahead of every matched request
 * (src/middleware.ts). A path is classified by prefix against two fixed
 * lists; a public path passes before the session is looked up; otherwise
 * the session decides between passing, a redirect to `/login` and a
 * redirect to `/`. The session lookup may write cookies through an adapter
 * that updates the request's cookie jar and rebuilds the pass-through
 * response on every write.
 */
module Middleware {
  import opened Wrappers
  import opened Url
  import Routes

  const AuthPaths: seq<string> := ["/login"]
  const PublicPaths: seq<string> := ["/reset-password", "/auth/callback", "/forgot-password", "/auth/auth-code-error"]

  /** JavaScript's `s.startsWith(prefix)`. */
  predicate StartsWith(s: string, prefix: string) {
    |prefix| <= |s| && s[..|prefix|] == prefix
  }

  /** `prefixes.some(p => s.startsWith(p))`, scanning the list from the front. */
  predicate SomeStartsWith(prefixes: seq<string>, s: string)
    decreases |prefixes|
  {
    |prefixes| > 0 && (StartsWith(s, prefixes[0]) || SomeStartsWith(prefixes[1..], s))
  }

  /** The scan is true exactly when one of the prefixes begins `s`. */
  lemma {:induction false} SomeStartsWithExists(prefixes: seq<string>, s: string)
    ensures SomeStartsWith(prefixes, s) <==> exists i :: 0 <= i < |prefixes| && StartsWith(s, prefixes[i])
    decreases |prefixes|
  {
    if |prefixes| > 0 {
      SomeStartsWithExists(prefixes[1..], s);
      if SomeStartsWith(prefixes[1..], s) {
        var i :| 0 <= i < |prefixes[1..]| && StartsWith(s, prefixes[1..][i]);
        assert StartsWith(s, prefixes[i + 1]);
      }
      if exists i :: 0 <= i < |prefixes| && StartsWith(s, prefixes[i]) {
        var i :| 0 <= i < |prefixes| && StartsWith(s, prefixes[i]);
        if i > 0 {
          assert StartsWith(s, prefixes[1..][i - 1]);
        }
      }
    }
  }

  predicate IsPublicPath(pathname: string) {
    SomeStartsWith(PublicPaths, pathname)
  }

  predicate IsAuthPath(pathname: string) {
    SomeStartsWith(AuthPaths, pathname)
  }

  /** The public paths are exactly those that begin with one of the four public prefixes. */
  lemma PublicPathPrefixes(pathname: string)
    ensures IsPublicPath(pathname) <==>
      StartsWith(pathname, "/reset-password") || StartsWith(pathname, "/auth/callback") ||
      StartsWith(pathname, "/forgot-password") || StartsWith(pathname, "/auth/auth-code-error")
  {
  }

  /** The auth-only paths are exactly those that begin with `/login`, so `/login-x` is one too. */
  lemma AuthPathPrefix(pathname: string)
    ensures IsAuthPath(pathname) <==> StartsWith(pathname, "/login")
  {
  }

  /** What the guard does with a request. */
  datatype Decision = Continue | RedirectTo(path: string)

  /**
   * The decision chain of `middleware`: public paths pass, then a missing
   * session sends everything but the login pages to `/login`, then a
   * present session sends the login pages to `/`, and the rest passes.
   */
  function Decide(pathname: string, hasSession: bool): (d: Decision)
    ensures IsPublicPath(pathname) ==> d == Continue
    ensures d == Continue <==> IsPublicPath(pathname) || hasSession != IsAuthPath(pathname)
    ensures d == RedirectTo(Routes.Login) <==> !IsPublicPath(pathname) && !hasSession && !IsAuthPath(pathname)
    ensures d == RedirectTo(Routes.Root) <==> !IsPublicPath(pathname) && hasSession && IsAuthPath(pathname)
    ensures d.RedirectTo? ==> d.path == Routes.Login || d.path == Routes.Root
  {
    if IsPublicPath(pathname) then Continue
    else if !hasSession && !IsAuthPath(pathname) then RedirectTo(Routes.Login)
    else if hasSession && IsAuthPath(pathname) then RedirectTo(Routes.Root)
    else Continue
  }

  /**
   * No redirect loop: the page the guard redirects to is one it lets
   * through with the same session state.
   */
  lemma NoRedirectLoop(pathname: string, hasSession: bool)
    ensures Decide(pathname, hasSession).RedirectTo? ==>
      Decide(Decide(pathname, hasSession).path, hasSession) == Continue
  {
  }

  /** Matching is by prefix: sub-paths of a public page are public, look-alikes of `/login` are auth-only, and `/dashboard` is protected. */
  lemma PrefixClassificationExamples()
    ensures IsPublicPath("/reset-password/extra") && IsPublicPath("/auth/callbacks")
    ensures IsAuthPath("/login-x")
    ensures !IsPublicPath("/dashboard") && !IsAuthPath("/dashboard")
  {
    PublicPathPrefixes("/reset-password/extra");
    PublicPathPrefixes("/auth/callbacks");
    PublicPathPrefixes("/dashboard");
    AuthPathPrefix("/login-x");
    AuthPathPrefix("/dashboard");
    assert "/reset-password/extra"[..15] == "/reset-password";
    assert "/auth/callbacks"[..14] == "/auth/callback";
    assert "/login-x"[..6] == "/login";
    assert "/dashboard"[..6][1] != "/login"[1];
  }

  /** One write the session lookup makes through the cookie adapter. */
  datatype CookieWrite = SetCookie(name: string, value: string) | RemoveCookie(name: string) {
    /** The value written: `remove` writes the empty string. */
    function Value(): string {
      match this
      case SetCookie(_, v) => v
      case RemoveCookie(_) => ""
    }
  }

  /** The response of the middleware, with the cookies it sets on the browser. */
  datatype Response = Next(setCookies: map<string, string>) | Redirect(location: Target, setCookies: map<string, string>)

  /** The request's cookie jar after a sequence of writes: each write overrides earlier ones. */
  function JarAfter(jar: map<string, string>, writes: seq<CookieWrite>): (r: map<string, string>)
    ensures r.Keys == jar.Keys + set k | 0 <= k < |writes| :: writes[k].name
    decreases |writes|
  {
    if writes == [] then jar
    else
      var n := |writes| - 1;
      var last := writes[n];
      assert (set k | 0 <= k < |writes| :: writes[k].name) ==
        (set k | 0 <= k < n :: writes[..n][k].name) + {last.name} by {
        forall k | 0 <= k < n ensures writes[..n][k] == writes[k] { }
      }
      JarAfter(jar, writes[..n])[last.name := last.Value()]
  }

  /** The cookies on the pass-through response after a sequence of writes: only the latest write survives the rebuilding. */
  function ResponseCookiesAfter(writes: seq<CookieWrite>): (cookies: map<string, string>)
    ensures writes == [] ==> cookies == map[]
    ensures writes != [] ==> cookies.Keys == {writes[|writes| - 1].name}
    ensures writes != [] ==> cookies[writes[|writes| - 1].name] == writes[|writes| - 1].Value()
  {
    if writes == [] then map[]
    else map[writes[|writes| - 1].name := writes[|writes| - 1].Value()]
  }

  /** Request cookies accumulate: a name no write touches keeps its old value, or stays absent. */
  lemma {:induction false} JarAfterUnwritten(jar: map<string, string>, writes: seq<CookieWrite>, name: string)
    requires forall k :: 0 <= k < |writes| ==> writes[k].name != name
    ensures name in JarAfter(jar, writes) <==> name in jar
    ensures name in jar ==> JarAfter(jar, writes)[name] == jar[name]
    decreases |writes|
  {
    if writes != [] {
      var n := |writes| - 1;
      assert JarAfter(jar, writes) == JarAfter(jar, writes[..n])[writes[n].name := writes[n].Value()];
      assert writes[n].name != name;
      assert forall k :: 0 <= k < n ==> writes[..n][k] == writes[k];
      JarAfterUnwritten(jar, writes[..n], name);
    }
  }

  /** Request cookies accumulate: a written name holds the value of its last write. */
  lemma {:induction false} JarAfterLastWrite(jar: map<string, string>, writes: seq<CookieWrite>, k: nat)
    requires k < |writes|
    requires forall l :: k < l < |writes| ==> writes[l].name != writes[k].name
    ensures writes[k].name in JarAfter(jar, writes)
    ensures JarAfter(jar, writes)[writes[k].name] == writes[k].Value()
    decreases |writes|
  {
    var n := |writes| - 1;
    assert JarAfter(jar, writes) == JarAfter(jar, writes[..n])[writes[n].name := writes[n].Value()];
    if k < n {
      assert writes[..n][k] == writes[k];
      assert forall l :: k < l < n ==> writes[..n][l] == writes[l];
      JarAfterLastWrite(jar, writes[..n], k);
      assert writes[n].name != writes[k].name;
    }
  }

  /**
   * The cookie adapter handed to the server client. `get` reads the
   * request's jar; `set` and `remove` write the request's jar and replace
   * the pass-through response by a fresh one that carries just that write.
   */
  class CookieAdapter {
    var requestCookies: map<string, string>
    var response: Response

    constructor (cookies: map<string, string>)
      ensures requestCookies == cookies && response == Next(map[])
    {
      requestCookies := cookies;
      response := Next(map[]);
    }

    method Get(name: string) returns (value: Option<string>)
      ensures value.Some? <==> name in requestCookies
      ensures value.Some? ==> value.value == requestCookies[name]
    {
      value := if name in requestCookies then Some(requestCookies[name]) else None;
    }

    method Set(name: string, value: string)
      modifies this
      ensures requestCookies == old(requestCookies)[name := value]
      ensures response == Next(map[name := value])
    {
      requestCookies := requestCookies[name := value];
      response := Next(map[]);
      response := Next(response.setCookies[name := value]);
    }

    method Remove(name: string)
      modifies this
      ensures requestCookies == old(requestCookies)[name := ""]
      ensures response == Next(map[name := ""])
    {
      requestCookies := requestCookies[name := ""];
      response := Next(map[]);
      response := Next(response.setCookies[name := ""]);
    }

    /** The writes the session lookup makes, one adapter call each, in order. */
    method ApplyWrites(writes: seq<CookieWrite>)
      modifies this
      ensures requestCookies == JarAfter(old(requestCookies), writes)
      ensures writes == [] ==> response == old(response)
      ensures writes != [] ==> response == Next(ResponseCookiesAfter(writes))
    {
      var i := 0;
      while i < |writes|
        invariant 0 <= i <= |writes|
        invariant requestCookies == JarAfter(old(requestCookies), writes[..i])
        invariant i == 0 ==> response == old(response)
        invariant i > 0 ==> response == Next(ResponseCookiesAfter(writes[..i]))
      {
        assert writes[..i + 1][..i] == writes[..i];
        match writes[i] {
          case SetCookie(name, value) => Set(name, value);
          case RemoveCookie(name) => Remove(name);
        }
        i := i + 1;
      }
      assert writes[..i] == writes;
    }
  }

  /** The result of the session lookup: whether a session came back, and the cookie writes made while getting it. */
  datatype SessionLookup = SessionLookup(hasSession: bool, writes: seq<CookieWrite>)

  /**
   * `middleware(request)`. The session is looked up only for non-public
   * paths; a pass-through returns the adapter's response, and a redirect is
   * a new response that carries none of the adapter's cookies.
   * `requestCookies` is the request's cookie jar once the lookup is done:
   * the request a pass-through forwards carries it, a redirect forwards
   * nothing.
   */
  method Run(pathname: string, cookies: map<string, string>, lookup: SessionLookup)
    returns (response: Response, lookedUp: bool, requestCookies: map<string, string>)
    ensures lookedUp <==> !IsPublicPath(pathname)
    ensures IsPublicPath(pathname) ==> response == Next(map[]) && requestCookies == cookies
    ensures lookedUp ==> requestCookies == JarAfter(cookies, lookup.writes)
    ensures lookedUp && Decide(pathname, lookup.hasSession) == Continue ==>
      response == Next(ResponseCookiesAfter(lookup.writes))
    ensures Decide(pathname, lookup.hasSession).RedirectTo? ==>
      response == Redirect(Local(Decide(pathname, lookup.hasSession).path), map[])
  {
    var adapter := new CookieAdapter(cookies);
    var isPublicPath := SomeStartsWith(PublicPaths, pathname);
    var isAuthPath := SomeStartsWith(AuthPaths, pathname);
    if isPublicPath {
      return adapter.response, false, adapter.requestCookies;
    }
    adapter.ApplyWrites(lookup.writes);
    lookedUp, requestCookies := true, adapter.requestCookies;
    if !lookup.hasSession && !isAuthPath {
      return Redirect(Local(Routes.Login), map[]), lookedUp, requestCookies;
    }
    if lookup.hasSession && isAuthPath {
      return Redirect(Local(Routes.Root), map[]), lookedUp, requestCookies;
    }
    response := adapter.response;
  }
}
