# Authentication and route authorisation of the investor-relations app

This project models the authentication core of a Next.js investor-relations
application backed by a hosted identity provider. The model covers:

- the **route guard** (`middleware`). It classifies each request path by
  prefix as public, auth-only (`/login…`) or protected. A public path passes
  before the session is looked up. Otherwise a missing session sends the
  browser to `/login`, a present session on a login page sends it to `/`,
  and everything else passes. The guard hands the provider client a cookie
  adapter. The adapter writes the request's cookie jar and rebuilds the
  pass-through response on every write.
- the **three credential callbacks**. Each callback maps its inbound
  parameters, plus the outcome of one provider call, to one destination:
  - the one-time token-hash callback calls `verifyOtp`;
  - the authorization-code callback calls `exchangeCodeForSession`;
  - the client-side page for implicit-grant tokens in the URL fragment calls
    `setSession`.
- the **password-reset page**. On load it checks the session. On submit it
  checks that the passwords match, then that the password is long enough, and
  only then calls `updateUser`.
- the **authentication error page**, which maps its `type` to a message.
- the **session context component**. Its listener reacts to auth events, and
  its `useSupabase` hook guards against use outside the component.

Provider calls are not implemented. Each handler receives the outcome of its
one call as an input `CallOutcome`: `Succeeded`, `Failed(message)` or `Threw`.
The two server-side callbacks receive a `ServerCall` instead: either
`NoClient` (creating the client threw, so the call was never made) or
`Called(outcome)`. The reset page's session check receives a `SessionCheck`:
a session, none, or a rejected `getSession`. The middleware receives a
`SessionLookup`: whether a session came back, plus the cookie writes the
lookup made. Query strings and URL fragments are read with a model of the
WHATWG URL Standard's application/x-www-form-urlencoded parser (section 5.1).
`get` returns the value of the first pair with the name. `Serialize` is the
parser's partner, and `ParseSerialize` proves that parsing undoes
serializing. Redirect destinations are `Url.Target` values, classified after
the URL parser has stripped leading and trailing C0 controls and spaces and
removed tabs and newlines:
- `Local` is resolved against the request and stays on its origin;
- `NetworkPath` is a `//host/...` reference (a backslash counts as a slash);
- `Absolute` is a reference with its own scheme. Its scheme and host, not
  the request's, decide where the browser goes. How the URL parser
  normalises it (for example `http:foo` becoming `http://foo/`) is not
  modelled.

What the code does, recorded by lemmas where it is easy to overlook:
- the token-hash callback does not restrict `next` to the request's origin.
  `OtpCallback.OpenRedirectOnNext` and `OtpCallback.LeadingSpaceLeavesOrigin`
  record this;
- the code callback goes to `/reset-password` after every successful
  exchange, whatever `type` and `next` say;
- the fragment page needs both tokens to be non-empty, and it sends
  non-recovery sign-ins to `/dashboard`;
- no handler adds `?type=` to its own error-page redirect, so users sent
  there by a failure always see the generic message
  (`AuthCodeError.CallbackErrorsShowGenericMessage`).

The token-hash callback is `src/lib/supabase/server.ts`. That file and
`src/app/auth/callback/route.ts` both import `createClient` from
`@/lib/supabase/server`, a module that exports only `GET`. So as the code
stands, `NoClient` is the only outcome for every request that reaches the
client:
- the token-hash callback catches the exception and redirects to the error
  page without verifying anything (`OtpCallback.WithoutClientAlwaysErrorPage`);
- the code callback has no `try`, so the exception escapes and no code is
  exchanged (`CodeCallback.WithoutClientCodeIsUnhandled`).
The `Called` outcomes model the handlers as they would behave with a working
client.

## Model

| member | source | states |
|---|---|---|
| `FormUrlEncoded.Split` | src/app/auth/callback/page.tsx:16 | The pieces between separators: there is always at least one piece, and no piece contains the separator. |
| `FormUrlEncoded.JoinSplit` | src/app/auth/callback/page.tsx:16 | Joining the pieces of a split with the separator gives back the input, so splitting loses nothing. |
| `FormUrlEncoded.SplitJoin` | src/app/auth/callback/page.tsx:16 | Splitting a join of separator-free pieces gives back the pieces. |
| `FormUrlEncoded.SplitPair` | src/app/auth/callback/page.tsx:16 | A piece is divided at its first `=`: the name holds no `=`, the name, `=` and value concatenate back to the piece, and a piece without `=` is a name with an empty value. |
| `FormUrlEncoded.SplitPairAt` | src/app/auth/callback/page.tsx:16 | Any name without `=` followed by `=` and any value is split back into exactly that name and value. |
| `FormUrlEncoded.Decode` | src/app/auth/callback/page.tsx:16 | Each `+` becomes a space in place; the length is kept and every other character is unchanged. |
| `FormUrlEncoded.ParsePiecesAppend` | src/app/auth/callback/page.tsx:16 | Pieces are read independently and in order: the pairs of a concatenation of piece lists are the pairs of each list, one after the other. |
| `FormUrlEncoded.ParsePiecesSkipsEmpty` | src/app/auth/callback/page.tsx:16 | An empty piece, wherever it stands, yields no pair. |
| `FormUrlEncoded.ParsePiecesNonEmpty` | src/app/auth/callback/page.tsx:16 | A non-empty piece, wherever it stands, yields exactly one pair in its place: the decoded name and value of its split at the first `=`. |
| `FormUrlEncoded.ParseConcat` | src/lib/supabase/server.ts:8 | The pairs of a query `a&b` are the pairs of `a` followed by the pairs of `b`. |
| `FormUrlEncoded.FromStringDropsQuestionMark` | src/app/auth/callback/page.tsx:16 | `new URLSearchParams(init)` drops exactly one leading `?` and parses any other string as it is. |
| `FormUrlEncoded.Get` | src/lib/supabase/server.ts:9-11 | A value returned by `get(name)` belongs to a pair with that name, and null is returned only when no pair has the name. |
| `FormUrlEncoded.GetFirstOccurrence` | src/app/auth/callback/page.tsx:17-19 | `get(name)` is null exactly when no pair has the name; otherwise it returns the value of the first pair with that name. |
| `FormUrlEncoded.TruthyIsNonEmptyValue` | src/lib/supabase/server.ts:19 | A `get` result is truthy exactly when it is a value other than `''`: both null and the empty string are falsy. |
| `FormUrlEncoded.Encode` | src/app/auth/callback/page.tsx:16 | The serializer that is the round trip's partner, not a line of the application: each space becomes `+` in place, the length is kept, and every other character is unchanged. |
| `FormUrlEncoded.DecodeEncode` | src/app/auth/callback/page.tsx:16 | Decoding undoes encoding for text without `+`. |
| `FormUrlEncoded.ParsePiecesSerialized` | src/app/auth/callback/page.tsx:16 | Each serialized pair parses back to itself. |
| `FormUrlEncoded.ParseSerialize` | src/app/auth/callback/page.tsx:16 | Round trip: parsing the serialization of pairs whose names and values avoid the reserved characters gives the same pairs back. |
| `Url.Resolve` | src/lib/supabase/server.ts:41 | `new URL(next, request.url)` reads `next` with leading and trailing controls and spaces stripped and tabs and newlines removed. The result stays on the request's origin exactly when that cleaned reference has no scheme and does not start with two slashes. With a scheme, the reference's scheme and host decide the target. |
| `Url.PathStaysLocal` | src/lib/supabase/server.ts:38 | A path with a single leading `/` followed by a visible character resolves on the request's origin. |
| `Url.LeadingSpaceNetworkPath` | src/lib/supabase/server.ts:41 | A ` //host` reference is not kept on the origin: the leading space is stripped and the host is taken from the reference, when the URL parser accepts that host (an empty or invalid host makes `new URL` throw). |
| `Url.TabHidesNetworkPath` | src/lib/supabase/server.ts:41 | A tab between two slashes is removed, so `/<tab>/host` names another host too. |
| `Url.HttpsUrlIsAbsolute` | src/lib/supabase/server.ts:41 | Any `https://…` reference is absolute and keeps its `https://` prefix; without controls or spaces in it, it is the target exactly as written. |
| `Url.QueryOfFirstMark` | src/app/auth/auth-code-error/page.tsx:8 | The query a page sees is decided by whichever of `?` and `#` comes first in its URL: after a first `?` it is the text up to the next `#`, and after a first `#` it is empty. |
| `Middleware.SomeStartsWithExists` | src/middleware.ts:70-71 | `list.some(p => pathname.startsWith(p))` is true exactly when some entry of the list is a prefix of the path. |
| `Middleware.PublicPathPrefixes` | src/middleware.ts:7-12 | A path is public exactly when it starts with `/reset-password`, `/auth/callback`, `/forgot-password` or `/auth/auth-code-error`. |
| `Middleware.AuthPathPrefix` | src/middleware.ts:6 | A path is auth-only exactly when it starts with `/login`. |
| `Middleware.PrefixClassificationExamples` | src/middleware.ts:70-71 | Matching is by prefix: `/reset-password/extra` and `/auth/callbacks` are public, `/login-x` is auth-only, and `/dashboard` is neither. |
| `Middleware.Decide` | src/middleware.ts:73-92 | Public paths pass whatever the session. A request passes exactly when its path is public or session presence differs from auth-only-ness. Redirects to `/login` happen exactly for non-public, non-auth paths with no session. Redirects to `/` happen exactly for auth-only paths with a session. |
| `Middleware.NoRedirectLoop` | src/middleware.ts:82-92 | Whatever page the guard redirects to, the guard lets that page through with the same session state. |
| `Middleware.JarAfter` | src/middleware.ts:29-62 | After a series of writes, the request's jar holds exactly the names it held before plus every written name. |
| `Middleware.ResponseCookiesAfter` | src/middleware.ts:35-44 | Because each write rebuilds the pass-through response, after a series of writes that response carries only the cookie of the latest write, with its value. |
| `Middleware.JarAfterUnwritten` | src/middleware.ts:30-34 | Request cookies that no write touches keep their value, or stay absent. |
| `Middleware.JarAfterLastWrite` | src/middleware.ts:29-51 | In the request's jar, each written cookie holds the value of its last write: `set` writes the value and `remove` writes `''`. |
| `Middleware.CookieAdapter.constructor` | src/middleware.ts:15-19 | The adapter starts from the request's cookies and a pass-through response that sets no cookie. |
| `Middleware.CookieAdapter.Get` | src/middleware.ts:26-28 | `get` returns the request cookie's value, or undefined when the cookie is absent. |
| `Middleware.CookieAdapter.Set` | src/middleware.ts:29-45 | `set` updates the request's jar and replaces the response with a fresh one that sets only this cookie. |
| `Middleware.CookieAdapter.Remove` | src/middleware.ts:46-62 | `remove` writes `''` into the request's jar and into a fresh response that sets only that cookie. |
| `Middleware.CookieAdapter.ApplyWrites` | src/middleware.ts:78-80 | After the session lookup's writes, the request's jar has accumulated them all, and the response carries only the last one. |
| `Middleware.Run` | src/middleware.ts:14-93 | The session is looked up exactly for non-public paths. A public path gets a response with no cookies. A pass-through after the lookup carries the lookup's last cookie write. A redirect is a fresh response to `/login` or `/` on the request's origin and carries no cookies. The request's jar after the lookup holds all of the lookup's writes; only a pass-through forwards it. |
| `OtpCallback.NextParam` | src/lib/supabase/server.ts:11 | `next` falls back to `/` only when absent; a present `next`, even an empty one, is used as is. |
| `OtpCallback.HandleOtp` | src/lib/supabase/server.ts:4-56 | `verifyOtp` is called, with the query's token hash and type, exactly when both are non-empty and the client was created. Every request ends in one redirect, to the error page, the reset page or the resolved `next`. Anything but a successful verification, including a failure to create the client, goes to the error page. A verified recovery goes to the reset page, and any other verified type goes to `next`. |
| `OtpCallback.LinkQueryParams` | src/lib/supabase/server.ts:8-11 | The token hash, type and `next` of a callback link are read back from its query. |
| `OtpCallback.RecoveryIgnoresNext` | src/lib/supabase/server.ts:35-38 | A verified recovery link goes to `/reset-password`, whatever `next` is. |
| `OtpCallback.OpenRedirectOnNext` | src/lib/supabase/server.ts:40-41 | Current behaviour, not a guarantee: after a verified non-recovery token, an `https://` `next` becomes an absolute redirect target that names its own host. Without controls or spaces the model keeps it exactly as written; the URL parser then normalises it (`https://Evil.example` becomes `https://evil.example/`), and a `next` whose host it rejects (`https://`) makes `new URL` throw into the error page. |
| `OtpCallback.LeadingSpaceLeavesOrigin` | src/lib/supabase/server.ts:11-41 | Current behaviour, not a guarantee: a `next` written `+//host` decodes to ` //host` and, after a verified non-recovery token, sends the browser to another host, when the URL parser accepts that host (` //` alone throws into the error page). |
| `OtpCallback.WithoutClientAlwaysErrorPage` | src/lib/supabase/server.ts:19-54 | When the client cannot be created, every request, whatever its query, lands on the error page and no token is verified. |
| `OtpCallback.MissingNextGoesToRoot` | src/lib/supabase/server.ts:11 | Without `next`, a verified non-recovery token redirects to `/`. |
| `CodeCallback.HandleCode` | src/app/auth/callback/route.ts:5-30 | The exchange is called at most once, with the code, and exactly when the code is non-empty and the client was created. Every redirect stays on the request's origin. The target is `/reset-password` exactly after a successful exchange. The target is the error page exactly when the code is missing or the exchange returns an error. With a code, a failure to create the client or a thrown exchange escapes the handler. |
| `CodeCallback.WithoutClientCodeIsUnhandled` | src/app/auth/callback/route.ts:12-15 | When the client cannot be created, every request with a code ends in an exception and no code is exchanged. |
| `CodeCallback.OnlyCodeMatters` | src/app/auth/callback/route.ts:8-24 | Two requests with the same `code` are handled alike: `type` and `next` are ignored. |
| `CodeCallback.NoCodeNoExchange` | src/app/auth/callback/route.ts:27-29 | A query with only `type` and `next` causes no exchange and redirects to the error page. |
| `CodeCallback.RedirectsPassGuard` | src/app/auth/callback/route.ts:19-29 | Every redirect of the code callback lands on a public page, which the route guard passes whatever the session. |
| `FragmentCallback.HandleCallback` | src/app/auth/callback/page.tsx:13-54 | `setSession` is called, with the two fragment tokens, exactly when both are non-empty. An error is shown unless `setSession` was called and succeeded. The message is the invalid-token text, the provider's message or the generic text, and every error goes to `/login`. On success, type `recovery` goes to `/reset-password` and any other type goes to `/dashboard`. |
| `FragmentCallback.FragmentParamsDropsFirstCharacter` | src/app/auth/callback/page.tsx:16 | `hash.substring(1)` drops the first character, whatever it is, then one leading `?` is dropped too; an empty hash has no parameters. |
| `FragmentCallback.TokenFragmentParams` | src/app/auth/callback/page.tsx:16-19 | After the leading `#` is dropped, the access token, refresh token and type of an implicit-grant fragment are read back from it. |
| `FragmentCallback.RecoveryFragment` | src/app/auth/callback/page.tsx:23-40 | A recovery fragment with two non-empty tokens sets the session with them and goes to `/reset-password`. |
| `FragmentCallback.EmptyRefreshTokenRejected` | src/app/auth/callback/page.tsx:23-47 | An empty refresh token counts as missing, so there is no `setSession` call, the error is "Invalid authentication tokens", and the page goes to `/login`. |
| `ResetPassword.Validate` | src/app/reset-password/page.tsx:34-42 | A submission passes exactly when the passwords are equal and at least 6 long. A mismatch is reported exactly when the passwords differ. The length error is reported exactly for equal passwords shorter than 6. |
| `ResetPassword.MismatchReportedFirst` | src/app/reset-password/page.tsx:34-42 | Mismatched passwords that are also too short get the mismatch error, not the length error. |
| `ResetPassword.ResetPasswordPage.constructor` | src/app/reset-password/page.tsx:8-12 | The page starts loading, with no error, no success and no update made. |
| `ResetPassword.ResetPasswordPage.CheckSession` | src/app/reset-password/page.tsx:17-25 | Without a session, the page shows the no-session error and goes to `/login`. Loading ends whether or not a session came back. A rejected `getSession` changes nothing: the page keeps loading and shows no error. |
| `ResetPassword.ResetPasswordPage.HandleResetPassword` | src/app/reset-password/page.tsx:30-56 | `updateUser` is called with the password exactly when validation passes. A validation error is shown and nothing else changes. An update error is shown and success stays as it was. A successful update clears the error, sets success and goes to `/dashboard`. A rejected update leaves only the cleared error. |
| `AuthCodeError.ErrorType` | src/app/auth/auth-code-error/page.tsx:9 | A missing or empty `type` reads as `unknown`; any other value is kept. |
| `AuthCodeError.MessagesDistinct` | src/app/auth/auth-code-error/page.tsx:13-21 | The four messages are pairwise distinct. |
| `AuthCodeError.ErrorMessage` | src/app/auth/auth-code-error/page.tsx:11-22 | Each of `expired`, `invalid` and `used` gets its own message, exactly for that value. Every other value gets the generic message. |
| `AuthCodeError.PageMessage` | src/app/auth/auth-code-error/page.tsx:9-22 | The message shown for a query: the first `type` value `expired`, `invalid` or `used` selects its own message, exactly for that value, and every other query gets the generic message. |
| `AuthCodeError.MissingTypeIsGeneric` | src/app/auth/auth-code-error/page.tsx:9-20 | Every query whose `type` is missing or empty shows the generic message. |
| `AuthCodeError.BareErrorPageIsGeneric` | src/app/auth/auth-code-error/page.tsx:9-20 | The bare error page, with no query, shows the generic message. |
| `AuthCodeError.CallbackErrorsShowGenericMessage` | src/lib/supabase/server.ts:49-54 | Whenever the token-hash or the code callback redirects without a successful call (a missing parameter, a failed or rejected call, or, for the token-hash callback, no client), it redirects to the bare error page, which shows the generic message. |
| `SessionProvider.Navigations` | src/components/supabase-provider.tsx:32-39 | Each event causes at most one navigation. `SIGNED_IN` goes to `/` exactly when the path is neither `/reset-password` nor `/forgot-password`, compared by exact equality. `SIGNED_OUT` goes to `/login`, and other events do not navigate. |
| `SessionProvider.SupabaseProvider.constructor` | src/components/supabase-provider.tsx:23 | The stored session starts as the initial session. |
| `SessionProvider.SupabaseProvider.ContextValue` | src/components/supabase-provider.tsx:47 | The context gives consumers the stored session. |
| `SessionProvider.SupabaseProvider.OnAuthStateChange` | src/components/supabase-provider.tsx:31-41 | The listener makes the event's navigations. For every event, including those with no navigation, it then replaces the stored session with the new one. |
| `SessionProvider.UseSupabase` | src/components/supabase-provider.tsx:53-59 | The hook returns the context inside the component. Outside it (undefined context), it throws the "must be used within a SupabaseProvider" error. |
| `SessionProvider.ExactMatchUnlikeGuard` | src/components/supabase-provider.tsx:33 | The listener compares paths exactly, whereas the guard matches prefixes. So `/reset-password/confirm` is public to the guard, but a sign-in there still navigates to `/`. |

## Left out

- Provider calls (`getSession`, `verifyOtp`, `exchangeCodeForSession`, `setSession`, `updateUser`, `signOut`, `resetPasswordForEmail`) are inputs, not implementations. The session a call establishes is not tracked.
- Logging, the `setTimeout` delays before navigation, and React rendering are left out. A delayed `router.push` is modelled as the navigation the page schedules.
- The middleware's `config.matcher` regular expression is left out. The framework interprets it, and it decides which requests reach the guard at all.
- Cookie options (path, max-age and so on) are left out; cookies are name-value pairs. A `getSession` that throws inside the middleware is left out too. The lookup is modelled as returning a session or none.
- `FormUrlEncoded.Parse`: percent-decoding of names and values is not modelled; only the replacement of `+` by a space is. The properties about parsed values hold for text without `%`.
- `OtpCallback.HandleOtp`: because percent-decoding is not modelled, its classification of where `next` leads holds only for `next` values without `%`. In the source, `next=%2F%2Fevil.example` decodes to `//evil.example` and leaves the origin, while the model reads it as a local path.
- `Url.Resolve` does not model that a same-scheme reference without two slashes (`https:x` on an https request) is resolved relative to the request; the model calls it `Absolute`. The parser's normalisation of the target (percent-encoding, dot segments, host parsing) is not modelled either.
- `OtpCallback.HandleOtp` does not model one failure: `new URL(next, request.url)` can throw on a `next` the URL parser rejects, which also lands on the error page. The model treats every `next` as parseable.
- `ResetPassword.Validate`: JavaScript's `length` counts UTF-16 code units. The model counts the characters of the string.
- Page rendering is not modelled. That includes the reset page's choice between showing the error and showing the form.
- These files are not part of this model: src/app/page.tsx, src/app/blog, src/app/polls, src/app/api (data fetching and database queries), src/app/forgot-password/page.tsx (a call to `resetPasswordForEmail`) and src/app/layout.tsx (a session fetch and rendering).
