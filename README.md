# Signed cookies with secret rotation — a verified model

This project models the rotation manager of the Go package `cookie`
(go-signed-cookies). A manager holds two signer instances of
gorilla/securecookie, a *current* one and a *previous* one, plus the
`SameSite` and `Path` attributes of every cookie it writes. New tokens are
always minted with the current secret. An incoming token is checked with the
current secret first; on any failure it is checked with the previous secret,
and that second outcome is final. Rotating a secret means building a new
manager whose previous secret is the old current one. Tokens already issued
then stay valid for one more rotation (`RotationKeepsTokensReadable`).
`TwoRotationsExpireTokens` states when they stop being accepted.

The manager is never changed after construction, so the model is pure: a
`Manager` datatype and total functions returning `Result` values.

Modules:

- `Base` (base.dfy): bytes, `Option`, and `Result`. `Result` mirrors Go's `(value, error)` returns.
- `Signing` (signing.dfy): the signer, kept abstract. `encode` and `decode` are function values taking
  (secret, cookie name, string) and returning a string or the library's error message.
  Three predicates state what the manager relies on:
  - `RoundTrips`: decode undoes encode under the same secret and name.
  - `HmacKeyed`: the signer sees a non-empty secret only through its HMAC key. HMAC pads a key shorter than its 64-byte block with zero bytes (section 2 of RFC 2104), so secrets that differ only in trailing zero bytes are one key (`SameKey`). The empty secret is excluded, because securecookie refuses an unset hash key. No manager holds an empty secret.
  - `Authenticated`: an idealised MAC. A minted token is accepted only under the same HMAC key and the same name, and then yields the minted value.

  Lemmas take these predicates as hypotheses instead of axioms. A concrete `ExampleSigner` satisfies all three, which shows the hypotheses are consistent.
- `Cookie` (cookie.dfy): `ManagerOptions`, `Manager`, the `http.Cookie` fields the package sets,
  the operations `NewManager`, `Sign`, `Read`, `SetCookie`, `GetCookieValue` and `DeleteCookie`, and lemmas about rotation.
- `Browser` (browser.dfy): a client that stores the cookies it receives and honours a negative `MaxAge`. It is used to state
  the cookie lifecycle from end to end: set, then get, then delete. It also models that net/http sends nothing for a cookie
  whose name is not an HTTP token.

The base64 decoder (`fromBase64`, standard encoding of section 4 of RFC 4648)
is a parameter of `NewManager`. The signer is a parameter of every operation
that signs or verifies.

## Model

| member | source | states |
|---|---|---|
| `Cookie.NewManager` | cookie.go:26-55 | Succeeds exactly when both secrets decode to 32 or 64 bytes. Each secret is checked on its own. Errors come in source order: the current secret's base64 error, then its length error, then the same two for the previous secret, so a bad current secret always wins. Base64 errors are passed on unchanged. On success, each decoded secret is in its own slot. An unset (zero) SameSite becomes Lax and any other value is kept. An empty path becomes `/` and any other path is kept. |
| `Cookie.NewManagerAcceptsMixedLengths` | cookie.go:31-42 | Secrets of different valid lengths are accepted: a 32-byte current with a 64-byte previous, or the reverse. The two stored secrets then differ in length. |
| `Cookie.Sign` | cookie.go:97-103 | Sign succeeds exactly when the current signer's encode does. It returns that token, or that error message unchanged. |
| `Cookie.SignUsesCurrentOnly` | cookie.go:97-103 | Replacing the previous secret never changes Sign's result. |
| `Cookie.Read` | cookie.go:105-113 | Succeeds exactly when the current or the previous signer accepts the token. If the current signer accepts, its value is returned. A value returned after the current signer rejected is the previous signer's. Any error returned is the previous signer's decode error, unchanged. |
| `Cookie.ReadIgnoresPreviousWhenCurrentAccepts` | cookie.go:105-112 | When the current signer accepts the token, the previous secret has no influence on the result. |
| `Cookie.ReadOfSign` | cookie.go:97-113 | Round trip under `RoundTrips`: a manager reads back exactly the value it signed. |
| `Cookie.RotationKeepsTokensReadable` | cookie.go:97-113 | One rotation: a token minted with current secret A is accepted by a manager with (current B, previous A), for any B. If the signer is also `Authenticated` and both managers hold valid secrets, the token reads back as the original value. |
| `Cookie.TwoRotationsExpireTokens` | cookie.go:105-113 | Under `Authenticated`: a valid manager that holds the HMAC key of secret A in neither slot rejects every token minted under A. |
| `Cookie.ZeroExtendedSecretDoesNotRotate` | cookie.go:31-42 | Under `RoundTrips` and `HmacKeyed`: replacing a 32-byte current secret A by A followed by 32 zero bytes is accepted, but it is no rotation. The new manager still reads every A-token back through its current slot, whatever its previous secret. |
| `Cookie.TokensAreBoundToTheirName` | cookie.go:97-113 | Under `Authenticated`: a token minted for one cookie name is rejected under any other name, by any valid manager. |
| `Cookie.SetCookie` | cookie.go:57-71 | Writes nothing and returns Sign's error when Sign fails. Otherwise it writes a cookie with the key as name and the token as value, `HttpOnly`, `Secure`, no MaxAge, and the manager's Path and SameSite. |
| `Cookie.GetCookieValue` | cookie.go:73-83 | An absent cookie gives "cookie not found", and the token is never verified. A present cookie gives Read's outcome. A value is returned only if one of the two signers accepted the token. |
| `Cookie.DeleteCookie` | cookie.go:85-95 | The deletion cookie has the key as name, an empty value, and a negative MaxAge. It carries `HttpOnly`, `Secure`, and the manager's Path and SameSite. |
| `Cookie.DeleteCookieMatchesSetCookie` | cookie.go:57-95 | The deletion cookie has the same name, path, SameSite, HttpOnly and Secure attributes as the cookie SetCookie writes. A client therefore replaces that cookie. |
| `Browser.SetThenGet` | cookie.go:57-83 | Under `RoundTrips`, for a valid cookie name and a token net/http sends unchanged: after the client receives the cookie SetCookie wrote, GetCookieValue on its next request returns the original value. |
| `Browser.SetThenGetAcrossRotation` | cookie.go:57-113 | The same, when the cookie was set before a rotation and is read by the manager after it. |
| `Browser.DeleteThenGet` | cookie.go:73-95 | For a valid cookie name: after the client receives the DeleteCookie record, GetCookieValue gives "cookie not found". |
| `Browser.InvalidNameWritesNothing` | cookie.go:57-95 | For a name that is not an HTTP token, SetCookie and DeleteCookie still report success, but the client's cookie under that name is unchanged. |
| `Browser.OtherCookiesUntouched` | cookie.go:57-95 | Setting or deleting one cookie leaves every other cookie the client holds as it was. |
| `Signing.ZeroPaddingKeepsKey` | cookie.go:41-42 | Appending up to one block's worth of zero bytes to a secret gives a different secret with the same HMAC key. |
| `Signing.ExampleSignerMeetsAssumptions` | cookie.go:41-42 | Some signer satisfies `RoundTrips`, `HmacKeyed` and `Authenticated` together, so the lemmas that assume them are not vacuous. |

## Left out

- The internals of gorilla/securecookie are not modelled: `securecookie.New`, HMAC-SHA256, timestamps, the gob serializer, token encoding and its length limit. The signer is abstract, and the lemmas assume only `RoundTrips`, `HmacKeyed` and `Authenticated`. HMAC keys longer than one block, which HMAC hashes, never occur here because every secret is 32 or 64 bytes.
- Tamper detection is not modelled: a token with a flipped byte is not shown to be rejected. That is a property of the MAC, and `Authenticated` speaks only of tokens that `encode` produced.
- The clock is not modelled. securecookie's `Decode` also rejects tokens older than its maximum age (30 days by default), so in reality `decode` depends on the time of reading. The model treats each decode as a function of secret, name and token at a fixed moment.
- The base64 decoder (`base64.StdEncoding.DecodeString`) is a parameter. Its errors are reduced to their message.
- `net/http` is not modelled: the `ResponseWriter`, the serialisation of `Set-Cookie` headers, and the parsing of the request by `r.Cookie`. `SetCookie` and `DeleteCookie` return the cookie record they would write. `GetCookieValue` takes the raw value of the request's cookie of that name, or none. The unused request argument of `SetCookie` is dropped.
- `Cookie.Read`: returns no value beside an error. In Go, `Read` returns the `value` variable together with the error, and decoders may have partly filled it. Callers must ignore that string, and `GetCookieValue` replaces it with `""`.
- The diagnostic `fmt.Printf` on fallback is output only and does not affect any result.
- Concurrent use is not modelled. The manager is never mutated after construction.
- `Cookie.SetCookie`: returns the cookie record it hands to `http.SetCookie`, and reports success whenever Sign succeeds. net/http then sends nothing for a name that is not an HTTP token (for example `""`, or a name with a space or `;`). It also strips or quotes unsafe characters in the value and strips them from the path. The Go function returns nil in all these cases. `Browser.Receive` models the dropped header. The value and path sanitising is not modelled, so the `Browser` lemmas that read a value back assume a valid name and a token that needs no sanitising.
- Go strings are arbitrary bytes, but Dafny's `string` is a sequence of Unicode scalar values. Cookie names, values, paths and secrets' base64 text that are not valid UTF-8 therefore cannot be represented. No proved property depends on this.
- `Browser`: a client tells cookies apart by name only. Domain and path matching are not modelled. The jar is assumed to hold only cookies written with the manager's path and domain, and requests are assumed to fall under that path. A real client that also holds a cookie of the same name under another path keeps that cookie after `DeleteCookie`, and may send it instead. `Browser.DeleteThenGet` and `Browser.SetThenGet` do not cover that case.
