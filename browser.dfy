/** A client that stores the cookies it is sent and returns them on later
    requests, honouring the expiry directive: the counterpart needed to state
    the cookie lifecycle (set, read back, delete) end to end. Cookies are told
    apart by name only: the jar is taken to hold only cookies written with the
    manager's path and domain, and requests to fall under that path. */
module Browser {
  import opened Base
  import opened Signing
  import opened Cookie

  /** The cookies a client holds, by name. */
  type Jar = map<string, string>

  /** A character allowed in a cookie name: an HTTP token character
      (section 3.2.6 of RFC 7230, as net/http checks it). */
  predicate IsTokenChar(c: char)
  {
    ('0' <= c <= '9') || ('a' <= c <= 'z') || ('A' <= c <= 'Z') ||
    c in "!#$%&'*+-.^_`|~"
  }

  /** A name net/http will send a cookie under: non-empty, token characters only. */
  predicate ValidCookieName(name: string)
  {
    name != "" && forall i :: 0 <= i < |name| ==> IsTokenChar(name[i])
  }

  /** A value net/http sends as it is, neither stripping characters from it
      nor quoting it: printable ASCII other than space, '"', ',', ';' and '\'.
      URL-safe base64, the alphabet of securecookie's tokens, is such a value. */
  predicate CookieValueSafe(value: string)
  {
    forall i :: 0 <= i < |value| ==>
      '!' <= value[i] <= '~' && value[i] !in "\",;\\"
  }

  /** The jar after receiving `c`: a negative MaxAge removes the cookie, any
      other value stores it, replacing a cookie of the same name. */
  function Store(jar: Jar, c: HttpCookie): (r: Jar)
    ensures c.maxAge < 0 ==> c.name !in r
    ensures c.maxAge >= 0 ==> c.name in r && r[c.name] == c.value
    ensures forall n :: n != c.name ==> (n in r <==> n in jar)
    ensures forall n :: n != c.name && n in jar ==> r[n] == jar[n]
  {
    if c.maxAge < 0 then jar - {c.name} else jar[c.name := c.value]
  }

  /** The jar after a response in which the server wrote `c` with
      `http.SetCookie`: for an invalid name no Set-Cookie header is sent at
      all, and the client's cookies stay as they were. */
  function Receive(jar: Jar, c: HttpCookie): (r: Jar)
    ensures !ValidCookieName(c.name) ==> r == jar
    ensures ValidCookieName(c.name) ==> r == Store(jar, c)
  {
    if ValidCookieName(c.name) then Store(jar, c) else jar
  }

  /** The raw value of the cookie named `key` a request from this client carries. */
  function Lookup(jar: Jar, key: string): (r: Option<string>)
  {
    if key in jar then Some(jar[key]) else None
  }

  /** A cookie set by the manager is read back as the value it was given. */
  lemma SetThenGet(m: Manager, sig: Signer, jar: Jar, key: string, value: string)
    requires RoundTrips(sig)
    requires ValidCookieName(key)
    requires SetCookie(m, sig, key, value).Ok?
    requires CookieValueSafe(SetCookie(m, sig, key, value).value.value)
    ensures GetCookieValue(m, sig, Lookup(Receive(jar, SetCookie(m, sig, key, value).value), key), key) == Ok(value)
  {
  }

  /** A cookie set before a rotation is still read back after it, by the
      manager whose previous secret is the old current one. */
  lemma SetThenGetAcrossRotation(sig: Signer, before: Manager, after: Manager, jar: Jar, key: string, value: string)
    requires RoundTrips(sig) && Authenticated(sig)
    requires Valid(before) && Valid(after)
    requires after.previous == before.current
    requires ValidCookieName(key)
    requires SetCookie(before, sig, key, value).Ok?
    requires CookieValueSafe(SetCookie(before, sig, key, value).value.value)
    ensures GetCookieValue(after, sig, Lookup(Receive(jar, SetCookie(before, sig, key, value).value), key), key) == Ok(value)
  {
  }

  /** After a deletion the next request carries no such cookie (given a jar
      whose cookies all carry the manager's path). */
  lemma DeleteThenGet(m: Manager, sig: Signer, jar: Jar, key: string)
    requires ValidCookieName(key)
    ensures GetCookieValue(m, sig, Lookup(Receive(jar, DeleteCookie(m, key)), key), key) == Err(CookieNotFound)
  {
  }

  /** Under a name net/http refuses, SetCookie and DeleteCookie report success
      but the client receives nothing: a cookie it holds under that name keeps
      its value, so a deletion does not take effect. */
  lemma InvalidNameWritesNothing(m: Manager, sig: Signer, jar: Jar, key: string, value: string)
    requires !ValidCookieName(key)
    ensures SetCookie(m, sig, key, value).Ok? ==>
      Lookup(Receive(jar, SetCookie(m, sig, key, value).value), key) == Lookup(jar, key)
    ensures Lookup(Receive(jar, DeleteCookie(m, key)), key) == Lookup(jar, key)
  {
  }

  /** Setting or deleting one cookie leaves the client's other cookies as they were. */
  lemma OtherCookiesUntouched(m: Manager, sig: Signer, jar: Jar, key: string, value: string, other: string)
    requires other != key
    ensures SetCookie(m, sig, key, value).Ok? ==>
      Lookup(Receive(jar, SetCookie(m, sig, key, value).value), other) == Lookup(jar, other)
    ensures Lookup(Receive(jar, DeleteCookie(m, key)), other) == Lookup(jar, other)
  {
  }
}
