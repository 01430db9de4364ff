/** The rotation manager of the `cookie` package: two signer instances, the
    "current" one used for every new token and the first verification attempt
    and the "previous" one kept only to verify tokens minted before the last
    rotation, plus the attributes every cookie it writes carries. The manager
    is an immutable value: every operation only reads it. */
module Cookie {
  import opened Base
  import opened Signing

  /** Go's `http.SameSite`, an `int` enumeration whose zero value means unset. */
  newtype SameSite = x: int | -0x8000_0000_0000_0000 <= x < 0x8000_0000_0000_0000

  const SameSiteDefaultMode: SameSite := 1
  const SameSiteLaxMode: SameSite := 2
  const SameSiteStrictMode: SameSite := 3
  const SameSiteNoneMode: SameSite := 4

  /** The errors this package reports. The first three are created here; a
      library error (an invalid base64 secret, a failed encode or decode) is
      passed on with its message unchanged. */
  datatype Error =
    | CurrentSecretLength      // "current cookie secret must be 32 or 64 bytes"
    | PreviousSecretLength     // "previous cookie secret must be 32 or 64 bytes"
    | CookieNotFound           // "cookie not found"
    | Library(message: string)

  /** Configuration: both secrets are base64 text (standard alphabet with
      padding, section 4 of RFC 4648). */
  datatype ManagerOptions = ManagerOptions(
    currentCookieSecret: string,
    previousCookieSecret: string,
    sameSite: SameSite,
    path: string)

  /** A manager; each signer instance is determined by the secret it is bound to. */
  datatype Manager = Manager(
    current: Secret,
    previous: Secret,
    sameSite: SameSite,
    path: string)

  /** The fields of `http.Cookie` this package sets; the others keep Go's zero value. */
  datatype HttpCookie = HttpCookie(
    name: string,
    value: string,
    sameSite: SameSite,
    httpOnly: bool,
    secure: bool,
    path: string,
    maxAge: int)

  /** The two key sizes the signer supports. */
  predicate ValidSecretLength(n: nat)
  {
    n == 32 || n == 64
  }

  /** What every manager built by NewManager satisfies. */
  predicate Valid(m: Manager)
  {
    ValidSecretLength(|m.current|) && ValidSecretLength(|m.previous|) &&
    m.sameSite != 0 && m.path != ""
  }

  /** The attributes every cookie written by `m` carries. */
  predicate CarriesManagerAttributes(c: HttpCookie, m: Manager)
  {
    c.httpOnly && c.secure && c.path == m.path && c.sameSite == m.sameSite
  }

  /** Builds a manager, checking the current secret completely before looking
      at the previous one; unset SameSite and Path get their defaults.
      `fromBase64` is the standard base64 decoder, with its error message. */
  function NewManager(fromBase64: string -> Result<seq<byte>, string>, options: ManagerOptions)
    : (r: Result<Manager, Error>)
    // Succeeds exactly when both secrets decode to 32 or 64 bytes, each on its own.
    ensures var cur, prev := fromBase64(options.currentCookieSecret), fromBase64(options.previousCookieSecret);
      r.Ok? <==>
        cur.Ok? && ValidSecretLength(|cur.value|) && prev.Ok? && ValidSecretLength(|prev.value|)
    // Errors, in the order they are detected: the current secret first.
    ensures var cur := fromBase64(options.currentCookieSecret);
      (cur.Err? ==> r == Err(Library(cur.error))) &&
      (cur.Ok? && !ValidSecretLength(|cur.value|) ==> r == Err(CurrentSecretLength))
    ensures var cur, prev := fromBase64(options.currentCookieSecret), fromBase64(options.previousCookieSecret);
      cur.Ok? && ValidSecretLength(|cur.value|) ==>
        (prev.Err? ==> r == Err(Library(prev.error))) &&
        (prev.Ok? && !ValidSecretLength(|prev.value|) ==> r == Err(PreviousSecretLength))
    // On success: the decoded secrets, each in its own slot, and the defaults.
    ensures r.Ok? ==> Valid(r.value)
    ensures r.Ok? ==>
      r.value.current == fromBase64(options.currentCookieSecret).value &&
      r.value.previous == fromBase64(options.previousCookieSecret).value
    ensures r.Ok? ==>
      (options.sameSite == 0 ==> r.value.sameSite == SameSiteLaxMode) &&
      (options.sameSite != 0 ==> r.value.sameSite == options.sameSite)
    ensures r.Ok? ==>
      (options.path == "" ==> r.value.path == "/") &&
      (options.path != "" ==> r.value.path == options.path)
  {
    match fromBase64(options.currentCookieSecret)
    case Err(e) => Err(Library(e))
    case Ok(currentBytes) =>
      if |currentBytes| != 32 && |currentBytes| != 64 then Err(CurrentSecretLength)
      else match fromBase64(options.previousCookieSecret)
        case Err(e) => Err(Library(e))
        case Ok(previousBytes) =>
          if |previousBytes| != 32 && |previousBytes| != 64 then Err(PreviousSecretLength)
          else
            var sameSite := if options.sameSite == 0 then SameSiteLaxMode else options.sameSite;
            var path := if options.path == "" then "/" else options.path;
            Ok(Manager(currentBytes, previousBytes, sameSite, path))
  }

  /** Mints the token for `value` under cookie name `key`, always with the
      current signer. */
  function Sign(m: Manager, sig: Signer, key: string, value: string): (r: Result<string, Error>)
    ensures r.Ok? <==> sig.encode(m.current, key, value).Ok?
    ensures r.Ok? ==> r.value == sig.encode(m.current, key, value).value
    ensures r.Err? ==> r.error == Library(sig.encode(m.current, key, value).error)
  {
    match sig.encode(m.current, key, value)
    case Err(e) => Err(Library(e))
    case Ok(token) => Ok(token)
  }

  /** Verifies `token` for cookie name `key`: the current signer first, and on
      any error from it the previous signer, whose outcome is final. */
  function Read(m: Manager, sig: Signer, key: string, token: string): (r: Result<string, Error>)
    // Succeeds exactly when one of the two signers accepts the token.
    ensures r.Ok? <==>
      sig.decode(m.current, key, token).Ok? || sig.decode(m.previous, key, token).Ok?
    // The current signer has priority: its value wins whenever it accepts.
    ensures sig.decode(m.current, key, token).Ok? ==>
      r == Ok(sig.decode(m.current, key, token).value)
    // A value the current signer rejects comes from the previous signer.
    ensures r.Ok? && sig.decode(m.current, key, token).Err? ==>
      r.value == sig.decode(m.previous, key, token).value
    // The error surfaced is the previous signer's, unchanged.
    ensures r.Err? ==> r == Err(Library(sig.decode(m.previous, key, token).error))
  {
    match sig.decode(m.current, key, token)
    case Ok(value) => Ok(value)
    case Err(_) =>
      match sig.decode(m.previous, key, token)
      case Ok(value) => Ok(value)
      case Err(e) => Err(Library(e))
  }

  /** The cookie written for `value` under name `key`, or the signing error,
      in which case nothing is written. */
  function SetCookie(m: Manager, sig: Signer, key: string, value: string): (r: Result<HttpCookie, Error>)
    ensures r.Ok? <==> Sign(m, sig, key, value).Ok?
    ensures r.Err? ==> r.error == Sign(m, sig, key, value).error
    ensures r.Ok? ==>
      r.value.name == key && r.value.value == Sign(m, sig, key, value).value &&
      r.value.maxAge == 0 && CarriesManagerAttributes(r.value, m)
  {
    match Sign(m, sig, key, value)
    case Err(e) => Err(e)
    case Ok(token) =>
      Ok(HttpCookie(name := key, value := token, sameSite := m.sameSite,
                    httpOnly := true, secure := true, path := m.path, maxAge := 0))
  }

  /** The value carried by the request's cookie named `key`; `incoming` is
      that cookie's raw value, None when the request has no such cookie. */
  function GetCookieValue(m: Manager, sig: Signer, incoming: Option<string>, key: string)
    : (r: Result<string, Error>)
    ensures incoming.None? ==> r == Err(CookieNotFound)
    ensures incoming.Some? ==> r == Read(m, sig, key, incoming.value)
    ensures r.Ok? ==>
      incoming.Some? &&
      (sig.decode(m.current, key, incoming.value).Ok? || sig.decode(m.previous, key, incoming.value).Ok?)
  {
    match incoming
    case None => Err(CookieNotFound)
    case Some(token) =>
      match Read(m, sig, key, token)
      case Err(e) => Err(e)
      case Ok(value) => Ok(value)
  }

  /** The cookie that makes the client discard cookie `key`: empty value,
      negative MaxAge (sent as `Max-Age=0`), and the attributes of the cookie
      it replaces. */
  function DeleteCookie(m: Manager, key: string): (r: HttpCookie)
    ensures r.name == key && r.value == "" && r.maxAge < 0
    ensures CarriesManagerAttributes(r, m)
  {
    HttpCookie(name := key, value := "", sameSite := m.sameSite,
               httpOnly := true, secure := true, path := m.path, maxAge := -1)
  }

  // ---------------------------------------------------------------------------
  // Properties of the manager
  // ---------------------------------------------------------------------------

  /** The two secrets are validated independently: a 32-byte current secret
      with a 64-byte previous one, or the reverse, is accepted. */
  lemma NewManagerAcceptsMixedLengths(fromBase64: string -> Result<seq<byte>, string>, options: ManagerOptions)
    requires fromBase64(options.currentCookieSecret).Ok?
    requires fromBase64(options.previousCookieSecret).Ok?
    requires ValidSecretLength(|fromBase64(options.currentCookieSecret).value|)
    requires ValidSecretLength(|fromBase64(options.previousCookieSecret).value|)
    requires |fromBase64(options.currentCookieSecret).value| != |fromBase64(options.previousCookieSecret).value|
    ensures NewManager(fromBase64, options).Ok?
    ensures |NewManager(fromBase64, options).value.current| != |NewManager(fromBase64, options).value.previous|
  {
  }

  /** Signing never consults the previous secret: replacing it changes nothing. */
  lemma SignUsesCurrentOnly(m: Manager, sig: Signer, key: string, value: string, otherPrevious: Secret)
    ensures Sign(m.(previous := otherPrevious), sig, key, value) == Sign(m, sig, key, value)
  {
  }

  /** When the current signer accepts a token the previous signer is not used:
      replacing it changes nothing. */
  lemma ReadIgnoresPreviousWhenCurrentAccepts(m: Manager, sig: Signer, key: string, token: string, otherPrevious: Secret)
    requires sig.decode(m.current, key, token).Ok?
    ensures Read(m.(previous := otherPrevious), sig, key, token) == Read(m, sig, key, token)
  {
  }

  /** Round trip: a manager reads back what it signs. */
  lemma ReadOfSign(m: Manager, sig: Signer, key: string, value: string)
    requires RoundTrips(sig)
    requires Sign(m, sig, key, value).Ok?
    ensures Read(m, sig, key, Sign(m, sig, key, value).value) == Ok(value)
  {
  }

  /** One rotation: a token minted by a manager whose current secret is A is
      accepted by a later manager whose previous secret is A, whatever its new
      current secret. It reads back as the original value when the signer is
      authenticated (otherwise the new current secret might accept the token
      with another value, which Read would prefer). */
  lemma RotationKeepsTokensReadable(sig: Signer, before: Manager, after: Manager, key: string, value: string)
    requires RoundTrips(sig)
    requires after.previous == before.current
    requires Sign(before, sig, key, value).Ok?
    ensures Read(after, sig, key, Sign(before, sig, key, value).value).Ok?
    ensures Authenticated(sig) && Valid(before) && Valid(after) ==>
      Read(after, sig, key, Sign(before, sig, key, value).value) == Ok(value)
  {
  }

  /** Two rotations: once the HMAC key of secret A is in neither slot, tokens
      minted under A are rejected. */
  lemma TwoRotationsExpireTokens(sig: Signer, first: Manager, third: Manager, key: string, value: string)
    requires Authenticated(sig)
    requires Valid(first) && Valid(third)
    requires !SameKey(third.current, first.current) && !SameKey(third.previous, first.current)
    requires Sign(first, sig, key, value).Ok?
    ensures Read(third, sig, key, Sign(first, sig, key, value).value).Err?
  {
  }

  /** Secrets that differ only in trailing zero bytes are one HMAC key, so
      "rotating" from a 32-byte secret A to the 64-byte secret A followed by 32
      zero bytes, which NewManager accepts, keeps every token minted under A
      valid through the current slot, whatever the previous secret. */
  lemma ZeroExtendedSecretDoesNotRotate(sig: Signer, before: Manager, after: Manager, key: string, value: string)
    requires RoundTrips(sig) && HmacKeyed(sig)
    requires |before.current| == 32
    requires after.current == before.current + seq(32, _ => 0 as byte)
    requires Sign(before, sig, key, value).Ok?
    ensures after.current != before.current && ValidSecretLength(|after.current|)
    ensures Read(after, sig, key, Sign(before, sig, key, value).value) == Ok(value)
  {
  }

  /** Domain separation: a token minted for one cookie name is rejected under
      any other name, by any manager. */
  lemma TokensAreBoundToTheirName(sig: Signer, writer: Manager, reader: Manager, key: string, otherKey: string, value: string)
    requires Authenticated(sig)
    requires Valid(writer) && Valid(reader)
    requires key != otherKey
    requires Sign(writer, sig, key, value).Ok?
    ensures Read(reader, sig, otherKey, Sign(writer, sig, key, value).value).Err?
  {
  }

  /** The deletion cookie has the name, path and SameSite of the cookie SetCookie
      writes, so the client replaces that cookie rather than adding another. */
  lemma DeleteCookieMatchesSetCookie(m: Manager, sig: Signer, key: string, value: string)
    requires SetCookie(m, sig, key, value).Ok?
    ensures var written, del := SetCookie(m, sig, key, value).value, DeleteCookie(m, key);
      del.name == written.name && del.path == written.path && del.sameSite == written.sameSite &&
      del.httpOnly == written.httpOnly && del.secure == written.secure
  {
  }
}
