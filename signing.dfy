/** The signing capability the cookie manager delegates to (gorilla/securecookie),
    modelled abstractly: a pair of functions from a secret, a cookie name and a
    string to a string or the library's error message, together with the
    properties the manager's correctness relies on. */
module Signing {
  import opened Base

  /** The key bytes a signer instance is bound to. The manager builds its
      instances with `securecookie.New(secret, nil)`: the secret is the hash
      (authentication) key and there is no block key, so tokens are
      authenticated but never encrypted. */
  type Secret = seq<byte>

  /** `SecureCookie.Encode` and `SecureCookie.Decode` for the instance bound to
      a secret. The cookie name is the domain-separation tag; an error is the
      library's message. */
  datatype Signer = Signer(
    encode: (Secret, string, string) -> Result<string, string>,
    decode: (Secret, string, string) -> Result<string, string>)

  /** Whatever `encode` produces, `decode` with the same secret and name turns
      back into the original value. */
  ghost predicate RoundTrips(sig: Signer)
  {
    forall s: Secret, name: string, value: string ::
      sig.encode(s, name, value).Ok? ==>
        sig.decode(s, name, sig.encode(s, name, value).value) == Ok(value)
  }

  /** The block size of HMAC-SHA256, in bytes; the manager's secrets never exceed it. */
  const HashBlockSize := 64

  /** The key HMAC actually uses for a secret no longer than its block: the
      secret followed by zero bytes up to the block size (section 2 of
      RFC 2104). Secrets that differ only in trailing zero bytes are one key. */
  function HmacKey(s: Secret): (k: Secret)
    requires |s| <= HashBlockSize
    ensures |k| == HashBlockSize && k[..|s|] == s
    ensures forall i :: |s| <= i < HashBlockSize ==> k[i] == 0
  {
    s + seq(HashBlockSize - |s|, _ => 0 as byte)
  }

  /** Two secrets of at most one block that HMAC turns into the same key. */
  predicate SameKey(s1: Secret, s2: Secret)
  {
    |s1| <= HashBlockSize && |s2| <= HashBlockSize && HmacKey(s1) == HmacKey(s2)
  }

  /** The signer sees a non-empty secret only through the HMAC key it stands
      for: non-empty secrets with the same key mint and accept the same tokens.
      The empty secret is excluded: securecookie refuses an unset hash key,
      while the all-zero key of the same padding signs normally. */
  ghost predicate HmacKeyed(sig: Signer)
  {
    (forall s1: Secret, s2: Secret, name: string, x: string ::
      0 < |s1| && 0 < |s2| && SameKey(s1, s2) ==> sig.encode(s1, name, x) == sig.encode(s2, name, x)) &&
    (forall s1: Secret, s2: Secret, name: string, x: string ::
      0 < |s1| && 0 < |s2| && SameKey(s1, s2) ==> sig.decode(s1, name, x) == sig.decode(s2, name, x))
  }

  /** An idealised message-authentication code: a token minted under one
      secret and name is accepted only under the same HMAC key and the same
      name, and then yields the value it was minted for. */
  ghost predicate Authenticated(sig: Signer)
  {
    forall s1: Secret, n1: string, v: string, s2: Secret, n2: string ::
      |s1| <= HashBlockSize && |s2| <= HashBlockSize &&
      sig.encode(s1, n1, v).Ok? && sig.decode(s2, n2, sig.encode(s1, n1, v).value).Ok? ==>
        SameKey(s1, s2) && n1 == n2 && sig.decode(s2, n2, sig.encode(s1, n1, v).value) == Ok(v)
  }

  /** Appending zero bytes to a secret (up to one block) changes the secret
      but not the key. */
  lemma ZeroPaddingKeepsKey(s: Secret, zeros: nat)
    requires |s| + zeros <= HashBlockSize
    ensures var padded := s + seq(zeros, _ => 0 as byte);
      SameKey(s, padded) && (zeros > 0 ==> padded != s)
  {
  }

  // ---------------------------------------------------------------------------
  // A concrete signer showing that RoundTrips, HmacKeyed and Authenticated
  // can hold together, so that the lemmas assuming them are not vacuous. It is
  // not a MAC (its tokens are forgeable); it only tags the value with the key
  // and the name, each preceded by its length written as one character.
  // ---------------------------------------------------------------------------

  /** Lengths above this cannot be written as a single character. */
  const FieldLimit := 0xD800

  function Chars(s: Secret): (r: string)
    ensures |r| == |s|
    ensures forall i :: 0 <= i < |s| ==> r[i] as int == s[i] as int
  {
    seq(|s|, i requires 0 <= i < |s| => (s[i] as int) as char)
  }

  /** The bytes a string of characters below 256 stands for. */
  function Bytes(cs: string): (r: Option<Secret>)
    ensures r.Some? <==> forall i :: 0 <= i < |cs| ==> (cs[i] as int) < 256
    ensures r.Some? ==> |r.value| == |cs| && forall i :: 0 <= i < |cs| ==> r.value[i] as int == cs[i] as int
  {
    if forall i :: 0 <= i < |cs| ==> (cs[i] as int) < 256
    then Some(seq(|cs|, i requires 0 <= i < |cs| => (cs[i] as int) as byte))
    else None
  }

  function Serialize(s: Secret, name: string, value: string): (t: string)
    requires |s| < FieldLimit && |name| < FieldLimit
  {
    [|s| as char] + Chars(s) + [|name| as char] + name + value
  }

  function Parse(t: string): (r: Option<(Secret, string, string)>)
  {
    if |t| == 0 then None
    else
      var ks := t[0] as int;
      if |t| < 1 + ks then None
      else match Bytes(t[1..1 + ks])
        case None => None
        case Some(s) =>
          var rest := t[1 + ks..];
          if |rest| == 0 then None
          else
            var ns := rest[0] as int;
            if |rest| < 1 + ns then None
            else Some((s, rest[1..1 + ns], rest[1 + ns..]))
  }

  lemma BytesOfChars(s: Secret)
    ensures Bytes(Chars(s)) == Some(s)
  {
    var r := Bytes(Chars(s));
    assert r.Some?;
    assert |r.value| == |s|;
    assert forall i :: 0 <= i < |s| ==> r.value[i] == s[i];
    assert r.value == s;
  }

  lemma ParseSerialize(s: Secret, name: string, value: string)
    requires |s| < FieldLimit && |name| < FieldLimit
    ensures Parse(Serialize(s, name, value)) == Some((s, name, value))
  {
    var t := Serialize(s, name, value);
    var rest := [|name| as char] + name + value;
    assert t == [|s| as char] + Chars(s) + rest;
    assert t[0] as int == |s|;
    assert t[1..1 + |s|] == Chars(s);
    BytesOfChars(s);
    assert t[1 + |s|..] == rest;
    assert rest[0] as int == |name|;
    assert rest[1..1 + |name|] == name;
    assert rest[1 + |name|..] == value;
  }

  /** The key the example signer tags tokens with: the HMAC key of a secret of
      at most one block, the secret itself otherwise. */
  function ExampleKey(s: Secret): (k: Secret)
    ensures |s| <= HashBlockSize ==> k == HmacKey(s)
  {
    if |s| <= HashBlockSize then HmacKey(s) else s
  }

  function ExampleSigner(): (sig: Signer)
  {
    Signer(
      (s: Secret, name: string, value: string) =>
        if |ExampleKey(s)| < FieldLimit && |name| < FieldLimit then Ok(Serialize(ExampleKey(s), name, value))
        else Err("the value is too long"),
      (s: Secret, name: string, token: string) =>
        match Parse(token)
        case Some((k, name', value)) =>
          if k == ExampleKey(s) && name' == name then Ok(value) else Err("the value is not valid")
        case None => Err("the value is not valid"))
  }

  lemma ExampleSignerMeetsAssumptions()
    ensures RoundTrips(ExampleSigner())
    ensures HmacKeyed(ExampleSigner())
    ensures Authenticated(ExampleSigner())
  {
    var sig := ExampleSigner();
    forall s: Secret, name: string, value: string | sig.encode(s, name, value).Ok?
      ensures sig.decode(s, name, sig.encode(s, name, value).value) == Ok(value)
    {
      ParseSerialize(ExampleKey(s), name, value);
    }
    forall s1: Secret, n1: string, v: string, s2: Secret, n2: string |
      |s1| <= HashBlockSize && |s2| <= HashBlockSize &&
      sig.encode(s1, n1, v).Ok? && sig.decode(s2, n2, sig.encode(s1, n1, v).value).Ok?
      ensures SameKey(s1, s2) && n1 == n2 && sig.decode(s2, n2, sig.encode(s1, n1, v).value) == Ok(v)
    {
      ParseSerialize(ExampleKey(s1), n1, v);
    }
  }
}
