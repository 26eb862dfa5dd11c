/** Bearer-token extraction and the `verifyToken` middleware. Signature and
    expiry checking are abstracted as a keyring: the tokens `jwt.verify`
    accepts at the time of the request, each with the payload it decodes to. */
module Auth {
  import opened Optional
  import opened Text
  import opened Store
  import opened Http

  type Keyring = map<string, Claims>

  /** `h` is `<scheme> <token><rest>`, where the scheme and the token hold no
      space and `rest` is empty or starts at the next space: the token is
      the second field of `h.split(' ')`. */
  predicate Splits(h: string, scheme: string, token: string, rest: string)
  {
    && h == scheme + " " + token + rest
    && ' ' !in scheme && ' ' !in token
    && (rest == "" || rest[0] == ' ')
  }

  /** `req.headers.authorization?.split(' ')[1]`, read for truthiness: the
      text between the first space and the next one. The scheme word before
      the first space is not inspected. */
  function BearerToken(header: Option<string>): (t: Option<string>)
    ensures t.Some? ==> header.Some? && t.value != ""
    ensures t.Some? ==> exists scheme, rest :: Splits(header.value, scheme, t.value, rest)
  {
    match header
    case None => None
    case Some(h) =>
      var sp := IndexOf(h, ' ');
      if sp == |h| then None
      else
        var rest := h[sp + 1..];
        var token := rest[..IndexOf(rest, ' ')];
        if token == "" then None
        else
          assert ' ' !in h[..sp] by {
            forall k | 0 <= k < sp ensures h[..sp][k] != ' ' { assert h[..sp][k] == h[k]; }
          }
          assert ' ' !in token by {
            forall k | 0 <= k < |token| ensures token[k] != ' ' { assert token[k] == rest[k]; }
          }
          assert h == h[..sp] + " " + token + rest[|token|..];
          assert Splits(h, h[..sp], token, rest[|token|..]);
          Some(token)
  }

  /** `Authorization: <scheme> <token> ...` yields the token, whatever the
      scheme and whatever follows the token's next space. */
  lemma BearerTokenOfHeader(scheme: string, token: string, rest: string)
    requires token != "" && Splits(scheme + " " + token + rest, scheme, token, rest)
    ensures BearerToken(Some(scheme + " " + token + rest)) == Some(token)
  {
    var h := scheme + " " + token + rest;
    assert h == scheme + [' '] + (token + rest);
    IndexOfAfter(scheme, ' ', token + rest);
    assert IndexOf(h, ' ') == |scheme|;
    var after := h[|scheme| + 1..];
    assert after == token + rest;
    if rest == "" {
      assert after == token;
      IndexOfAbsent(token, ' ');
    } else {
      assert after == token + [' '] + rest[1..];
      IndexOfAfter(token, ' ', rest[1..]);
    }
    assert after[..IndexOf(after, ' ')] == token;
  }

  /** A header with no space carries no token. */
  lemma NoSpaceNoToken(h: string)
    requires ' ' !in h
    ensures BearerToken(Some(h)) == None
  {
    IndexOfAbsent(h, ' ');
  }

  /** The request carries a token that verifies. */
  predicate Authenticated(header: Option<string>, keyring: Keyring)
  {
    BearerToken(header).Some? && BearerToken(header).value in keyring
  }

  /** The decoded payload of a verified token (`req.user`). */
  function Session(header: Option<string>, keyring: Keyring): Claims
    requires Authenticated(header, keyring)
  {
    keyring[BearerToken(header).value]
  }

  /** The outcome of a middleware: continue with the caller's identity, or
      answer at once. */
  datatype Gate = Admit(claims: Claims) | Refuse(response: Response)

  /** `verifyToken`: 401 "Unauthorized" without a token, 401 "Invalid token"
      when it does not verify, otherwise continue with its payload. */
  function VerifyToken(header: Option<string>, keyring: Keyring): (g: Gate)
    ensures g.Admit? <==> Authenticated(header, keyring)
    ensures g.Admit? ==> g.claims == Session(header, keyring)
    ensures BearerToken(header).None? ==> g == Refuse(Fail(401, "Unauthorized"))
    ensures BearerToken(header).Some? && g.Refuse? ==> g == Refuse(Fail(401, "Invalid token"))
  {
    match BearerToken(header)
    case None => Refuse(Fail(401, "Unauthorized"))
    case Some(token) =>
      if token in keyring then Admit(keyring[token]) else Refuse(Fail(401, "Invalid token"))
  }
}
