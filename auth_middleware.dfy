/**
  The authentication middleware (server/middleware/authMiddleware.js): pick
  a token from the `Authorization` header or the `token` cookie, verify it,
  and either answer 401 or pass the request on with its user id.

  `jwt.verify` (with the configured secret) is the parameter `verify`. User
  ids are of a type parameter `N`: the model only needs to know whether
  `decoded.userId` is a JavaScript number, and to pass it on unchanged.
*/
module AuthMiddleware {
  import opened Wrappers
  import opened Js

  const BearerPrefix: string := "Bearer "
  const MissingToken: string := "Missing token."
  const InvalidToken: string := "Invalid token."

  /** `decoded.userId`, as `typeof ... === "number"` sees it. */
  datatype Claim<N> = NumberClaim(n: N) | NotANumber

  /** What `decoded` is: a falsy value, or a value whose `userId` property
      is examined. */
  datatype Payload<N> = FalsyPayload | Claims(userId: Claim<N>)

  /** The outcome of `jwt.verify(token, secret)`: it throws, or it returns. */
  datatype Verification<N> = Throws | Decoded(payload: Payload<N>)

  /** The middleware either answers (status and JSON error message) or
      calls `next()` after setting `req.userId`: exactly one of the two. */
  datatype Outcome<N> = Respond(status: int, error: string) | Next(userId: N)

  /** The bearer token: present only for a string header that starts with
      exactly "Bearer " (case-sensitive, one space); it is the rest of the
      header with surrounding white space trimmed. */
  function BearerToken(authHeader: JsValue): (t: Option<string>)
    ensures t.Some? <==> authHeader.JsString? && StartsWith(authHeader.s, BearerPrefix)
    ensures t.Some? ==> t.value == Trim(authHeader.s[|BearerPrefix|..])
  {
    if authHeader.JsString? && StartsWith(authHeader.s, BearerPrefix) then
      Some(Trim(authHeader.s[|BearerPrefix|..]))
    else
      None
  }

  /** The bearer token is a stretch of the header after "Bearer " with only
      trimmable characters around it, and it neither starts nor ends with
      one. */
  lemma BearerTokenIsTrimmedSpan(authHeader: JsValue)
    requires BearerToken(authHeader).Some?
    ensures var h := authHeader.s;
      exists j, k :: |BearerPrefix| <= j <= k <= |h|
        && BearerToken(authHeader).value == h[j..k]
        && TrimmableBetween(h, |BearerPrefix|, j) && TrimmableBetween(h, k, |h|)
    ensures IsTrimmed(BearerToken(authHeader).value)
  {
    var h := authHeader.s;
    var p := |BearerPrefix|;
    var rest := h[p..];
    var i, j :| 0 <= i <= j <= |rest| && Trim(rest) == rest[i..j]
      && TrimmableBetween(rest, 0, i) && TrimmableBetween(rest, j, |rest|);
    SliceOfSuffix(h, p, i, j);
    TrimmableBetweenSuffix(h, p, 0, i);
    TrimmableBetweenSuffix(h, p, j, |rest|);
    assert p <= p + i <= p + j <= |h|
      && BearerToken(authHeader).value == h[p + i..p + j]
      && TrimmableBetween(h, p, p + i) && TrimmableBetween(h, p + j, |h|);
  }

  /** A slice of `h[p..]` is a slice of `h`, shifted by `p`. */
  lemma SliceOfSuffix<T>(h: seq<T>, p: nat, i: nat, j: nat)
    requires p <= |h| && i <= j <= |h| - p
    ensures h[p..][i..j] == h[p + i..p + j]
  {
  }

  /** The cookie token: present only when `req.cookies.token` is a string;
      it is that string trimmed. */
  function CookieToken(cookieToken: JsValue): (t: Option<string>)
    ensures t.Some? <==> cookieToken.JsString?
    ensures t.Some? ==> t.value == Trim(cookieToken.s)
  {
    if cookieToken.JsString? then Some(Trim(cookieToken.s)) else None
  }

  /** `bearerToken || cookieToken`. */
  function SelectToken(authHeader: JsValue, cookieToken: JsValue): (t: Option<string>)
    ensures t == BearerToken(authHeader) || t == CookieToken(cookieToken)
    ensures HasToken(t) <==> HasToken(BearerToken(authHeader)) || HasToken(CookieToken(cookieToken))
  {
    match BearerToken(authHeader)
    case Some(b) => if b != "" then Some(b) else CookieToken(cookieToken)
    case None => CookieToken(cookieToken)
  }

  /** `!token` is false: a non-empty token was found. */
  predicate HasToken(t: Option<string>) {
    t.Some? && t.value != ""
  }

  /** The middleware's decision. */
  function Authenticate<N>(authHeader: JsValue, cookieToken: JsValue, verify: string -> Verification<N>): (o: Outcome<N>)
    ensures o.Respond? ==> o.status == 401 && (o.error == MissingToken || o.error == InvalidToken)
    ensures (o == Respond(401, MissingToken)) <==> !HasToken(SelectToken(authHeader, cookieToken))
    ensures o.Next? <==>
      && HasToken(SelectToken(authHeader, cookieToken))
      && var v := verify(SelectToken(authHeader, cookieToken).value);
         v.Decoded? && v.payload.Claims? && v.payload.userId.NumberClaim?
    ensures o.Next? ==> o.userId == verify(SelectToken(authHeader, cookieToken).value).payload.userId.n
  {
    var token := SelectToken(authHeader, cookieToken);
    if !HasToken(token) then
      Respond(401, MissingToken)
    else
      match verify(token.value)
      case Throws => Respond(401, InvalidToken)
      case Decoded(decoded) =>
        if decoded.FalsyPayload? || decoded.userId.NotANumber? then
          Respond(401, InvalidToken)
        else
          Next(decoded.userId.n)
  }

  // ---------------------------------------------------------------------
  // Properties

  /** A non-empty bearer token wins: the cookie is then never looked at. */
  lemma BearerTakesPrecedence(authHeader: JsValue, c1: JsValue, c2: JsValue)
    requires HasToken(BearerToken(authHeader))
    ensures SelectToken(authHeader, c1) == SelectToken(authHeader, c2) == BearerToken(authHeader)
  {
  }

  /** Without a non-empty bearer token, the trimmed cookie token is used,
      whatever the header held. */
  lemma CookieFallback(authHeader: JsValue, cookieToken: JsValue)
    requires !HasToken(BearerToken(authHeader))
    ensures SelectToken(authHeader, cookieToken) == CookieToken(cookieToken)
  {
  }

  /** `jwt.verify` is consulted only on the selected token: two verifiers
      that agree on it give the same outcome, and without a token the
      verifier does not matter at all. */
  lemma VerifiedOnlyOnSelectedToken<N>(authHeader: JsValue, cookieToken: JsValue,
                                       v1: string -> Verification<N>, v2: string -> Verification<N>)
    requires HasToken(SelectToken(authHeader, cookieToken)) ==>
      v1(SelectToken(authHeader, cookieToken).value) == v2(SelectToken(authHeader, cookieToken).value)
    ensures Authenticate(authHeader, cookieToken, v1) == Authenticate(authHeader, cookieToken, v2)
  {
  }

  /** The header must start with "Bearer " exactly: other spellings of the
      scheme give no bearer token. */
  lemma BearerIsCaseSensitive()
    ensures BearerToken(JsString("bearer abc")) == None
    ensures BearerToken(JsString("Bearer")) == None
    ensures BearerToken(JsString("Basic abc")) == None
    ensures BearerToken(NonString) == None
  {
    assert "bearer abc"[..7] != BearerPrefix by { assert "bearer abc"[0] != BearerPrefix[0]; }
    assert "Basic abc"[..7] != BearerPrefix by { assert "Basic abc"[1] != BearerPrefix[1]; }
  }

  /** White space around a bearer token is dropped: "Bearer " followed by
      padding, a trimmed token and padding yields that token. */
  lemma PaddedBearerIsTrimmed(pad1: string, token: string, pad2: string)
    requires AllTrimmable(pad1) && AllTrimmable(pad2) && IsTrimmed(token)
    ensures BearerToken(JsString(BearerPrefix + pad1 + token + pad2)) == Some(token)
  {
    var h := BearerPrefix + pad1 + token + pad2;
    assert h[..|BearerPrefix|] == BearerPrefix;
    assert h[|BearerPrefix|..] == pad1 + token + pad2;
    TrimPadded(pad1, token, pad2);
  }

  /** A bearer header holding only white space gives no usable token: the
      cookie token, trimmed, is used instead. */
  lemma BlankBearerFallsBack(pad: string, cookieToken: JsValue)
    requires AllTrimmable(pad)
    ensures SelectToken(JsString(BearerPrefix + pad), cookieToken) == CookieToken(cookieToken)
  {
    var h := BearerPrefix + pad;
    assert h[..|BearerPrefix|] == BearerPrefix;
    assert h[|BearerPrefix|..] == pad;
    TrimEmptyIff(pad);
  }

  /** A cookie token with padding is trimmed the same way. */
  lemma PaddedCookieIsTrimmed(pad1: string, token: string, pad2: string)
    requires AllTrimmable(pad1) && AllTrimmable(pad2) && IsTrimmed(token)
    ensures CookieToken(JsString(pad1 + token + pad2)) == Some(token)
  {
    TrimPadded(pad1, token, pad2);
  }
}
