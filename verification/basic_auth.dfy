/**
 Model of `BasicAuth.extract_base64_authorization_header`
 (api/v1/auth/basic_auth.py). It checks only the literal, case-sensitive
 prefix `"Basic "` and returns the rest of the header as the token, without
 validating it. This differs from the `Basic` scheme of section 2 of
 RFC 7617 in three ways. The scheme name is not matched case-insensitively.
 Only one space is consumed before the token. Any text after the prefix is
 accepted as the token, even an empty or non-base64 one.
 */
module BasicAuth {
  import opened Options
  import Auth

  /** What the Python method can be handed: `None`, a string, or something
      that is not a string. */
  datatype Value = Null | Str(text: string) | NonString

  /** The scheme name and the single space that must follow it. */
  const BasicScheme: string := "Basic "

  /** The header value coming out of `authorization_header`, as a `Value`. */
  function FromHeader(header: Option<string>): (v: Value)
    ensures header.None? ==> v == Null
    ensures v.Str? <==> header.Some?
    ensures v.Str? ==> v.text == header.value
  {
    match header
    case None => Null
    case Some(s) => Str(s)
  }

  /** The token after `"Basic "`, or absent when the input is absent, is not a
      string, or does not start with `"Basic "`. */
  function ExtractBase64AuthorizationHeader(header: Value): (r: Option<string>)
    ensures r.Some? <==> header.Str? && BasicScheme <= header.text
    ensures r.Some? ==> BasicScheme + r.value == header.text
    ensures r.Some? ==> |r.value| == |header.text| - |BasicScheme|
  {
    match header
    case Null => None
    case NonString => None
    case Str(s) =>
      if BasicScheme <= s then Some(s[|BasicScheme|..]) else None
  }

  /** Prefixing any token with `"Basic "` and extracting gives the token back,
      the empty token included. */
  lemma ExtractRoundTrip(token: string)
    ensures ExtractBase64AuthorizationHeader(Str(BasicScheme + token)) == Some(token)
  {
    assert BasicScheme <= BasicScheme + token;
  }

  /** Extraction succeeds with `token` exactly when the header is `"Basic "`
      followed by `token`. */
  lemma ExtractIff(header: string, token: string)
    ensures ExtractBase64AuthorizationHeader(Str(header)) == Some(token)
        <==> header == BasicScheme + token
  {
    if header == BasicScheme + token {
      ExtractRoundTrip(token);
    }
  }

  /** `"Basic"` followed by anything but a space (nothing at all included) is
      rejected. */
  lemma ExtractRejectsMissingSpace(after: string)
    requires |after| == 0 || after[0] != ' '
    ensures ExtractBase64AuthorizationHeader(Str("Basic" + after)) == None
  {
    var h := "Basic" + after;
    assert |after| == 0 ==> |h| < |BasicScheme|;
    assert |after| > 0 ==> h[5] == after[0] != BasicScheme[5];
  }

  /** The scheme name is matched case-sensitively. */
  lemma ExtractIsCaseSensitive(after: string)
    ensures ExtractBase64AuthorizationHeader(Str("basic " + after)) == None
    ensures ExtractBase64AuthorizationHeader(Str("BASIC " + after)) == None
  {
    var lower := "basic " + after;
    var upper := "BASIC " + after;
    assert lower[0] != BasicScheme[0];
    assert upper[1] != BasicScheme[1];
  }

  /** Examples: the bare scheme, an empty token, a doubled space (only one is
      consumed), tokens that are not base64, and a lower-case scheme. */
  lemma ExtractExamples()
    ensures ExtractBase64AuthorizationHeader(Str("Basic")) == None
    ensures ExtractBase64AuthorizationHeader(Str("Basic ")) == Some("")
    ensures ExtractBase64AuthorizationHeader(Str("Basic Ym9iOnB3")) == Some("Ym9iOnB3")
    ensures ExtractBase64AuthorizationHeader(Str("Basic  x")) == Some(" x")
    ensures ExtractBase64AuthorizationHeader(Str("Basic a b")) == Some("a b")
    ensures ExtractBase64AuthorizationHeader(Str("Basic !!")) == Some("!!")
    ensures ExtractBase64AuthorizationHeader(Str("basic x")) == None
    ensures ExtractBase64AuthorizationHeader(Null) == None
  {
    ExtractRejectsMissingSpace("");
    ExtractRoundTrip("");
    ExtractRoundTrip("Ym9iOnB3");
    ExtractRoundTrip(" x");
    ExtractRoundTrip("a b");
    ExtractRoundTrip("!!");
    ExtractIsCaseSensitive("x");
  }

  /** A caller that feeds the inherited `authorization_header` into
      `extract_base64_authorization_header` gets `token` exactly when the
      request carries `Authorization: Basic <token>`. */
  lemma TokenFromRequest(request: Option<Auth.Request>, token: string)
    ensures ExtractBase64AuthorizationHeader(FromHeader(Auth.AuthorizationHeader(request))) == Some(token)
        <==> request.Some? && Auth.AuthorizationKey in request.value.headers
             && request.value.headers[Auth.AuthorizationKey] == BasicScheme + token
  {
    var h := Auth.AuthorizationHeader(request);
    if h.Some? {
      ExtractIff(h.value, token);
    }
  }
}
