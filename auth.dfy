/** Credential extraction from the `Authorization` header
    (`GetBearerToken`, `GetAPIKey`).

    The header value is given as a string; an absent header is the empty string,
    which is what `http.Header.Get` returns for it. The rejection test joins its
    two conditions with `&&`, as the code does; `WellFormed` below is the test
    "exactly two parts and the first is the scheme", and the lemmas at the end
    say exactly where the two disagree. */
module Auth {
  import opened Results
  import opened Text

  datatype HeaderError =
    | MissingAuthorizationHeader
    | InvalidAuthorizationHeader
    | InvalidApiKeyHeader

  function Message(e: HeaderError): (text: string)
  {
    match e
    case MissingAuthorizationHeader => "missing authorization header"
    case InvalidAuthorizationHeader => "invalid authorization header"
    case InvalidApiKeyHeader => "invalid apikey header"
  }

  const BearerScheme := "Bearer"
  const ApiKeyScheme := "ApiKey"

  /** The shape both extractors share: reject the empty header, split on every
      space, reject when the part count is not 2 AND the first part is not the
      scheme, return the second part. A lone scheme passes the test and indexes
      past the end of the split, which panics. */
  function ExtractCredential(header: string, scheme: string, invalid: HeaderError): (r: Result<string, HeaderError>)
    requires invalid != MissingAuthorizationHeader
    ensures header == "" <==> r == Err(MissingAuthorizationHeader)
    ensures r.Ok? ==> ' ' !in r.value
  {
    if header == "" then Err(MissingAuthorizationHeader)
    else
      var slice := Split(header, ' ');
      if |slice| != 2 && slice[0] != scheme then Err(invalid)
      else if |slice| < 2 then Panic
      else Ok(slice[1])
  }

  /** `GetBearerToken`. */
  function GetBearerToken(header: string): (r: Result<string, HeaderError>)
    ensures header == "" <==> r == Err(MissingAuthorizationHeader)
    ensures r.Ok? ==> ' ' !in r.value
    ensures r.Err? ==> r.error in {MissingAuthorizationHeader, InvalidAuthorizationHeader}
  {
    ExtractCredential(header, BearerScheme, InvalidAuthorizationHeader)
  }

  /** `GetAPIKey`: the same shape with scheme "ApiKey" and its own error. */
  function GetAPIKey(header: string): (r: Result<string, HeaderError>)
    ensures header == "" <==> r == Err(MissingAuthorizationHeader)
    ensures r.Ok? ==> ' ' !in r.value
    ensures r.Err? ==> r.error in {MissingAuthorizationHeader, InvalidApiKeyHeader}
  {
    ExtractCredential(header, ApiKeyScheme, InvalidApiKeyHeader)
  }

  /** What the rejection test was evidently meant to demand: exactly two parts,
      the first equal to the scheme. */
  predicate WellFormed(header: string, scheme: string)
  {
    var slice := Split(header, ' ');
    |slice| == 2 && slice[0] == scheme
  }

  /** Split of a header made of a separator-free first part, a space and a rest. */
  lemma SplitHeader(first: string, rest: string)
    requires ' ' !in first
    ensures Split(first + " " + rest, ' ') == [first] + Split(rest, ' ')
  {
    assert first + " " + rest == first + [' '] + rest;
    SplitAtSeparator(first, rest, ' ');
  }

  /** Any two-part header is accepted and yields its second part, whatever its
      first part is: the scheme is not checked when there are two parts. */
  lemma TwoPartsAccepted(first: string, credential: string, scheme: string, invalid: HeaderError)
    requires invalid != MissingAuthorizationHeader
    requires ' ' !in first && ' ' !in credential
    ensures ExtractCredential(first + " " + credential, scheme, invalid) == Ok(credential)
  {
    SplitHeader(first, credential);
    SplitNoSeparator(credential, ' ');
  }

  /** `"Bearer " + t` yields `t` for every token `t` without spaces, the empty
      token included (the header `"Bearer "`). */
  lemma BearerRoundTrip(token: string)
    requires ' ' !in token
    ensures GetBearerToken("Bearer " + token) == Ok(token)
  {
    assert ' ' !in BearerScheme by { assert BearerScheme == ['B', 'e', 'a', 'r', 'e', 'r']; }
    assert "Bearer " + token == BearerScheme + " " + token;
    TwoPartsAccepted(BearerScheme, token, BearerScheme, InvalidAuthorizationHeader);
  }

  /** `"ApiKey " + k` yields `k` for every key `k` without spaces. */
  lemma ApiKeyRoundTrip(key: string)
    requires ' ' !in key
    ensures GetAPIKey("ApiKey " + key) == Ok(key)
  {
    assert ' ' !in ApiKeyScheme by { assert ApiKeyScheme == ['A', 'p', 'i', 'K', 'e', 'y']; }
    assert "ApiKey " + key == ApiKeyScheme + " " + key;
    TwoPartsAccepted(ApiKeyScheme, key, ApiKeyScheme, InvalidApiKeyHeader);
  }

  /** A header of one part that is not the scheme is rejected with the
      extractor's own error. */
  lemma SinglePartRejected(header: string, scheme: string, invalid: HeaderError)
    requires invalid != MissingAuthorizationHeader
    requires header != "" && ' ' !in header && header != scheme
    ensures ExtractCredential(header, scheme, invalid) == Err(invalid)
  {
    SplitNoSeparator(header, ' ');
  }

  /** A bearer header without the scheme, such as a bare token, is rejected with
      "invalid authorization header". */
  lemma BareTokenRejected(header: string)
    requires header != "" && ' ' !in header && header != BearerScheme
    ensures GetBearerToken(header) == Err(InvalidAuthorizationHeader)
    ensures Message(GetBearerToken(header).error) == "invalid authorization header"
  {
    SinglePartRejected(header, BearerScheme, InvalidAuthorizationHeader);
  }

  /** An API-key header without the scheme is rejected with "invalid apikey header". */
  lemma BareApiKeyRejected(header: string)
    requires header != "" && ' ' !in header && header != ApiKeyScheme
    ensures GetAPIKey(header) == Err(InvalidApiKeyHeader)
  {
    SinglePartRejected(header, ApiKeyScheme, InvalidApiKeyHeader);
  }

  /** The extraction panics exactly on the header that is the scheme alone. */
  lemma PanicsExactlyOnBareScheme(header: string, scheme: string, invalid: HeaderError)
    requires invalid != MissingAuthorizationHeader
    requires ' ' !in scheme
    ensures ExtractCredential(header, scheme, invalid).Panic? <==> header == scheme && header != ""
  {
    if header != "" {
      var slice := Split(header, ' ');
      if |slice| == 1 {
        SinglePiece(header, ' ');
      }
      if header == scheme {
        SplitNoSeparator(header, ' ');
      }
    }
  }

  /** The header "Bearer" alone panics; so does "ApiKey" alone. */
  lemma LoneSchemePanics()
    ensures GetBearerToken("Bearer").Panic?
    ensures GetAPIKey("ApiKey").Panic?
  {
    PanicsExactlyOnBareScheme("Bearer", BearerScheme, InvalidAuthorizationHeader);
    PanicsExactlyOnBareScheme("ApiKey", ApiKeyScheme, InvalidApiKeyHeader);
  }

  /** With three or more parts and the scheme first, the second part is returned
      and the rest is dropped: `"Bearer a b"` yields `"a"`. */
  lemma ExtraPartsDropped(credential: string, rest: string)
    requires ' ' !in credential
    ensures GetBearerToken("Bearer " + credential + " " + rest) == Ok(credential)
  {
    var header := "Bearer " + credential + " " + rest;
    assert header == BearerScheme + " " + (credential + " " + rest);
    SplitHeader(BearerScheme, credential + " " + rest);
    SplitHeader(credential, rest);
  }

  /** On every well-formed header the extractor returns the credential. */
  lemma WellFormedAccepted(header: string, scheme: string, invalid: HeaderError)
    requires invalid != MissingAuthorizationHeader
    requires WellFormed(header, scheme)
    ensures ExtractCredential(header, scheme, invalid) == Ok(Split(header, ' ')[1])
  {
  }

  /** Where the code departs from the well-formedness test: a non-empty header is
      accepted (or panics) although it is not well formed exactly when it has two
      parts with a foreign first part, or any other number of parts with the
      scheme first. Every other header is treated as the test says. */
  lemma AcceptsExactlyTheseMalformed(header: string, scheme: string, invalid: HeaderError)
    requires invalid != MissingAuthorizationHeader
    requires header != ""
    ensures var r := ExtractCredential(header, scheme, invalid);
            var slice := Split(header, ' ');
            (!r.Err? && !WellFormed(header, scheme)) <==>
              ((|slice| == 2 && slice[0] != scheme) || (|slice| != 2 && slice[0] == scheme))
    ensures ExtractCredential(header, scheme, invalid).Err? <==>
              (Split(header, ' ')[0] != scheme && |Split(header, ' ')| != 2)
  {
  }
}
