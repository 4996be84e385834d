/** The part of the golang-jwt library (`jwt.NewWithClaims(...).SignedString`
    and `jwt.ParseWithClaims` with `RegisteredClaims`) that the core calls.

    A token is three segments joined by '.': the protected header (its `alg`),
    the claim set and the signature, as in the compact serialization of
    section 7.1 of RFC 7515. The library writes each segment as base64url of a
    JSON document; this model writes them in Base16 instead (section 8 of
    RFC 4648): the header and each string claim as three bytes per character,
    a numeric date as a sign byte and big-endian magnitude, an absent one as
    nothing, and the four claim fields joined by '_'. What the model relies on
    is only that the encoding reads back (the lemmas `DecodeText` to
    `DecodeClaimsEncode`) and never contains ' ' or '.'. HMAC-SHA256 (section
    3.2 of RFC 7518) is the parameter `hmac`: nothing is assumed about it;
    where a statement needs two keys to give different tags it says so. */
module Jose {
  import opened Results
  import opened Text
  import opened Base16

  /** HMAC-SHA256 keyed by the bytes of the secret, over the signing input. */
  type Mac = (string, string) -> seq<byte>

  const Hs256 := "HS256"

  /** The registered claims of section 4.1 of RFC 7519 that the core uses; a
      NumericDate is whole seconds, an absent one is `None`, an absent string
      claim is "" (which is what the library's getters return). */
  datatype Claims = Claims(issuer: string, subject: string, issuedAt: Option<int>, expiresAt: Option<int>)

  // ---------------------------------------------------------------- segment encoding

  predicate IsScalar(v: int)
  {
    0 <= v < 0xD800 || 0xE000 <= v < 0x11_0000
  }

  /** A character as three bytes, big-endian. */
  function CharUnits(c: char): (b: seq<byte>)
    ensures |b| == 3
  {
    var v := c as int;
    [v / 0x1_0000, (v / 0x100) % 0x100, v % 0x100]
  }

  function TextUnits(s: string): (b: seq<byte>)
    ensures |b| == 3 * |s|
  {
    if s == [] then [] else CharUnits(s[0]) + TextUnits(s[1..])
  }

  function FromTextUnits(b: seq<byte>): (s: Option<string>)
  {
    if b == [] then Some("")
    else if |b| < 3 then None
    else
      var v := b[0] as int * 0x1_0000 + b[1] as int * 0x100 + b[2] as int;
      if !IsScalar(v) then None
      else match FromTextUnits(b[3..])
        case Some(rest) => Some([v as char] + rest)
        case _ => None
  }

  lemma CharUnitsValue(c: char)
    ensures var b := CharUnits(c); b[0] as int * 0x1_0000 + b[1] as int * 0x100 + b[2] as int == c as int
  {
    var v := c as int;
    var q := v / 0x100;
    assert v == q * 0x100 + v % 0x100;
    assert q == (q / 0x100) * 0x100 + q % 0x100;
    assert v / 0x1_0000 == q / 0x100;
  }

  lemma {:induction false} FromTextUnitsInverse(s: string)
    ensures FromTextUnits(TextUnits(s)) == Some(s)
  {
    if s != [] {
      var b := TextUnits(s);
      CharUnitsValue(s[0]);
      assert b[..3] == CharUnits(s[0]);
      assert b[3..] == TextUnits(s[1..]);
      FromTextUnitsInverse(s[1..]);
      assert [s[0]] + s[1..] == s;
    }
  }

  function EncodeText(s: string): (segment: string)
  {
    Encode(TextUnits(s))
  }

  function DecodeText(segment: string): (s: Option<string>)
  {
    match Decode(segment)
    case Some(b) => FromTextUnits(b)
    case _ => None
  }

  lemma DecodeEncodeText(s: string)
    ensures DecodeText(EncodeText(s)) == Some(s)
  {
    DecodeEncode(TextUnits(s));
    FromTextUnitsInverse(s);
  }

  /** A magnitude as big-endian bytes without leading zeros. */
  function BigEndian(n: nat): (b: seq<byte>)
  {
    if n == 0 then [] else BigEndian(n / 0x100) + [n % 0x100]
  }

  function FromBigEndian(b: seq<byte>): (n: nat)
  {
    if b == [] then 0 else FromBigEndian(b[..|b| - 1]) * 0x100 + b[|b| - 1]
  }

  lemma {:induction false} FromBigEndianInverse(n: nat)
    ensures FromBigEndian(BigEndian(n)) == n
  {
    if n != 0 {
      var b := BigEndian(n);
      assert b[..|b| - 1] == BigEndian(n / 0x100);
      FromBigEndianInverse(n / 0x100);
    }
  }

  /** A NumericDate: nothing when absent, otherwise a sign byte and the magnitude. */
  function DateBytes(d: Option<int>): (b: seq<byte>)
  {
    match d
    case None => []
    case Some(t) => if t < 0 then [1] + BigEndian(-t) else [0] + BigEndian(t)
  }

  function FromDateBytes(b: seq<byte>): (d: Option<Option<int>>)
  {
    if b == [] then Some(None)
    else if b[0] == 0 then Some(Some(FromBigEndian(b[1..])))
    else if b[0] == 1 then Some(Some(-(FromBigEndian(b[1..]) as int)))
    else None
  }

  lemma FromDateBytesInverse(d: Option<int>)
    ensures FromDateBytes(DateBytes(d)) == Some(d)
  {
    if d.Some? {
      var t := d.value;
      if t < 0 {
        assert DateBytes(d)[1..] == BigEndian(-t);
        FromBigEndianInverse(-t);
      } else {
        assert DateBytes(d)[1..] == BigEndian(t);
        FromBigEndianInverse(t);
      }
    }
  }

  function DecodeDate(segment: string): (d: Option<Option<int>>)
  {
    match Decode(segment)
    case Some(b) => FromDateBytes(b)
    case _ => None
  }

  function EncodeClaims(c: Claims): (segment: string)
  {
    Join([EncodeText(c.issuer), EncodeText(c.subject),
          Encode(DateBytes(c.issuedAt)), Encode(DateBytes(c.expiresAt))], '_')
  }

  /** The claim-set segment read back; `None` when it is malformed. */
  function DecodeClaims(segment: string): (claims: Option<Claims>)
  {
    var fields := Split(segment, '_');
    if |fields| != 4 then None
    else
      match (DecodeText(fields[0]), DecodeText(fields[1]), DecodeDate(fields[2]), DecodeDate(fields[3]))
      case (Some(iss), Some(sub), Some(iat), Some(exp)) => Some(Claims(iss, sub, iat, exp))
      case _ => None
  }

  lemma DecodeClaimsEncode(c: Claims)
    ensures DecodeClaims(EncodeClaims(c)) == Some(c)
  {
    var fields := [EncodeText(c.issuer), EncodeText(c.subject),
                   Encode(DateBytes(c.issuedAt)), Encode(DateBytes(c.expiresAt))];
    forall i | 0 <= i < 4 ensures '_' !in fields[i] {
      EncodeAvoidsAll(fields, i);
    }
    SplitJoin(fields, '_');
    DecodeEncodeText(c.issuer);
    DecodeEncodeText(c.subject);
    DecodeEncode(DateBytes(c.issuedAt));
    FromDateBytesInverse(c.issuedAt);
    DecodeEncode(DateBytes(c.expiresAt));
    FromDateBytesInverse(c.expiresAt);
  }

  /** Every segment this model writes holds hex digits only. */
  predicate HexOnly(s: string)
  {
    forall i :: 0 <= i < |s| ==> IsLowerHexDigit(s[i])
  }

  lemma EncodeAvoidsAll(fields: seq<string>, i: nat)
    requires i < |fields|
    requires forall j :: 0 <= j < |fields| ==> HexOnly(fields[j])
    ensures '_' !in fields[i] && '.' !in fields[i] && ' ' !in fields[i]
  {
    assert HexOnly(fields[i]);
  }

  // ---------------------------------------------------------------- signing and parsing

  function SigningInput(header: string, payload: string): (input: string)
  {
    header + "." + payload
  }

  /** `jwt.NewWithClaims(jwt.SigningMethodHS256, claims).SignedString(secret)`:
      the header naming HS256, the claim set, and the HMAC tag of the signing
      input (the first two joined by '.') under the secret, joined by '.'. */
  function Sign(hmac: Mac, secret: string, claims: Claims): (token: string)
  {
    var header := EncodeText(Hs256);
    var payload := EncodeClaims(claims);
    Join([header, payload, Encode(hmac(secret, SigningInput(header, payload)))], '.')
  }

  /** The three segments of a signed token are the header, the claim set and
      the encoded tag, and the token contains no space, so it survives the
      "Bearer " header. */
  lemma SignSegments(hmac: Mac, secret: string, claims: Claims)
    ensures var header := EncodeText(Hs256);
            var payload := EncodeClaims(claims);
            Split(Sign(hmac, secret, claims), '.') ==
              [header, payload, Encode(hmac(secret, SigningInput(header, payload)))]
    ensures ' ' !in Sign(hmac, secret, claims)
  {
    var header := EncodeText(Hs256);
    var payload := EncodeClaims(claims);
    var signature := Encode(hmac(secret, SigningInput(header, payload)));
    ClaimsAvoid(claims);
    EncodeAvoids(TextUnits(Hs256), '.');
    EncodeAvoids(TextUnits(Hs256), ' ');
    EncodeAvoids(hmac(secret, SigningInput(header, payload)), '.');
    EncodeAvoids(hmac(secret, SigningInput(header, payload)), ' ');
    JoinThree(header, payload, signature);
  }

  /** Three segments free of '.' and ' ' joined by '.' split back into
      themselves, and the join has no space. */
  lemma JoinThree(header: string, payload: string, signature: string)
    requires '.' !in header && '.' !in payload && '.' !in signature
    requires ' ' !in header && ' ' !in payload && ' ' !in signature
    ensures Split(Join([header, payload, signature], '.'), '.') == [header, payload, signature]
    ensures ' ' !in Join([header, payload, signature], '.')
  {
    var parts := [header, payload, signature];
    assert forall i :: 0 <= i < 3 ==> '.' !in parts[i] && ' ' !in parts[i];
    SplitJoin(parts, '.');
    JoinAvoids(parts, '.', ' ');
  }

  /** The claim set holds neither '.' nor ' '. */
  lemma ClaimsAvoid(claims: Claims)
    ensures '.' !in EncodeClaims(claims) && ' ' !in EncodeClaims(claims)
  {
    var fields := [EncodeText(claims.issuer), EncodeText(claims.subject),
                   Encode(DateBytes(claims.issuedAt)), Encode(DateBytes(claims.expiresAt))];
    forall i | 0 <= i < 4 ensures '.' !in fields[i] && ' ' !in fields[i] {
      EncodeAvoidsAll(fields, i);
    }
    JoinAvoids(fields, '_', '.');
    JoinAvoids(fields, '_', ' ');
  }

  /** What the library reports when a token does not parse. */
  datatype ParseError =
    | Malformed          // wrong number of segments, or a segment that does not decode
    | Unverifiable       // the header names a signing method other than HS256
    | SignatureInvalid   // "signature is invalid"
    | Expired            // "token is expired": the current time is not before `exp`

  /** `jwt.ParseWithClaims(token, &jwt.RegisteredClaims{}, keyFunc)` with a key
      function returning the secret: split into three segments, decode the header
      and the claims, look up the signing method, decode and check the signature,
      and finally validate the time-based claims (only `exp` is present here).
      Whatever the token string, an accepted one has three segments, a header
      naming HS256, a claim set that decodes to the claims returned, a
      signature that is the HMAC tag of the first two segments under the
      secret, and an `exp`, when present, after `now`. */
  function ParseWithClaims(hmac: Mac, token: string, secret: string, now: int): (r: Result<Claims, ParseError>)
    ensures !r.Panic?
    ensures r.Ok? ==>
              var parts := Split(token, '.');
              && |parts| == 3
              && DecodeText(parts[0]) == Some(Hs256)
              && DecodeClaims(parts[1]) == Some(r.value)
              && Decode(parts[2]) == Some(hmac(secret, SigningInput(parts[0], parts[1])))
              && (r.value.expiresAt.Some? ==> now < r.value.expiresAt.value)
  {
    var parts := Split(token, '.');
    if |parts| != 3 then Err(Malformed)
    else
      match (DecodeText(parts[0]), DecodeClaims(parts[1]))
      case (Some(alg), Some(claims)) =>
        if alg != Hs256 then Err(Unverifiable)
        else (
          match Decode(parts[2])
          case None => Err(Malformed)
          case Some(signature) =>
            if signature != hmac(secret, SigningInput(parts[0], parts[1])) then Err(SignatureInvalid)
            else if claims.expiresAt.Some? && !(now < claims.expiresAt.value) then Err(Expired)
            else Ok(claims))
      case _ => Err(Malformed)
  }

  /** Under the key it was signed with, a token parses back to its claims unless
      it has expired. */
  lemma SignedTokenParses(hmac: Mac, secret: string, claims: Claims, now: int)
    ensures ParseWithClaims(hmac, Sign(hmac, secret, claims), secret, now) ==
              if claims.expiresAt.Some? && now >= claims.expiresAt.value then Err(Expired) else Ok(claims)
  {
    SignSegments(hmac, secret, claims);
    DecodeEncodeText(Hs256);
    DecodeClaimsEncode(claims);
    var header := EncodeText(Hs256);
    var payload := EncodeClaims(claims);
    DecodeEncode(hmac(secret, SigningInput(header, payload)));
  }

  /** Under any key whose tag for the same signing input differs, a signed token
      fails with "signature is invalid", whether or not it has expired. */
  lemma OtherKeyRejected(hmac: Mac, secret: string, other: string, claims: Claims, now: int)
    requires var input := SigningInput(EncodeText(Hs256), EncodeClaims(claims));
             hmac(other, input) != hmac(secret, input)
    ensures ParseWithClaims(hmac, Sign(hmac, secret, claims), other, now) == Err(SignatureInvalid)
  {
    SignSegments(hmac, secret, claims);
    DecodeEncodeText(Hs256);
    DecodeClaimsEncode(claims);
    var header := EncodeText(Hs256);
    var payload := EncodeClaims(claims);
    DecodeEncode(hmac(secret, SigningInput(header, payload)));
  }

  /** Three segments joined by '.'. */
  lemma JoinThreeForm(header: string, payload: string, signature: string)
    ensures Join([header, payload, signature], '.') == header + ['.'] + (payload + ['.'] + signature)
  {
    assert [payload, signature][1..] == [signature];
    assert Join([payload, signature], '.') == payload + ['.'] + signature;
    assert [header, payload, signature][1..] == [payload, signature];
  }

  /** Splitting past two separator-free segments. */
  lemma SplitTwoSeparators(header: string, payload: string, rest: string)
    requires '.' !in header && '.' !in payload
    ensures Split(header + ['.'] + (payload + ['.'] + rest), '.') == [header, payload] + Split(rest, '.')
  {
    SplitAtSeparator(header, payload + ['.'] + rest, '.');
    SplitAtSeparator(payload, rest, '.');
  }

  /** A separator-free string with something appended is one piece when the
      appended text has no separator, and several otherwise. */
  lemma SplitGlued(segment: string, extra: string)
    requires '.' !in segment
    ensures if '.' in extra then |Split(segment + extra, '.')| >= 2
            else Split(segment + extra, '.') == [segment + extra]
  {
    SplitPrefix(segment, extra, '.');
    if '.' in extra {
      if |Split(extra, '.')| == 1 {
        SinglePiece(extra, '.');
      }
    } else {
      SplitNoSeparator(extra, '.');
    }
  }

  /** Splitting three separator-free segments with something appended: the
      last segment absorbs the appended text up to its first '.', if any. */
  lemma SplitAppended(header: string, payload: string, signature: string, extra: string)
    requires '.' !in header && '.' !in payload && '.' !in signature
    ensures var parts := Split(Join([header, payload, signature], '.') + extra, '.');
            if '.' in extra then |parts| > 3 else parts == [header, payload, signature + extra]
  {
    JoinThreeForm(header, payload, signature);
    var rest := payload + ['.'] + signature;
    var tail := payload + ['.'] + (signature + extra);
    assert rest + extra == tail;
    assert Join([header, payload, signature], '.') + extra == header + ['.'] + tail;
    SplitTwoSeparators(header, payload, signature + extra);
    SplitGlued(signature, extra);
  }

  /** Appending anything to a signed token makes it fail to parse: either the
      segment count changes, or the signature segment no longer decodes, or it
      decodes to more bytes than the tag. */
  lemma AppendedRejected(hmac: Mac, secret: string, claims: Claims, extra: string, now: int)
    requires extra != ""
    ensures ParseWithClaims(hmac, Sign(hmac, secret, claims) + extra, secret, now) in
              {Err(Malformed), Err(SignatureInvalid)}
  {
    var header := EncodeText(Hs256);
    var payload := EncodeClaims(claims);
    var tag := hmac(secret, SigningInput(header, payload));
    ClaimsAvoid(claims);
    EncodeAvoids(TextUnits(Hs256), '.');
    EncodeAvoids(tag, '.');
    SplitAppended(header, payload, Encode(tag), extra);
    if '.' !in extra {
      DecodeEncodeText(Hs256);
      DecodeClaimsEncode(claims);
      var d := Decode(Encode(tag) + extra);
      if d.Some? {
        assert |d.value| > |tag|;
      }
    }
  }
}
