/** The local agent's bearer-token subject extraction
    (`get_user_id_from_jwt`): split on `.`, take the piece at index 1,
    append `"=="`, base64-decode with the standard alphabet, decode UTF-8,
    parse JSON, read `sub`. Any exception along the way, and a missing or
    falsy `sub`, yields None. The token's signature is never checked, the
    number of segments is never checked, and the URL-safe alphabet a JWT
    actually uses (section 5 of RFC 4648) is not the one decoded. Nothing
    in the agent calls the extractor: the token is forwarded as it is, as
    the join frame's `access_token`. */
module Jwt {
  import opened Wrappers
  import opened Json
  import opened PyStr
  import opened Base64

  /** The two library decoders the extractor relies on, taken as given:
      `bytes.decode('utf-8')` and `json.loads`. None stands for the
      exception each raises on input it rejects. */
  datatype Decoders = Decoders(utf8: seq<byte> -> Option<string>, loads: string -> Option<Value>)

  /** `json.loads(base64.b64decode(jwt.split('.')[1] + "==").decode('utf-8'))`,
      None where any of the four steps raises (an IndexError when the token
      has no `.`). */
  function DecodeClaims(jwt: string, dec: Decoders): (r: Option<Value>)
    ensures r.Some? ==> |Split(jwt, ".")| >= 2
    ensures r.Some? ==>
      && B64Decode(Split(jwt, ".")[1] + "==").Some?
      && dec.utf8(B64Decode(Split(jwt, ".")[1] + "==").value).Some?
  {
    var parts := Split(jwt, ".");
    if |parts| < 2 then None
    else match B64Decode(parts[1] + "==")
      case None => None
      case Some(bytes) =>
        match dec.utf8(bytes)
        case None => None
        case Some(text) => dec.loads(text)
  }

  /** The subject claim of `jwt`, or None. A non-object claims value makes
      `.get` raise; a missing `sub` reads as None; both, and every falsy
      `sub` (null, false, 0, "", [], {}), give None. The value is returned
      as decoded, whatever its JSON type. */
  function UserIdFromJwt(jwt: string, dec: Decoders): (r: Option<Value>)
    ensures r.Some? ==> Truthy(r.value)
    ensures r.Some? <==>
      (var c := DecodeClaims(jwt, dec);
       c.Some? && c.value.JObject? && "sub" in c.value.fields && Truthy(c.value.fields["sub"]))
    ensures r.Some? ==> DecodeClaims(jwt, dec).value.fields["sub"] == r.value
  {
    match DecodeClaims(jwt, dec)
    case Some(JObject(claims)) =>
      var sub := GetOr(claims, "sub", JNull);
      if Truthy(sub) then Some(sub) else None
    case _ => None
  }

  /** A token without a `.` has no piece at index 1: the IndexError is
      caught and no subject is returned. */
  lemma NoDotNoUser(jwt: string, dec: Decoders)
    requires '.' !in jwt
    ensures UserIdFromJwt(jwt, dec) == None
  {
    SplitHasSecondPiece(jwt, '.');
  }

  /** Round trip: a token `header.claims[.anything]` whose claims segment is
      the unpadded standard-alphabet encoding of bytes that decode to a
      JSON object with a truthy `sub` yields exactly that `sub`. The header
      is not inspected, and `rest` may be empty (two segments) or carry
      any number of further segments: there is no three-segment check. */
  lemma UserIdRoundTrip(header: string, claimBytes: seq<byte>, rest: string, dec: Decoders,
                        text: string, claims: map<string, Value>)
    requires '.' !in header
    requires rest == [] || rest[0] == '.'
    requires dec.utf8(claimBytes) == Some(text)
    requires dec.loads(text) == Some(JObject(claims))
    requires "sub" in claims && Truthy(claims["sub"])
    ensures UserIdFromJwt(header + "." + EncodeUnpadded(claimBytes) + rest, dec) == Some(claims["sub"])
  {
    var mid := EncodeUnpadded(claimBytes);
    assert '.' !in mid by {
      assert SextetOf('.') == None;
    }
    SecondPiece(header, mid, rest, '.');
    B64DecodeRoundTrip(claimBytes);
  }

  /** Only the claims segment matters: two tokens whose piece at index 1 is
      the same give the same answer, whatever their headers and whatever
      follows the claims segment. */
  lemma OnlyClaimsSegmentMatters(h1: string, h2: string, mid: string, r1: string, r2: string,
                                 dec: Decoders)
    requires '.' !in h1 && '.' !in h2 && '.' !in mid
    requires r1 == [] || r1[0] == '.'
    requires r2 == [] || r2[0] == '.'
    ensures UserIdFromJwt(h1 + "." + mid + r1, dec) == UserIdFromJwt(h2 + "." + mid + r2, dec)
  {
    SecondPiece(h1, mid, r1, '.');
    SecondPiece(h2, mid, r2, '.');
  }

  /** A non-ASCII character in the claims segment makes `b64decode` raise
      before any decoding, so no subject is returned. */
  lemma NonAsciiClaimsNoUser(header: string, mid: string, rest: string, dec: Decoders)
    requires '.' !in header && '.' !in mid
    requires rest == [] || rest[0] == '.'
    requires !IsAscii(mid)
    ensures UserIdFromJwt(header + "." + mid + rest, dec) == None
  {
    SecondPiece(header, mid, rest, '.');
    var i :| 0 <= i < |mid| && mid[i] as int >= 128;
    assert (mid + "==")[i] == mid[i];
  }
}
