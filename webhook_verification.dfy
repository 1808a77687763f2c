/** `verifyShopifyWebhook`: the Express middleware that authenticates a
    Shopify webhook by recomputing base64(HMAC-SHA256(secret, rawBody))
    and comparing it with the `X-Shopify-Hmac-SHA256` header.

    The MAC and the JSON parser are library code; both are parameters
    here. `tag(key, message)` stands for base64(HMAC-SHA256) as defined by
    RFC 2104 with the alphabet of section 4 of RFC 4648, and `parse` for
    `JSON.parse`, `None` meaning that it throws. */
module WebhookVerification {
  import opened Options
  import opened JsStrings
  import opened Utf8
  import opened Http

  /** The header the signature travels in. */
  const HmacHeader := "X-Shopify-Hmac-SHA256"

  /** Where the chain stops. Every outcome but `Verified` answers the
      request itself and does not call `next`. */
  datatype Outcome<J> =
    | SecretNotConfigured
    | MissingHmac
    | InvalidHmac
    | BadRequest
    | Verified(body: J)
  {
    function StatusCode(): int {
      match this
      case SecretNotConfigured => 500
      case MissingHmac => 401
      case InvalidHmac => 401
      case BadRequest => 400
      case Verified(_) => 200
    }
  }

  /** `crypto.timingSafeEqual(a, b)`: throws (`None`) on buffers of
      different lengths, otherwise says whether they are equal. */
  function TimingSafeEqual(a: seq<byte>, b: seq<byte>): (r: Option<bool>)
    ensures r.None? <==> |a| != |b|
    ensures r == Some(true) <==> a == b
  {
    if |a| != |b| then None else Some(a == b)
  }

  /** The tag the middleware computes: the secret and the body are both
      UTF-8 encoded before they reach the MAC. */
  function ExpectedTag(tag: (seq<byte>, seq<byte>) -> string, secret: string, body: string): string {
    tag(Encode(secret), Encode(body))
  }

  /** `req.rawBody || ''`. */
  function BodyOrEmpty(rawBody: Option<string>): (r: string)
    ensures Truthy(rawBody) ==> r == rawBody.value
    ensures !Truthy(rawBody) ==> r == ""
  {
    if Truthy(rawBody) then rawBody.value else ""
  }

  /** The decision the middleware takes on the secret, the header and the
      captured body. */
  function Decide<J>(secret: Option<string>, header: Option<string>, rawBody: Option<string>,
                     tag: (seq<byte>, seq<byte>) -> string, parse: string -> Option<J>): (r: Outcome<J>)
    ensures r == SecretNotConfigured <==> !Truthy(secret)
    ensures r == MissingHmac <==> Truthy(secret) && !Truthy(header)
    ensures r == InvalidHmac <==>
      && Truthy(secret) && Truthy(header)
      && var expected := ExpectedTag(tag, secret.value, BodyOrEmpty(rawBody));
         |Encode(expected)| == |Encode(header.value)| && expected != header.value
    ensures r == BadRequest <==>
      && Truthy(secret) && Truthy(header)
      && var expected := ExpectedTag(tag, secret.value, BodyOrEmpty(rawBody));
         || |Encode(expected)| != |Encode(header.value)|
         || (expected == header.value && parse(BodyOrEmpty(rawBody)).None?)
    ensures r.Verified? <==>
      && Truthy(secret) && Truthy(header)
      && header.value == ExpectedTag(tag, secret.value, BodyOrEmpty(rawBody))
      && parse(BodyOrEmpty(rawBody)).Some?
    ensures r.Verified? ==> r.body == parse(BodyOrEmpty(rawBody)).value
  {
    if !Truthy(secret) then SecretNotConfigured
    else if !Truthy(header) then MissingHmac
    else
      var body := BodyOrEmpty(rawBody);
      var computed := ExpectedTag(tag, secret.value, body);
      match TimingSafeEqual(Encode(computed), Encode(header.value))
      case None => BadRequest
      case Some(false) => InvalidHmac
      case Some(true) =>
        EncodeInjective(computed, header.value);
        match parse(body)
        case None => BadRequest
        case Some(v) => Verified(v)
  }

  /** The middleware on a live request: on success it writes `req.body`
      and `req.verified` and calls `next`; on every other outcome it
      answers and leaves the request as it was. */
  method VerifyShopifyWebhook<J>(req: Request<J>, secret: Option<string>,
                                 tag: (seq<byte>, seq<byte>) -> string, parse: string -> Option<J>)
    returns (outcome: Outcome<J>, calledNext: bool)
    modifies req
    ensures outcome == Decide(secret, req.Header(HmacHeader), old(req.rawBody), tag, parse)
    ensures calledNext <==> outcome.Verified?
    ensures req.rawBody == old(req.rawBody)
    ensures outcome.Verified? ==> req.body == Some(outcome.body) && req.verified
    ensures !outcome.Verified? ==> req.body == old(req.body) && req.verified == old(req.verified)
  {
    var hmacHeader := req.Header(HmacHeader);
    var rawBody := BodyOrEmpty(req.rawBody);
    if !Truthy(secret) {
      return SecretNotConfigured, false;
    }
    if !Truthy(hmacHeader) {
      return MissingHmac, false;
    }
    var computedHmac := ExpectedTag(tag, secret.value, rawBody);
    var isValid := TimingSafeEqual(Encode(computedHmac), Encode(hmacHeader.value));
    if isValid.None? {
      return BadRequest, false;
    }
    if !isValid.value {
      return InvalidHmac, false;
    }
    var parsed := parse(rawBody);
    if parsed.None? {
      return BadRequest, false;
    }
    req.body := parsed;
    req.verified := true;
    return Verified(parsed.value), true;
  }

  // ---------------------------------------------------------------------
  // properties of the decision

  /** A sender holding the secret who signs exactly the bytes it sends is
      let through with that body parsed. */
  lemma GenuineSignatureAccepted<J>(secret: string, body: string,
                                   tag: (seq<byte>, seq<byte>) -> string, parse: string -> Option<J>)
    requires secret != [] && ExpectedTag(tag, secret, body) != []
    requires parse(body).Some?
    ensures Decide(Some(secret), Some(ExpectedTag(tag, secret, body)), Some(body), tag, parse)
         == Verified(parse(body).value)
  {
    assert BodyOrEmpty(Some(body)) == body;
  }

  /** A header that is not the tag of the body actually received is never
      accepted, whatever it is the tag of: a body altered after signing is
      refused as long as the MAC tells the two bodies apart. */
  lemma AlteredBodyRejected<J>(secret: string, signed: string, received: string,
                               tag: (seq<byte>, seq<byte>) -> string, parse: string -> Option<J>)
    requires ExpectedTag(tag, secret, signed) != ExpectedTag(tag, secret, received)
    ensures var r := Decide(Some(secret), Some(ExpectedTag(tag, secret, signed)), Some(received), tag, parse);
      !r.Verified? && r.StatusCode() in {400, 401, 500}
  {
    assert BodyOrEmpty(Some(received)) == received;
  }

  /** The secret is checked first: without it the answer is 500 whatever
      the header and the body. */
  lemma SecretCheckedFirst<J>(header: Option<string>, rawBody: Option<string>,
                              tag: (seq<byte>, seq<byte>) -> string, parse: string -> Option<J>)
    ensures Decide(None, header, rawBody, tag, parse).StatusCode() == 500
    ensures Decide(Some(""), header, rawBody, tag, parse).StatusCode() == 500
  {
  }

  /** A header whose UTF-8 length differs from the tag's makes the
      comparison throw, and the catch answers 400 rather than 401. */
  lemma LengthMismatchIsBadRequest<J>(secret: string, header: string, rawBody: Option<string>,
                                      tag: (seq<byte>, seq<byte>) -> string, parse: string -> Option<J>)
    requires secret != [] && header != []
    requires |Encode(header)| != |Encode(ExpectedTag(tag, secret, BodyOrEmpty(rawBody)))|
    ensures Decide(Some(secret), Some(header), rawBody, tag, parse).StatusCode() == 400
  {
  }

  /** `next` is called exactly when the header carries the tag of the body
      and the body parses; the body handed on is that parse. */
  lemma NextCalledIff<J>(secret: Option<string>, header: Option<string>, rawBody: Option<string>,
                         tag: (seq<byte>, seq<byte>) -> string, parse: string -> Option<J>)
    ensures Decide(secret, header, rawBody, tag, parse).Verified? <==>
      && secret.Some? && secret.value != []
      && header.Some? && header.value == ExpectedTag(tag, secret.value, BodyOrEmpty(rawBody))
      && header.value != []
      && parse(BodyOrEmpty(rawBody)).Some?
  {
  }
}
