/** The parts of the Express application in `backend/server.js` that
    decide what the webhook routes see and how unhandled requests are
    answered: the raw-body capture middleware, the error handler and the
    catch-all 404 handler. */
module Server {
  import opened Options
  import opened JsStrings
  import opened Utf8
  import opened Http
  import opened WebhookVerification

  /** The prefix whose requests have their body captured. */
  const CapturePrefix := "/api/webhooks/shopify"

  /** Whether the capture middleware buffers this request's body. */
  predicate ShouldCapture(path: string): (b: bool)
    ensures b ==> |path| >= |CapturePrefix| && path[..|CapturePrefix|] == CapturePrefix
    ensures forall k :: 0 <= k < |CapturePrefix| && k < |path| && path[k] != CapturePrefix[k] ==> !b
    ensures |path| >= |CapturePrefix| && path[..|CapturePrefix|] == CapturePrefix ==> b
  {
    StartsWith(path, CapturePrefix)
  }

  /** What the capture middleware builds, as written: each `data` chunk is
      decoded on its own (`chunk.toString('utf8')`) and the decoded
      strings are concatenated in arrival order. */
  function DecodedChunks(chunks: seq<seq<byte>>): (r: string)
    ensures |r| <= |Flatten(chunks)|
  {
    if chunks == [] then []
    else DecodedChunks(chunks[..|chunks| - 1]) + Decode(chunks[|chunks| - 1])
  }

  /** The raw-body capture middleware run to the stream's `end` event,
      `chunks` being the `data` events in order. On a captured path
      `req.rawBody` becomes the decoded chunks; on any other path it is
      left alone. `next` is called once in both cases, after the loop. */
  method CaptureRawBody<J>(req: Request<J>, chunks: seq<seq<byte>>)
    modifies req
    ensures ShouldCapture(req.path) ==> req.rawBody == Some(DecodedChunks(chunks))
    ensures !ShouldCapture(req.path) ==> req.rawBody == old(req.rawBody)
    ensures req.body == old(req.body) && req.verified == old(req.verified)
  {
    if ShouldCapture(req.path) {
      var data := "";
      var i := 0;
      while i < |chunks|
        invariant 0 <= i <= |chunks|
        invariant data == DecodedChunks(chunks[..i])
      {
        assert chunks[..i + 1][..i] == chunks[..i];
        data := data + Decode(chunks[i]);
        i := i + 1;
      }
      assert chunks[..|chunks|] == chunks;
      req.rawBody := Some(data);
    }
  }

  /** Capture as intended: the chunks are joined first and the whole body
      decoded once, so a character split across two chunks survives. */
  function CapturedBody(chunks: seq<seq<byte>>): string {
    Decode(Flatten(chunks))
  }

  /** The capture middleware with that correction: the `data` handler
      appends raw bytes and the `end` handler decodes them once. */
  method CaptureRawBodyWhole<J>(req: Request<J>, chunks: seq<seq<byte>>)
    modifies req
    ensures ShouldCapture(req.path) ==> req.rawBody == Some(CapturedBody(chunks))
    ensures !ShouldCapture(req.path) ==> req.rawBody == old(req.rawBody)
    ensures req.body == old(req.body) && req.verified == old(req.verified)
  {
    if ShouldCapture(req.path) {
      var data: seq<byte> := [];
      var i := 0;
      while i < |chunks|
        invariant 0 <= i <= |chunks|
        invariant data == Flatten(chunks[..i])
      {
        assert chunks[..i + 1][..i] == chunks[..i];
        data := data + chunks[i];
        i := i + 1;
      }
      assert chunks[..|chunks|] == chunks;
      req.rawBody := Some(Decode(data));
    }
  }

  /** The corrected capture hands the verifier exactly the bytes that were
      sent: re-encoding the captured string gives back the concatenated
      chunks, whenever they are the UTF-8 encoding of some string. */
  lemma CapturedBodyExact(chunks: seq<seq<byte>>, sent: string)
    requires Flatten(chunks) == Encode(sent)
    ensures CapturedBody(chunks) == sent
    ensures Encode(CapturedBody(chunks)) == Flatten(chunks)
  {
    DecodeEncode(sent);
  }

  /** The capture as written is exact when no character straddles a chunk
      boundary: each chunk is the encoding of a string of its own. */
  lemma {:induction false} DecodedChunksAlignedExact(chunks: seq<seq<byte>>, parts: seq<string>)
    requires |parts| == |chunks|
    requires forall k :: 0 <= k < |chunks| ==> chunks[k] == Encode(parts[k])
    ensures DecodedChunks(chunks) == Concat(parts)
    ensures Encode(DecodedChunks(chunks)) == Flatten(chunks)
  {
    if chunks != [] {
      var n := |chunks| - 1;
      DecodedChunksAlignedExact(chunks[..n], parts[..n]);
      DecodeEncode(parts[n]);
      EncodeAppend(Concat(parts[..n]), parts[n]);
    }
  }

  /** The concatenation of a sequence of strings. */
  function Concat(parts: seq<string>): string {
    if parts == [] then [] else Concat(parts[..|parts| - 1]) + parts[|parts| - 1]
  }

  /** The capture as written loses a character that straddles two chunks:
      "é" (C3 A9) delivered as two one-byte chunks becomes two replacement
      characters, so the verifier MACs different bytes than were signed. */
  lemma SplitCharacterCorrupted()
    ensures DecodedChunks([[0xC3], [0xA9]]) == [Replacement, Replacement]
    ensures CapturedBody([[0xC3], [0xA9]]) == "é"
    ensures Encode(DecodedChunks([[0xC3], [0xA9]])) != Flatten([[0xC3], [0xA9]])
  {
    var chunks: seq<seq<byte>> := [[0xC3], [0xA9]];
    assert chunks[..1] == [[0xC3]];
    assert chunks[..1][..0] == [];
    assert DecodeOne([0xC3]) == (Replacement, 1);
    assert DecodeOne([0xA9]) == (Replacement, 1);
    assert Decode([0xC3]) == [Replacement];
    assert Decode([0xA9]) == [Replacement];
    assert Flatten(chunks) == [0xC3, 0xA9];
    assert DecodeOne([0xC3, 0xA9]) == ('é', 2);
    assert Decode([0xC3, 0xA9]) == "é";
    assert |Encode([Replacement, Replacement])| == 6;
  }

  /** The `/api/webhooks/health` route lies outside the prefix and never
      gets a raw body; a longer path sharing the prefix does. */
  lemma CapturePrefixExamples()
    ensures !ShouldCapture("/api/webhooks/health")
    ensures ShouldCapture("/api/webhooks/shopify/order/created")
    ensures ShouldCapture("/api/webhooks/shopifyX")
  {
  }

  /** A Shopify webhook request through the application: the (corrected)
      capture middleware, then `verifyShopifyWebhook` on the route. The
      verifier sees the body exactly as the capture decoded it. */
  method ReceiveShopifyWebhook<J>(req: Request<J>, chunks: seq<seq<byte>>, secret: Option<string>,
                                  tag: (seq<byte>, seq<byte>) -> string, parse: string -> Option<J>)
    returns (outcome: Outcome<J>, calledNext: bool)
    requires ShouldCapture(req.path)
    modifies req
    ensures req.rawBody == Some(CapturedBody(chunks))
    ensures outcome == Decide(secret, req.Header(HmacHeader), Some(CapturedBody(chunks)), tag, parse)
    ensures calledNext <==> outcome.Verified?
    ensures outcome.Verified? ==> req.body == Some(outcome.body) && req.verified
  {
    CaptureRawBodyWhole(req, chunks);
    outcome, calledNext := VerifyShopifyWebhook(req, secret, tag, parse);
  }

  /** With the corrected capture, a sender that signs the body it sends is
      accepted however the transport splits that body into chunks. */
  lemma GenuineDeliveryAccepted<J>(chunks: seq<seq<byte>>, sent: string, secret: string,
                                   tag: (seq<byte>, seq<byte>) -> string, parse: string -> Option<J>)
    requires Flatten(chunks) == Encode(sent)
    requires secret != [] && ExpectedTag(tag, secret, sent) != [] && parse(sent).Some?
    ensures Decide(Some(secret), Some(ExpectedTag(tag, secret, sent)), Some(CapturedBody(chunks)), tag, parse)
         == Verified(parse(sent).value)
  {
    CapturedBodyExact(chunks, sent);
    GenuineSignatureAccepted(secret, sent, tag, parse);
  }

  // ---------------------------------------------------------------------
  // error and 404 shaping

  /** The JSON answer of the error and 404 handlers. */
  datatype ErrorReply = ErrorReply(status: int, success: bool, error: string,
                                   message: Option<string>, path: Option<string>)

  /** The error handler: 500, and the error's message only when
      `NODE_ENV` is `development`. */
  function ErrorHandler(nodeEnv: Option<string>, errorMessage: string): (r: ErrorReply)
    ensures r.status == 500 && !r.success && r.error == "Internal server error" && r.path == None
    ensures r.message.Some? <==> nodeEnv == Some("development")
    ensures r.message.Some? ==> r.message.value == errorMessage
  {
    ErrorReply(500, false, "Internal server error",
               if nodeEnv == Some("development") then Some(errorMessage) else None, None)
  }

  /** The catch-all handler for unmatched routes: 404 naming the path. */
  function NotFoundHandler(path: string): (r: ErrorReply)
    ensures r.status == 404 && !r.success && r.error == "Route not found"
    ensures r.path == Some(path) && r.message == None
  {
    ErrorReply(404, false, "Route not found", None, Some(path))
  }
}
