/** The Shopify webhook routes mounted under `/api/webhooks`. The two
    Shopify routes run their handler only after `verifyShopifyWebhook`
    calls `next`; the health route is not guarded. The handlers read the
    waitlist and never write it. */
module WebhookRoutes {
  import opened Options
  import opened JsStrings
  import opened Utf8
  import opened WaitlistSchema
  import opened WaitlistRoutes
  import opened WebhookVerification

  /** A value `JSON.parse` can produce. */
  datatype Json =
    | JNull
    | JBool(b: bool)
    | JNumber(n: real)
    | JString(s: string)
    | JArray(items: seq<Json>)
    | JObject(fields: map<string, Json>)

  /** JavaScript truthiness of a JSON value, `None` standing for `undefined`. */
  predicate JsTruthy(v: Option<Json>) {
    match v
    case None => false
    case Some(JNull) => false
    case Some(JBool(b)) => b
    case Some(JNumber(n)) => n != 0.0
    case Some(JString(s)) => s != []
    case Some(_) => true
  }

  /** `v[key]` for a named (non-index) property on a value that is not
      `null`: only objects have such members. */
  function Member(v: Json, key: string): (r: Option<Json>)
    requires v != JNull
    ensures r.Some? <==> v.JObject? && key in v.fields
    ensures r.Some? ==> r.value == v.fields[key]
  {
    if v.JObject? && key in v.fields then Some(v.fields[key]) else None
  }

  /** `orderData.customer && orderData.customer.email`, as the value the
      handler branches on. */
  function CustomerEmail(order: Json): (r: Option<Json>)
    requires order != JNull
    ensures JsTruthy(r) ==>
      && Member(order, "customer").Some?
      && JsTruthy(Member(order, "customer"))
      && Member(order, "customer").value != JNull
      && r == Member(Member(order, "customer").value, "email")
    ensures (&& JsTruthy(Member(order, "customer"))
             && Member(order, "customer").value != JNull
             && JsTruthy(Member(Member(order, "customer").value, "email")))
      ==> JsTruthy(r)
  {
    var customer := Member(order, "customer");
    if JsTruthy(customer) then Member(customer.value, "email") else customer
  }

  /** `Waitlist.find({ email })`: the filter value goes through the email
      path's `lowercase` and `trim` setters, so the lookup finds the entries
      whose stored email is the normalised `email`. */
  function EntriesForEmail(m: Store, email: string): (ids: set<Id>)
    ensures forall k :: k in ids <==> k in m && m[k].email == NormalizeEmail(email)
  {
    var key := NormalizeEmail(email);
    set k | k in m && m[k].email == key
  }

  /** What a webhook handler answers. */
  datatype Reply =
    | Processed(message: string)
    | Failed(message: string)
  {
    function StatusCode(): int { if Processed? then 200 else 500 }
  }

  /** `TypeError` raised by reading `.id` of a `null` body. */
  const NullBodyError := "Cannot read properties of null (reading 'id')"

  /** The `order/created` handler: its answer, and the entries its lookup
      found (`None` when no lookup ran). `storeError` is the message of a
      failing `find`, `None` when the store answers. */
  datatype OrderResult = OrderResult(reply: Reply, lookedUp: Option<set<Id>>)

  function OrderCreated(m: Store, order: Json, storeError: Option<string>): (r: OrderResult)
    ensures order == JNull ==> r == OrderResult(Failed(NullBodyError), None)
    ensures order != JNull ==>
      && (r.lookedUp.Some? <==> JsTruthy(CustomerEmail(order)) && storeError.None?)
      && (r.reply.Failed? <==> JsTruthy(CustomerEmail(order)) && storeError.Some?)
    ensures r.lookedUp.Some? && CustomerEmail(order).value.JString? ==>
      r.lookedUp.value == EntriesForEmail(m, CustomerEmail(order).value.s)
    ensures r.reply.Processed? ==> r.reply.message == "Webhook processed successfully"
    ensures order != JNull && JsTruthy(CustomerEmail(order)) && storeError.Some? ==>
      r.reply == Failed(storeError.value)
  {
    if order == JNull then OrderResult(Failed(NullBodyError), None)
    else
      var email := CustomerEmail(order);
      if !JsTruthy(email) then OrderResult(Processed("Webhook processed successfully"), None)
      else if storeError.Some? then OrderResult(Failed(storeError.value), None)
      else
        var found := if email.value.JString? then EntriesForEmail(m, email.value.s) else {};
        OrderResult(Processed("Webhook processed successfully"), Some(found))
  }

  /** The `customer/created` handler: it only reads `customerData.id`. */
  function CustomerCreated(customer: Json): (r: Reply)
    ensures r.Failed? <==> customer == JNull
    ensures r.Failed? ==> r.message == NullBodyError
    ensures r.Processed? ==> r.message == "Customer webhook processed successfully"
  {
    if customer == JNull then Failed(NullBodyError)
    else Processed("Customer webhook processed successfully")
  }

  /** `/health`: always healthy, stamped with the current time. */
  datatype HealthReply = HealthReply(success: bool, message: string, timestamp: int)

  function Health(now: int): (r: HealthReply)
    ensures r.success && r.timestamp == now
  {
    HealthReply(true, "Webhook endpoint is healthy", now)
  }

  /** The status of a Shopify route: the middleware's own answer, or the
      handler's when it calls `next`. */
  function GuardedStatus(outcome: Outcome<Json>, handlerStatus: Json -> int): (code: int)
    ensures outcome.Verified? ==> code == handlerStatus(outcome.body)
    ensures !outcome.Verified? ==> code == outcome.StatusCode()
  {
    if outcome.Verified? then handlerStatus(outcome.body) else outcome.StatusCode()
  }

  /** `POST /shopify/order/created`: verification, then the handler. */
  function OrderRoute(m: Store, secret: Option<string>, header: Option<string>, rawBody: Option<string>,
                      tag: (seq<byte>, seq<byte>) -> string, parse: string -> Option<Json>,
                      storeError: Option<string>): (r: Option<OrderResult>)
    ensures r.Some? <==> Decide(secret, header, rawBody, tag, parse).Verified?
    ensures r.Some? ==> r.value == OrderCreated(m, Decide(secret, header, rawBody, tag, parse).body, storeError)
  {
    var outcome := Decide(secret, header, rawBody, tag, parse);
    if outcome.Verified? then Some(OrderCreated(m, outcome.body, storeError)) else None
  }

  /** `POST /shopify/customer/created`: verification, then the handler. */
  function CustomerRoute(secret: Option<string>, header: Option<string>, rawBody: Option<string>,
                         tag: (seq<byte>, seq<byte>) -> string, parse: string -> Option<Json>): (r: Option<Reply>)
    ensures r.Some? <==> Decide(secret, header, rawBody, tag, parse).Verified?
    ensures r.Some? ==> r.value == CustomerCreated(Decide(secret, header, rawBody, tag, parse).body)
  {
    var outcome := Decide(secret, header, rawBody, tag, parse);
    if outcome.Verified? then Some(CustomerCreated(outcome.body)) else None
  }

  // ---------------------------------------------------------------------
  // properties

  /** An order for an email with no entry is still answered with success;
      the lookup then finds nothing. */
  lemma NoMatchIsNotAnError(m: Store, order: Json, email: string)
    requires order != JNull && CustomerEmail(order) == Some(JString(email)) && email != []
    requires forall k :: k in m ==> m[k].email != NormalizeEmail(email)
    ensures OrderCreated(m, order, None) == OrderResult(Processed("Webhook processed successfully"), Some({}))
  {
    assert EntriesForEmail(m, email) == {};
  }

  /** The lookup depends only on the stored form of the order's email:
      asking with the raw string or with its normalised form finds the
      same entries. */
  lemma LookupIgnoresCaseAndPadding(m: Store, email: string)
    ensures EntriesForEmail(m, email) == EntriesForEmail(m, NormalizeEmail(email))
  {
    NormalizeNormalized(NormalizeEmail(email));
  }

  /** An order whose customer email is a stored address in any letter case,
      padded with whitespace, finds that entry. */
  lemma CaseVariantOrderFindsEntry(m: Store, k: Id, order: Json, pre: string, v: string, post: string)
    requires k in m && WellFormed(m[k])
    requires AllWhitespace(pre) && AllWhitespace(post) && ToLower(v) == m[k].email
    requires order != JNull && CustomerEmail(order) == Some(JString(pre + v + post))
    ensures OrderCreated(m, order, None).lookedUp.Some?
    ensures k in OrderCreated(m, order, None).lookedUp.value
  {
    var email := pre + v + post;
    CaseVariantFindsEntry(m, k, pre, v, post);
    assert IsValidEmail(m[k].email);
    assert |email| >= |v| == |ToLower(v)| > 0;
    assert JsTruthy(CustomerEmail(order));
  }

  lemma CaseVariantFindsEntry(m: Store, k: Id, pre: string, v: string, post: string)
    requires k in m && WellFormed(m[k])
    requires AllWhitespace(pre) && AllWhitespace(post) && ToLower(v) == m[k].email
    ensures k in EntriesForEmail(m, pre + v + post)
  {
    NormalizePadded(pre, v, post);
  }

  /** A forged order never reaches the store: without a valid signature
      the handler does not run, so no lookup happens. */
  lemma UnverifiedOrderNeverLooksUp(m: Store, secret: Option<string>, header: Option<string>,
                                    rawBody: Option<string>, tag: (seq<byte>, seq<byte>) -> string,
                                    parse: string -> Option<Json>, storeError: Option<string>)
    requires !Decide(secret, header, rawBody, tag, parse).Verified?
    ensures OrderRoute(m, secret, header, rawBody, tag, parse, storeError) == None
    ensures GuardedStatus(Decide(secret, header, rawBody, tag, parse),
                          body => OrderCreated(m, body, storeError).reply.StatusCode()) in {400, 401, 500}
  {
  }
}
