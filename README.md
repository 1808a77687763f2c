# Limited-edition waitlist backend — a Dafny model

This project models the server side of a limited-edition product waitlist. Customers join a per-product waitlist. Administrators list, approve, reject and delete entries. Shopify notifies the server of new orders and customers through HMAC-signed webhooks.

The model covers the parts of the Express/Mongoose backend that take decisions:

- **Entry schema** (`WaitlistSchema`, `waitlist_schema.dfy`)
  - The string setters: `lowercase`, then `trim`.
  - The validators: the email regular expression, the product-id pattern, the name length in UTF-16 code units, and the status enum.
  - The validation messages.
  - The pre-save hook. It is a `Document` class whose `PreSave` method updates `updatedAt` and `approvedAt` in place.
- **Waitlist routes** (`WaitlistRoutes`, `waitlist_routes.dfy`)
  - The MongoDB collection becomes a `WaitlistStore` class holding a `map<Id, Entry>`.
  - Create, status update and delete are methods that change that map. Create and status update are proved against pure specification functions (`CreateSpec`, `UpdateSpec`). Delete states its effect on the map directly.
  - The list query (filter, newest first, skip/limit, page count) and the per-status statistics are read-only methods. Their loops carry invariants.
  - A store invariant holds across every change: each entry well formed, emails unique across the whole collection, identifiers below the counter.
- **Webhook verification** (`WebhookVerification`, `webhook_verification.dfy`)
  - The decision chain of `verifyShopifyWebhook`, as the total function `Decide`.
  - The middleware as a method that writes `req.body` and `req.verified` only on success.
  - The MAC, base64(HMAC-SHA256) of RFC 2104 with the alphabet of section 4 of RFC 4648, is the parameter `tag`.
  - `JSON.parse` is the parameter `parse`. It returns `None` where the parser throws.
- **Webhook routes** (`WebhookRoutes`, `webhook_routes.dfy`)
  - The `order/created` handler: a lookup of entries by the customer's email, cast through the email path's setters as Mongoose casts query filters.
  - The `customer/created` and `health` handlers.
  - The composition of the two Shopify routes with the verifier.
- **Server plumbing** (`Server`, `server.dfy`)
  - The raw-body capture middleware, as a loop over the `data` chunks.
  - The error handler and the 404 handler.
- **Support modules** (`options.dfy`, `js_strings.dfy`, `utf8.dfy`, `http.dfy`) give JavaScript's `trim`, ASCII `toLowerCase`, truthiness and `.length`. They also give UTF-8 as Node encodes and decodes it, and the request object.

Time is a parameter `now`. The secret, the `NODE_ENV` value and store failures are also parameters.

## Model

| member | source | states |
|---|---|---|
| JsStrings.Trim | backend/models/Waitlist.js:10 | the result has no leading or trailing whitespace (the full JavaScript `\s` set) and is `s` with only whitespace removed around it |
| JsStrings.TrimOfTrimmed | backend/models/Waitlist.js:23 | trimming an already trimmed string changes nothing |
| JsStrings.SplitAtTrim | backend/models/Waitlist.js:10 | every string is its trim with only whitespace before and after it |
| JsStrings.TrimIdempotent | backend/models/Waitlist.js:23 | trimming twice gives the same string as trimming once |
| JsStrings.TrimPadded | backend/models/Waitlist.js:10 | trimming a trimmed string padded with whitespace on either side gives that string back |
| JsStrings.ToLower | backend/models/Waitlist.js:9 | same length, each character lower-cased on its own: `A`–`Z` become the same letter of `a`–`z` (code point + 32), whitespace stays whitespace, and every other character is kept |
| JsStrings.ToLowerAppend | backend/models/Waitlist.js:9 | lower-casing distributes over concatenation and keeps whitespace whitespace |
| JsStrings.ToLowerOfLower | backend/models/Waitlist.js:9 | lower-casing a string without upper-case letters changes nothing |
| JsStrings.Utf16Length | backend/models/Waitlist.js:33-34 | the `.length` used by `minlength`/`maxlength`: one character is one unit below U+10000 and two at or above it; with `Utf16LengthAppend` the length of any string is the sum over its characters |
| JsStrings.Utf16LengthAppend | backend/models/Waitlist.js:33-34 | the length of a concatenation is the sum of the two lengths |
| JsStrings.AstralCharIsTwoUnits | backend/models/Waitlist.js:33 | an emoji counts two units, so a one-emoji name passes `minlength: 2` |
| Utf8.Encode | backend/middleware/shopifyWebhookVerification.js:53 | UTF-8 encoding takes 1 to 4 bytes per character |
| Utf8.Decode | backend/server.js:32 | `toString('utf8')` yields at most one character per byte |
| Utf8.DecodeEncode | backend/middleware/shopifyWebhookVerification.js:53 | decoding the UTF-8 encoding of a string gives the string back |
| Utf8.DecodeOneEncodeChar | backend/server.js:32 | the bytes of one character decode to that character and consume exactly its bytes, whatever follows |
| Utf8.EncodeAppend | backend/server.js:32 | encoding distributes over concatenation |
| Utf8.EncodeInjective | backend/middleware/shopifyWebhookVerification.js:58-61 | equal encodings come from equal strings, so a byte comparison is a string comparison |
| Http.Request.Header | backend/middleware/shopifyWebhookVerification.js:23 | `req.get(name)` finds a header whatever the case of `name`, and is absent exactly when no such header was sent |
| WaitlistSchema.ParseStatus | backend/models/Waitlist.js:38-45 | a status is accepted exactly when its name is one of the three enum values |
| WaitlistSchema.ParseName | backend/models/Waitlist.js:38-45 | each status is accepted under its own name |
| WaitlistSchema.EmailCheckMatchesRegex | backend/models/Waitlist.js:11-14 | the email scan accepts exactly the language of `/^[^\s@]+@[^\s@]+\.[^\s@]+$/` |
| WaitlistSchema.NormalizeEmail | backend/models/Waitlist.js:9-10 | the stored email is trimmed and free of upper-case letters |
| WaitlistSchema.NormalizeNormalized | backend/models/Waitlist.js:9-10 | normalising a stored email changes nothing |
| WaitlistSchema.NormalizePadded | backend/models/Waitlist.js:9-10 | an email in any letter case, padded with whitespace, is stored as its lower-case form without the padding |
| WaitlistSchema.ValidProductIdTrimmed | backend/models/Waitlist.js:23-24 | a product id that passes the pattern has no whitespace at its ends |
| WaitlistSchema.EmailPath | backend/models/Waitlist.js:6-17 | the email path is set exactly when a value was given, and then holds that value trimmed and lower-cased, which is a normalised email |
| WaitlistSchema.TrimPath | backend/models/Waitlist.js:32 | a `trim` path is set exactly when a value was given, and then holds the given value with only its leading and trailing whitespace removed |
| WaitlistSchema.CheckEmail | backend/models/Waitlist.js:8-14 | no email error iff the email is present and matches; "required" iff it is absent or empty; the format message iff it is present, non-empty and does not match |
| WaitlistSchema.CheckProductId | backend/models/Waitlist.js:20-26 | no product-id error iff present and matching `/^[a-zA-Z0-9_-]{1,50}$/`; "required" iff absent or empty; the format message iff present, non-empty and not matching |
| WaitlistSchema.CheckName | backend/models/Waitlist.js:29-35 | no name error iff present with 2..100 UTF-16 units; each of required/too short/too long iff its condition |
| WaitlistSchema.Validate | backend/models/Waitlist.js:3-35 | no validation error iff all three fields are present and valid; the errors are exactly the failing fields' checks, one per failing field; an email error, when there is one, comes first and a name error, when there is one, comes last |
| WaitlistSchema.HookApprovedAt | backend/models/Waitlist.js:83-85 | an existing stamp is never moved or cleared; a missing one is set iff the status is Approved, and only to `now` |
| WaitlistSchema.HookStampsOnce | backend/models/Waitlist.js:81-87 | saving again never changes the stamp an earlier save left |
| WaitlistSchema.Document.constructor | backend/routes/waitlist.js:106-112 | a new document holds the path values its setters produced (the caller passes `EmailPath`/`TrimPath` of the request fields), with both timestamps `now` and no approval stamp |
| WaitlistSchema.Document.PreSave | backend/models/Waitlist.js:81-87 | the hook sets `updatedAt` to `now`, applies the stamp rule to `approvedAt`, and changes nothing else |
| WaitlistSchema.Document.ToEntry | backend/routes/waitlist.js:115 | a document that passed validation is stored as built: the entry carries the document's email, product id, name, customer id, status and three timestamps under the given id, and its email, product id and name are valid |
| WaitlistRoutes.Messages | backend/routes/waitlist.js:130 | the `details` array holds one message per validation error, in order |
| WaitlistRoutes.CreateSpec | backend/routes/waitlist.js:92-152 | the outcome of POST / on a given store, identifier and clock; its meaning is stated by `CreateOutcomes` |
| WaitlistRoutes.PairExists | backend/routes/waitlist.js:97 | the `findOne({ email, productId })` lookup, with both filter values cast through their paths' setters |
| WaitlistRoutes.PairLookupUsesSetters | backend/routes/waitlist.js:97 | the duplicate lookup gives the same answer for the raw fields as for their setter-applied forms |
| WaitlistRoutes.EmailTaken | backend/routes/waitlist.js:138-144 | the clash with the unique email index that `save()` reports as error 11000 |
| WaitlistRoutes.CreateOutcomes | backend/routes/waitlist.js:92-152 | the four outcomes of POST: duplicate pair iff a stored entry has the lower-cased, trimmed email and the trimmed product id; validation failure iff no duplicate and the normalised fields fail, with `details` the messages of exactly those failures; email clash only for an already stored email; otherwise a Pending entry with the normalised fields, a `null` customer id when none was given, and timestamps `now` |
| WaitlistRoutes.CreatedEntryWellFormed | backend/routes/waitlist.js:106-115 | every entry a create produces is well formed |
| WaitlistRoutes.InsertKeepsStoreValid | backend/models/Waitlist.js:15 | inserting a well-formed entry with an email not yet stored keeps emails unique across the whole collection |
| WaitlistRoutes.TakenEmailRefused | backend/routes/waitlist.js:138-144 | a create whose normalised email is already stored, for any product, is refused with 400 |
| WaitlistRoutes.RepeatedCreateIsDuplicate | backend/routes/waitlist.js:97-103 | repeating any successful create, with the same body, hits the duplicate-pair check |
| WaitlistRoutes.PaddedRepeatIsDuplicate | backend/routes/waitlist.js:97-103 | a request naming a stored pair, its email in any letter case and either field padded with whitespace, is refused as already on the waitlist |
| WaitlistRoutes.StoredEmailsNormalized | backend/models/Waitlist.js:9-10 | every email in a valid store is normalised |
| WaitlistRoutes.UpdateSpec | backend/routes/waitlist.js:161-208 | 400 iff the status is missing or not an enum value; else 404 iff the id is unknown; else the entry with the new status, `updatedAt = now`, and `approvedAt = now` exactly when approving, other fields unchanged |
| WaitlistRoutes.UpdateKeepsStoreValid | backend/routes/waitlist.js:175-183 | a status update keeps every store invariant |
| WaitlistRoutes.ApproveThenReject | backend/routes/waitlist.js:175-183 | approving then rejecting leaves the first approval time in place with status Rejected |
| WaitlistRoutes.RouteRestampsApproval | backend/routes/waitlist.js:180 | re-approving through the route moves `approvedAt` to the new time, where the save hook would have kept the old one |
| WaitlistRoutes.UnknownStatusRefused | backend/routes/waitlist.js:166-172 | every status outside the enum is refused with 400 whether or not the id exists |
| WaitlistRoutes.UnknownStatusExamples | backend/routes/waitlist.js:166-172 | "Archived", the empty string and "approved" are all refused with 400 |
| WaitlistRoutes.InsertNewestFirst | backend/routes/waitlist.js:28 | insertion adds exactly one occurrence of the new identifier and keeps every listed identifier in the store |
| WaitlistRoutes.InsertKeepsNewestFirst | backend/routes/waitlist.js:28 | insertion keeps a list sorted by `createdAt`, newest first |
| WaitlistRoutes.ConsNewestFirst | backend/routes/waitlist.js:28 | an entry no older than any in a newest-first list may head it |
| WaitlistRoutes.InsertNoNewerThan | backend/routes/waitlist.js:28 | inserting an entry no newer than a bound keeps a list under that bound |
| WaitlistRoutes.SelectNewestFirst | backend/routes/waitlist.js:27-28 | the result lists every entry matching the filter exactly once, newest first |
| WaitlistRoutes.Take | backend/routes/waitlist.js:30 | `.limit(0)` returns everything; any other limit returns the lesser of the available count and the limit's absolute value |
| WaitlistRoutes.Window | backend/routes/waitlist.js:29-30 | the page is the ordered entries from `skip` on, as many as the limit lets through, empty past the end |
| WaitlistRoutes.Pages | backend/routes/waitlist.js:42 | `Math.ceil(total / limit)`: the least page count covering `total` for a positive limit, its negative counterpart for a negative one, `null` for 0 |
| WaitlistRoutes.StatusCountsPartition | backend/routes/waitlist.js:249-258 | the three per-status counts add up to the number of entries |
| WaitlistRoutes.CountStep | backend/routes/waitlist.js:264-267 | counting one more entry under its status keeps the counts exact |
| WaitlistRoutes.IdsWithStatusStep | backend/routes/waitlist.js:251-254 | one more key joins the group of its own status and no other |
| WaitlistRoutes.CountsSumToTotal | backend/routes/waitlist.js:258-268 | with every entry counted, the three counts sum to the total |
| WaitlistRoutes.CountByStatus | backend/routes/waitlist.js:249-268 | `total` is the entry count; a status has a key iff some entry has it, and its value is that number of entries; the counts sum to `total` |
| WaitlistRoutes.InsertKeepsInvariant | backend/routes/waitlist.js:115 | a fresh, well-formed entry with a new email keeps the store invariant and advances the counter |
| WaitlistRoutes.CreateKeepsInvariant | backend/routes/waitlist.js:115 | committing a successful create keeps the store invariant |
| WaitlistRoutes.UpdateKeepsInvariant | backend/routes/waitlist.js:175-183 | committing a successful update keeps the store invariant |
| WaitlistRoutes.DeleteKeepsInvariant | backend/routes/waitlist.js:216 | removing an entry keeps the store invariant |
| WaitlistRoutes.CustomerIdArg | backend/routes/waitlist.js:110 | `shopifyCustomerId || null`: the customer id is kept exactly when it is a non-empty string, otherwise it becomes null |
| WaitlistRoutes.HandleCreate | backend/routes/waitlist.js:92-152 | the create handler (pair lookup, `new Waitlist` with its setters, validation, save hook, unique index) computes exactly `CreateSpec` on the store it reads |
| WaitlistRoutes.WaitlistStore.Get | backend/routes/waitlist.js:60-81 | GET /:id finds an entry iff the id is stored (200); the status is 404 exactly when the id is unknown |
| WaitlistRoutes.WaitlistStore.Create | backend/routes/waitlist.js:92-152 | the store changes only on success, by inserting the new entry under the next id, and the store invariant is kept |
| WaitlistRoutes.IsAcceptedStatus | backend/routes/waitlist.js:166-167 | a status is accepted exactly when it is present and is the name of one of the three statuses |
| WaitlistRoutes.WaitlistStore.UpdateStatus | backend/routes/waitlist.js:161-208 | 400 iff the status is missing or not one of the three; otherwise 404 iff the id is unknown, else 200; the store changes only on success, at that id only, to `UpdateSpec`'s entry, and the invariant is kept |
| WaitlistRoutes.WaitlistStore.Delete | backend/routes/waitlist.js:214-241 | 404 iff the id is unknown; otherwise the removed entry is returned, only it leaves the store, and a later GET gives 404 |
| WaitlistRoutes.ListQuery.Skip | backend/routes/waitlist.js:24 | skip is 0 on the first page (or when no page is given); it is negative exactly when the page is below 1 with a positive limit or above 1 with a negative limit, the case in which the query fails with 500; for a positive limit and page of at least 1 it is at least page - 1; it is 0 for limit 0, so `?limit=0` returns every match on any page; `SkipStep` pins its value for every page and limit |
| WaitlistRoutes.SkipStep | backend/routes/waitlist.js:24 | for every limit of any sign, page 1 skips 0 and page p + 1 skips `limit` more than page p, so skip is `(page - 1) * limit` |
| WaitlistRoutes.PagesUpToPrefix | backend/routes/waitlist.js:24-30 | with a positive limit, pages 1 to n together are the first n × limit entries of the ordering (all of them past the end): each page starts where the previous ended |
| WaitlistRoutes.WindowIsSlice | backend/routes/waitlist.js:29-30 | one page is the slice of the whole ordering from `skip` to `skip + limit`, clipped to its end |
| WaitlistRoutes.PagesCoverSelection | backend/routes/waitlist.js:24-43 | with a positive limit, walking pages 1 to `pages` returns every filtered entry exactly once, in newest-first order |
| WaitlistRoutes.MatchesFilter | backend/routes/waitlist.js:19-21 | an entry matches iff a given (non-empty) status is the entry's status and a given product id, after `trim`, equals the entry's; with neither given every entry matches |
| WaitlistRoutes.WaitlistStore.List | backend/routes/waitlist.js:14-54 | 500 iff the computed skip is negative; otherwise the page of the newest-first filtered entries (status as given, product id after its `trim` setter), with page/limit defaults 1 and 10, the total of all matches and the page count |
| WaitlistRoutes.WaitlistStore.Stats | backend/routes/waitlist.js:247-279 | the counts of `CountByStatus` over the stored entries |
| WebhookVerification.TimingSafeEqual | backend/middleware/shopifyWebhookVerification.js:58-61 | throws iff the buffers differ in length, otherwise true iff they are equal |
| WebhookVerification.ExpectedTag | backend/middleware/shopifyWebhookVerification.js:51-54 | the tag the middleware computes: the MAC of the UTF-8 secret over the UTF-8 body |
| WebhookVerification.BodyOrEmpty | backend/middleware/shopifyWebhookVerification.js:26 | an absent or empty raw body counts as the empty string |
| WebhookVerification.Decide | backend/middleware/shopifyWebhookVerification.js:20-79 | 500 iff the secret is missing; else 401 iff the header is missing; else 400 iff the header's UTF-8 length differs from the tag's, or it is the tag but the body does not parse; else 401 iff it is not the tag; else verified with the parse of exactly the signed body |
| WebhookVerification.VerifyShopifyWebhook | backend/middleware/shopifyWebhookVerification.js:20-79 | the middleware decides as `Decide` on the request's header and raw body; `next` is called iff verified; only then are `req.body` and `req.verified` written |
| WebhookVerification.GenuineSignatureAccepted | backend/middleware/shopifyWebhookVerification.js:51-73 | a header carrying the tag of the body sent, under the configured secret, is accepted with that body parsed |
| WebhookVerification.AlteredBodyRejected | backend/middleware/shopifyWebhookVerification.js:58-66 | a signature over another body is never accepted when the MAC distinguishes the two bodies |
| WebhookVerification.SecretCheckedFirst | backend/middleware/shopifyWebhookVerification.js:29-39 | without a secret the answer is 500 whatever the header and body |
| WebhookVerification.LengthMismatchIsBadRequest | backend/middleware/shopifyWebhookVerification.js:58-61 | a header of another byte length than the tag gets 400, not 401 |
| WebhookVerification.NextCalledIff | backend/middleware/shopifyWebhookVerification.js:31-73 | `next` runs iff secret and header are non-empty, the header equals the tag and the body parses |
| WebhookRoutes.Member | backend/routes/webhooks.js:19 | a named property exists only on an object that has that key |
| WebhookRoutes.CustomerEmail | backend/routes/webhooks.js:19 | the result is truthy exactly when the `customer` member is truthy and its `email` member is truthy, and then it is that `email` member |
| WebhookRoutes.EntriesForEmail | backend/routes/webhooks.js:23 | exactly the entries whose stored email equals the given string after the `lowercase` and `trim` setters |
| WebhookRoutes.OrderCreated | backend/routes/webhooks.js:11-44 | a null body gives 500 with the `TypeError` message; the store is queried iff the customer email is truthy; a failing query gives 500 carrying the store's error message; otherwise 200 whatever the number of matches; a string email finds exactly the entries stored under its normalised form |
| WebhookRoutes.CustomerCreated | backend/routes/webhooks.js:50-72 | 500 iff the body is null, with the `TypeError` message, otherwise 200 |
| WebhookRoutes.Health | backend/routes/webhooks.js:79-92 | always success, stamped with the current time |
| WebhookRoutes.GuardedStatus | backend/routes/webhooks.js:11 | the handler's status is returned only when the verifier lets the request through, its own status otherwise |
| WebhookRoutes.OrderRoute | backend/routes/webhooks.js:11-44 | the order handler runs iff verification succeeds, on the verified body |
| WebhookRoutes.CustomerRoute | backend/routes/webhooks.js:50-72 | the customer handler runs iff verification succeeds, on the verified body |
| WebhookRoutes.NoMatchIsNotAnError | backend/routes/webhooks.js:28-34 | an order whose normalised email has no entry still gets 200, with an empty lookup |
| WebhookRoutes.LookupIgnoresCaseAndPadding | backend/routes/webhooks.js:23 | the lookup finds the same entries for an email as for its normalised form |
| WebhookRoutes.CaseVariantFindsEntry | backend/routes/webhooks.js:23 | a stored address in any letter case, padded with whitespace, finds its entry |
| WebhookRoutes.CaseVariantOrderFindsEntry | backend/routes/webhooks.js:19-23 | an order whose customer email is a stored address in any letter case, padded with whitespace, looks up a set that holds that entry |
| WebhookRoutes.UnverifiedOrderNeverLooksUp | backend/routes/webhooks.js:11 | an unverified request never reaches the store and is answered 400, 401 or 500 |
| Server.ShouldCapture | backend/server.js:28 | a path is captured iff it starts with `/api/webhooks/shopify`; a path that differs from that prefix at any position within it is not captured |
| Server.CaptureRawBody | backend/server.js:27-42 | on a captured path `rawBody` becomes the in-order concatenation of the chunks, each decoded on its own; elsewhere it is untouched |
| Server.DecodedChunks | backend/server.js:29-33 | the string the capture as written builds holds at most one character per byte received |
| Server.SplitCharacterCorrupted | backend/server.js:31-33 | "é" split over two chunks is captured as two U+FFFD, so the captured body no longer encodes to the bytes sent |
| Server.DecodedChunksAlignedExact | backend/server.js:31-33 | when every chunk encodes a string of its own, the capture as written is the concatenation of those strings |
| Server.CaptureRawBodyWhole | backend/server.js:27-42 | the corrected capture decodes the joined chunks once; elsewhere `rawBody` is untouched |
| Server.CapturedBodyExact | backend/server.js:27-42 | the corrected capture of any split of an encoded string is that string, and it re-encodes to the bytes sent |
| Server.CapturePrefixExamples | backend/server.js:28 | `/api/webhooks/health` is not captured; `/api/webhooks/shopify/order/created` and `/api/webhooks/shopifyX` are |
| Server.ReceiveShopifyWebhook | backend/server.js:27-42 | capture then verification, with the corrected capture (`CaptureRawBodyWhole`) in place of the per-chunk decoding: the verifier decides on the body as sent; `next` is called iff verified |
| Server.GenuineDeliveryAccepted | backend/server.js:27-42 | with the corrected capture, a correctly signed body is accepted however it is split into chunks |
| Server.ErrorHandler | backend/server.js:77-84 | 500 with `success: false`; the message is included iff `NODE_ENV` is `development` |
| Server.NotFoundHandler | backend/server.js:89-95 | 404 with `success: false`, naming the path |

## Left out

- `JsStrings.ToLower` lower-cases ASCII letters only. `String.prototype.toLowerCase` also folds non-ASCII letters, and the model does not. Stored emails are therefore only proved free of `A`–`Z`.
- Strings are sequences of Unicode scalar values. JavaScript strings that hold lone surrogates cannot be expressed, so their UTF-8 encoding as U+FFFD is not modelled.
- HMAC-SHA256, base64 and `JSON.parse` are library code. They are the parameters `tag` and `parse`. Timing behaviour cannot be stated.
- `WebhookVerification.AlteredBodyRejected` assumes that the MAC tells the two bodies apart. Collision resistance is not modelled.
- `WebhookRoutes.OrderCreated` covers a customer email that is a truthy string. Mongoose casts other truthy values: numbers and booleans to strings, arrays to `$in`, objects to query operators or a cast error. For those values the model records a lookup that finds nothing.
- Mongoose casting of non-string request fields is not modelled. Neither is the way `findOne` drops `undefined` members of its filter (`email`, `productId` are `Option<string>` and an absent one never matches).
- Validation errors are listed in schema order (email, product id, name). The order of `Object.values(error.errors)` is Mongoose's and is assumed.
- Identifiers are natural numbers. A malformed ObjectId, which makes the `/:id` routes answer 500 through a cast error, is not modelled.
- Store failures in the waitlist routes are left out: connection loss and write errors other than the unique-email clash, all of which give 500.
- `page` and `limit` are integers. Non-numeric or fractional query strings are not modelled.
- `WaitlistRoutes.WaitlistStore.List` states its order as "some newest-first ordering". Ties on `createdAt` are broken by MongoDB's internal order, which the model does not fix.
- Repeated headers (joined by Node with `, `) are not modelled. Neither is the special handling of `referer`/`referrer` in `req.get`.
- A request stream that never ends, or that errors, is not modelled. The chunks are a finite sequence, and `next` runs once after the last one.
- `express.json()` (`backend/server.js:45`) is not modelled, although it runs on every route, webhooks included. The capture middleware has already read the request stream when it calls `next`. By reading body-parser's documentation, not by running it, a JSON-typed webhook would then meet its `stream.not.readable` error (500) and reach the error handler before the verifier. The model assumes the verifier sees every captured request.
- The `error` text of the middleware's rejections (`backend/middleware/shopifyWebhookVerification.js:31-77`) is not modelled. Each rejection is its `Outcome` and status code.
- Logging, CORS, server start-up, the database connection and signal handling are not modelled. So are concurrency between requests and the GET `/api/health` and `/` routes of `backend/server.js`.
- Two behaviours of the code worth noting:
  - The `unique` email index makes an email unique across all products, not per product.
  - The PUT route overwrites `approvedAt` on every approval, because `findByIdAndUpdate` runs no save hook.

## Findings

| source | as written | input that shows it | evidently intended | confidence | as-written member | corrected member |
|---|---|---|---|---|---|---|
| backend/server.js:31-33 | each `data` chunk is decoded as UTF-8 on its own (`chunk.toString('utf8')`) and the strings are concatenated | the body "é" (bytes C3 A9) delivered as chunks [C3] and [A9] is captured as two U+FFFD; the HMAC is then computed over EF BF BD EF BF BD instead of the signed C3 A9, so a genuine webhook can be refused | join the raw bytes and decode once at the end, so `rawBody` is exactly the body sent | not executed | Server.CaptureRawBody, Server.SplitCharacterCorrupted | Server.CaptureRawBodyWhole, Server.CapturedBodyExact |
