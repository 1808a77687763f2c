/** The administrative waitlist routes over an in-memory store: list, get,
    create, status update, delete and the per-status summary. */
module WaitlistRoutes {
  import opened Options
  import opened JsStrings
  import opened WaitlistSchema

  /** The collection: entries by identifier. */
  type Store = map<Id, Entry>

  /** The `unique: true` index on email: no two entries share an email,
      whatever their products. */
  predicate EmailsUnique(m: Store) {
    forall a, b :: a in m && b in m && m[a].email == m[b].email ==> a == b
  }

  predicate ValidStore(m: Store) {
    && (forall k :: k in m ==> m[k].id == k && WellFormed(m[k]))
    && EmailsUnique(m)
  }

  // ---------------------------------------------------------------------
  // GET /:id and DELETE /:id

  datatype LookupResult = Found(entry: Entry) | NotFound {
    function StatusCode(): int { if Found? then 200 else 404 }
  }

  // ---------------------------------------------------------------------
  // POST /

  /** The request body fields the handler destructures. */
  datatype CreateRequest = CreateRequest(
    email: Option<string>,
    name: Option<string>,
    productId: Option<string>,
    shopifyCustomerId: Option<string>)

  datatype CreateResult =
    | Created(entry: Entry)
    | AlreadyOnWaitlist
    | ValidationFailed(details: seq<string>)
    | EmailExists
  {
    function StatusCode(): int { if Created? then 201 else 400 }
  }

  /** Some entry holds exactly this email and product id. */
  predicate PairStored(m: Store, email: string, productId: string) {
    exists k | k in m :: m[k].email == email && m[k].productId == productId
  }

  /** `Waitlist.findOne({ email, productId })`. Mongoose casts a filter
      value through its path's setters, so the email is compared after
      `lowercase` and `trim`, and the product id after `trim`. */
  predicate PairExists(m: Store, email: Option<string>, productId: Option<string>) {
    email.Some? && productId.Some?
    && PairStored(m, NormalizeEmail(email.value), Trim(productId.value))
  }

  /** The duplicate lookup sees only the setter-applied values: asking with
      the raw fields or with their stored forms gives the same answer. */
  lemma PairLookupUsesSetters(m: Store, email: string, productId: string)
    ensures PairExists(m, Some(email), Some(productId))
        <==> PairExists(m, Some(NormalizeEmail(email)), Some(Trim(productId)))
  {
    NormalizeNormalized(NormalizeEmail(email));
    TrimIdempotent(productId);
  }

  /** Whether the unique email index already holds `email`. */
  predicate EmailTaken(m: Store, email: string) {
    exists k | k in m :: m[k].email == email
  }

  function Messages(errs: seq<FieldError>): (r: seq<string>)
    ensures |r| == |errs|
    ensures forall i :: 0 <= i < |errs| ==> r[i] == errs[i].Message()
  {
    seq(|errs|, i requires 0 <= i < |errs| => errs[i].Message())
  }

  /** `shopifyCustomerId || null`. */
  function CustomerIdArg(v: Option<string>): (r: Option<string>)
    ensures r.Some? <==> Truthy(v)
    ensures r.Some? ==> r == v
  {
    if Truthy(v) then v else None
  }

  /** The outcome of POST / on store `m` when the new document would get
      identifier `id` and the clock reads `now`. What it means is stated
      by `CreateOutcomes`. */
  function CreateSpec(m: Store, id: Id, req: CreateRequest, now: Time): CreateResult {
    if PairExists(m, req.email, req.productId) then AlreadyOnWaitlist
    else
      var email, productId, name := EmailPath(req.email), TrimPath(req.productId), TrimPath(req.name);
      var errs := Validate(email, productId, name);
      if errs != [] then ValidationFailed(Messages(errs))
      else if EmailTaken(m, email.value) then EmailExists
      else Created(Entry(id, email.value, productId.value, name.value, Pending,
                         TrimPath(CustomerIdArg(req.shopifyCustomerId)),
                         now, now, HookApprovedAt(Pending, None, now)))
  }

  /** The four outcomes of a create: a duplicate of a stored pair, up to
      letter case and surrounding whitespace; a validation failure of the normalised fields, with one message
      per failing field; an email already stored under any product; and
      otherwise a new Pending entry holding the normalised fields. */
  lemma CreateOutcomes(m: Store, id: Id, req: CreateRequest, now: Time)
    ensures var r := CreateSpec(m, id, req, now);
      r == AlreadyOnWaitlist <==> PairExists(m, req.email, req.productId)
    ensures var r := CreateSpec(m, id, req, now);
      r.ValidationFailed? <==>
        !PairExists(m, req.email, req.productId)
        && Validate(EmailPath(req.email), TrimPath(req.productId), TrimPath(req.name)) != []
    ensures var r := CreateSpec(m, id, req, now);
      r.ValidationFailed? ==> 1 <= |r.details| <= 3
    ensures var r := CreateSpec(m, id, req, now);
      r.ValidationFailed? ==>
        r.details == Messages(Validate(EmailPath(req.email), TrimPath(req.productId), TrimPath(req.name)))
    ensures var r := CreateSpec(m, id, req, now);
      r.EmailExists? ==> req.email.Some? && EmailTaken(m, NormalizeEmail(req.email.value))
    ensures var r := CreateSpec(m, id, req, now);
      r.Created? ==>
        && req.email.Some? && req.productId.Some? && req.name.Some?
        && r.entry.id == id
        && r.entry.email == NormalizeEmail(req.email.value)
        && r.entry.productId == Trim(req.productId.value)
        && r.entry.name == Trim(req.name.value)
        && r.entry.status == Pending
        && r.entry.shopifyCustomerId == TrimPath(CustomerIdArg(req.shopifyCustomerId))
        && r.entry.createdAt == now && r.entry.updatedAt == now
        && r.entry.approvedAt == None
        && !EmailTaken(m, r.entry.email)
  {
  }

  /** A created entry satisfies every schema invariant: a valid,
      normalised email, a valid product id, a valid trimmed name, and no
      approval pending a stamp. */
  lemma CreatedEntryWellFormed(m: Store, id: Id, req: CreateRequest, now: Time)
    requires CreateSpec(m, id, req, now).Created?
    ensures WellFormed(CreateSpec(m, id, req, now).entry)
  {
  }

  /** Inserting a well-formed entry under a fresh identifier with an email
      not yet stored keeps every store invariant, global email uniqueness
      included. */
  lemma InsertKeepsStoreValid(m: Store, id: Id, e: Entry)
    requires ValidStore(m) && id !in m
    requires e.id == id && WellFormed(e) && !EmailTaken(m, e.email)
    ensures ValidStore(m[id := e])
  {
    var m' := m[id := e];
    forall k | k in m' ensures m'[k].id == k && WellFormed(m'[k]) {
      if k != id {
        assert m'[k] == m[k];
      }
    }
    forall a, b | a in m' && b in m' && m'[a].email == m'[b].email
      ensures a == b
    {
      if a != id && b != id {
        assert m[a].email == m[b].email;
      }
    }
  }

  /** A create whose normalised email is already stored never succeeds,
      whatever its product: email is unique across the whole collection,
      not per product. */
  lemma TakenEmailRefused(m: Store, id: Id, req: CreateRequest, now: Time)
    requires req.email.Some? && EmailTaken(m, NormalizeEmail(req.email.value))
    ensures !CreateSpec(m, id, req, now).Created?
    ensures CreateSpec(m, id, req, now).StatusCode() == 400
  {
    assert EmailPath(req.email).value == NormalizeEmail(req.email.value);
  }

  /** Repeating a successful create answers "already on the waitlist for
      this product". */
  lemma RepeatedCreateIsDuplicate(m: Store, id: Id, req: CreateRequest, now: Time, id2: Id, now2: Time)
    requires CreateSpec(m, id, req, now).Created?
    ensures CreateSpec(m[id := CreateSpec(m, id, req, now).entry], id2, req, now2) == AlreadyOnWaitlist
  {
    CreateOutcomes(m, id, req, now);
    var m' := m[id := CreateSpec(m, id, req, now).entry];
    assert m'[id].email == NormalizeEmail(req.email.value) && m'[id].productId == Trim(req.productId.value);
  }

  /** A request naming a stored pair with its email in any letter case and
      either field padded with whitespace is refused as a duplicate. */
  lemma PaddedRepeatIsDuplicate(m: Store, k: Id, id: Id, req: CreateRequest, now: Time,
                                pre: string, v: string, post: string, pre2: string, post2: string)
    requires k in m && WellFormed(m[k])
    requires AllWhitespace(pre) && AllWhitespace(post) && AllWhitespace(pre2) && AllWhitespace(post2)
    requires ToLower(v) == m[k].email
    requires req.email == Some(pre + v + post)
    requires req.productId == Some(pre2 + m[k].productId + post2)
    ensures CreateSpec(m, id, req, now) == AlreadyOnWaitlist
  {
    NormalizePadded(pre, v, post);
    ValidProductIdTrimmed(m[k].productId);
    TrimPadded(pre2, m[k].productId, post2);
    assert PairStored(m, NormalizeEmail(req.email.value), Trim(req.productId.value));
  }

  /** Every stored email is normalised. */
  lemma StoredEmailsNormalized(m: Store)
    requires ValidStore(m)
    ensures forall k :: k in m ==> IsNormalizedEmail(m[k].email)
  {
    forall k | k in m ensures IsNormalizedEmail(m[k].email) {
      assert WellFormed(m[k]);
    }
  }

  // ---------------------------------------------------------------------
  // PUT /:id

  datatype UpdateResult = Updated(entry: Entry) | InvalidStatus | UnknownId {
    function StatusCode(): int {
      match this
      case Updated(_) => 200
      case InvalidStatus => 400
      case UnknownId => 404
    }
  }

  /** `!status || !validStatuses.includes(status)`. */
  predicate IsAcceptedStatus(status: Option<string>): (b: bool)
    ensures b <==> status.Some? && exists st: Status :: st.Name() == status.value
  {
    Truthy(status) && ParseStatus(status.value).Some?
  }

  /** The outcome of PUT /:id with body `{ status }` at time `now`. The update
      goes through `findByIdAndUpdate`, which runs no save hook. */
  function UpdateSpec(m: Store, id: Id, status: Option<string>, now: Time): (r: UpdateResult)
    ensures r == InvalidStatus <==> status.None? || forall st: Status :: st.Name() != status.value
    ensures r == UnknownId <==> IsAcceptedStatus(status) && id !in m
    ensures r.Updated? ==>
      && id in m
      && r.entry.status.Name() == status.value
      && r.entry.updatedAt == now
      && r.entry.approvedAt == (if r.entry.status == Approved then Some(now) else m[id].approvedAt)
      && r.entry == m[id].(status := r.entry.status, updatedAt := now, approvedAt := r.entry.approvedAt)
  {
    if !IsAcceptedStatus(status) then InvalidStatus
    else if id !in m then UnknownId
    else
      var st := ParseStatus(status.value).value;
      Updated(m[id].(status := st, updatedAt := now,
                     approvedAt := if st == Approved then Some(now) else m[id].approvedAt))
  }

  /** A status update keeps every store invariant. */
  lemma UpdateKeepsStoreValid(m: Store, id: Id, status: Option<string>, now: Time)
    requires ValidStore(m)
    requires UpdateSpec(m, id, status, now).Updated?
    ensures ValidStore(m[id := UpdateSpec(m, id, status, now).entry])
  {
    var e := UpdateSpec(m, id, status, now).entry;
    var m' := m[id := e];
    assert e.email == m[id].email;
    forall a, b | a in m' && b in m' && m'[a].email == m'[b].email
      ensures a == b
    {
      assert m'[a].email == m[a].email && m'[b].email == m[b].email;
    }
  }

  /** Approving and then rejecting an entry leaves the approval time of the
      first update in place while the status reads Rejected. */
  lemma ApproveThenReject(m: Store, id: Id, t1: Time, t2: Time)
    requires id in m
    ensures UpdateSpec(m, id, Some("Approved"), t1).Updated?
    ensures var m1 := m[id := UpdateSpec(m, id, Some("Approved"), t1).entry];
            var r := UpdateSpec(m1, id, Some("Rejected"), t2);
            r.Updated? && r.entry.status == Rejected && r.entry.approvedAt == Some(t1)
              && r.entry.updatedAt == t2
  {
    assert ParseStatus("Approved") == Some(Approved);
    assert ParseStatus("Rejected") == Some(Rejected);
  }

  /** The two approval rules disagree: re-approving an entry through the
      route moves `approvedAt` to the new time, where the save hook would
      have kept the first one. */
  lemma RouteRestampsApproval(m: Store, id: Id, t1: Time, t2: Time)
    requires id in m && m[id].approvedAt == Some(t1) && t1 != t2
    ensures UpdateSpec(m, id, Some("Approved"), t2).Updated?
    ensures UpdateSpec(m, id, Some("Approved"), t2).entry.approvedAt == Some(t2)
    ensures HookApprovedAt(Approved, m[id].approvedAt, t2) == Some(t1)
  {
    assert ParseStatus("Approved") == Some(Approved);
  }

  /** Any status outside the enum ("Archived", "", "approved", ...) is
      refused before the store is consulted, whether or not the id exists. */
  lemma UnknownStatusRefused(m: Store, id: Id, s: string, now: Time)
    requires ParseStatus(s).None?
    ensures UpdateSpec(m, id, Some(s), now) == InvalidStatus
  {
  }

  /** Three statuses the route refuses: an unknown word, the empty string
      and a lower-case spelling of a valid one. */
  lemma UnknownStatusExamples(m: Store, id: Id, now: Time)
    ensures UpdateSpec(m, id, Some("Archived"), now) == InvalidStatus
    ensures UpdateSpec(m, id, Some(""), now) == InvalidStatus
    ensures UpdateSpec(m, id, Some("approved"), now) == InvalidStatus
  {
    assert ParseStatus("Archived") == None;
    assert ParseStatus("approved") == None;
    UnknownStatusRefused(m, id, "Archived", now);
    UnknownStatusRefused(m, id, "approved", now);
  }

  // ---------------------------------------------------------------------
  // GET / : filter, newest first, skip and limit

  /** The query string, with `page` and `limit` already numeric. */
  datatype ListQuery = ListQuery(
    status: Option<string>,
    productId: Option<string>,
    page: Option<int>,
    limit: Option<int>)
  {
    function Page(): int { page.GetOr(1) }
    function Limit(): int { limit.GetOr(10) }
    /** `(page - 1) * limit`. */
    function Skip(): (r: int)
      ensures page.None? || page == Some(1) ==> r == 0
      ensures Page() >= 1 && Limit() >= 0 ==> r >= 0
      ensures Page() >= 1 && Limit() >= 1 ==> r >= Page() - 1
      ensures r < 0 <==> (Page() < 1 && Limit() > 0) || (Page() > 1 && Limit() < 0)
      ensures Limit() == 0 ==> r == 0
    {
      (Page() - 1) * Limit()
    }
  }

  datatype ListResult =
    | Listed(data: seq<Entry>, page: int, limit: int, total: nat, pages: Option<int>)
    | ListFailed
  {
    function StatusCode(): int { if Listed? then 200 else 500 }
  }

  /** The filter object: each of status and productId constrains it only
      when it was supplied non-empty; the product id is cast through its
      `trim` setter before it is compared. */
  predicate MatchesFilter(e: Entry, q: ListQuery): (b: bool)
    ensures !Truthy(q.status) && !Truthy(q.productId) ==> b
    ensures b && Truthy(q.productId) ==> e.productId == Trim(q.productId.value)
    ensures b && Truthy(q.status) ==> Some(e.status) == ParseStatus(q.status.value)
    ensures (&& (Truthy(q.status) ==> Some(e.status) == ParseStatus(q.status.value))
             && (Truthy(q.productId) ==> e.productId == Trim(q.productId.value)))
      ==> b
  {
    ParseName(e.status);
    && (Truthy(q.status) ==> e.status.Name() == q.status.value)
    && (Truthy(q.productId) ==> e.productId == Trim(q.productId.value))
  }

  function Wanted(m: Store, q: ListQuery): set<Id> {
    set k | k in m && MatchesFilter(m[k], q)
  }

  predicate AllIn(m: Store, ids: seq<Id>) {
    forall i :: 0 <= i < |ids| ==> ids[i] in m
  }

  /** `.sort({ createdAt: -1 })`. */
  predicate NewestFirst(m: Store, ids: seq<Id>)
    requires AllIn(m, ids)
  {
    forall i, j :: 0 <= i < j < |ids| ==> m[ids[i]].createdAt >= m[ids[j]].createdAt
  }

  /** `ids` lists every member of `wanted` once, newest first. */
  predicate IsNewestFirstOrder(m: Store, ids: seq<Id>, wanted: set<Id>) {
    AllIn(m, ids) && multiset(ids) == multiset(wanted) && NewestFirst(m, ids)
  }

  /** No entry listed in `ids` was created after `t`. */
  predicate NoNewerThan(m: Store, ids: seq<Id>, t: Time)
    requires AllIn(m, ids)
  {
    forall j :: 0 <= j < |ids| ==> m[ids[j]].createdAt <= t
  }

  /** Inserts `k` into a newest-first list, before the first entry that is
      not newer than it. */
  function InsertNewestFirst(m: Store, ids: seq<Id>, k: Id): (r: seq<Id>)
    requires k in m && AllIn(m, ids)
    ensures multiset(r) == multiset(ids) + multiset{k}
    ensures AllIn(m, r)
  {
    if ids == [] then [k]
    else if m[k].createdAt >= m[ids[0]].createdAt then [k] + ids
    else
      assert ids == [ids[0]] + ids[1..];
      [ids[0]] + InsertNewestFirst(m, ids[1..], k)
  }

  /** An entry newest among a newest-first list may head it. */
  lemma ConsNewestFirst(m: Store, x: Id, ids: seq<Id>)
    requires x in m && AllIn(m, ids) && NewestFirst(m, ids)
    requires NoNewerThan(m, ids, m[x].createdAt)
    ensures AllIn(m, [x] + ids) && NewestFirst(m, [x] + ids)
  {
    var r := [x] + ids;
    assert AllIn(m, r);
    forall i, j | 0 <= i < j < |r| ensures m[r[i]].createdAt >= m[r[j]].createdAt {
      assert r[j] == ids[j - 1];
      if i > 0 {
        assert r[i] == ids[i - 1];
      }
    }
  }

  /** Prepending an entry no newer than `t` keeps a list no newer than `t`. */
  lemma ConsNoNewerThan(m: Store, x: Id, ids: seq<Id>, t: Time)
    requires x in m && AllIn(m, ids) && NoNewerThan(m, ids, t) && m[x].createdAt <= t
    ensures AllIn(m, [x] + ids) && NoNewerThan(m, [x] + ids, t)
  {
    var r := [x] + ids;
    forall j | 0 <= j < |r| ensures r[j] in m && m[r[j]].createdAt <= t {
      if j > 0 {
        assert r[j] == ids[j - 1];
      }
    }
  }

  /** Inserting an entry no newer than `t` keeps a list no newer than `t`. */
  lemma {:induction false} InsertNoNewerThan(m: Store, ids: seq<Id>, k: Id, t: Time)
    requires k in m && AllIn(m, ids) && NoNewerThan(m, ids, t) && m[k].createdAt <= t
    ensures NoNewerThan(m, InsertNewestFirst(m, ids, k), t)
  {
    if ids == [] {
      assert InsertNewestFirst(m, ids, k) == [k];
    } else if m[k].createdAt >= m[ids[0]].createdAt {
      ConsNoNewerThan(m, k, ids, t);
    } else {
      var rest := ids[1..];
      assert NoNewerThan(m, rest, t) by {
        forall j | 0 <= j < |rest| ensures m[rest[j]].createdAt <= t {
          assert rest[j] == ids[j + 1];
        }
      }
      InsertNoNewerThan(m, rest, k, t);
      ConsNoNewerThan(m, ids[0], InsertNewestFirst(m, rest, k), t);
    }
  }

  /** Insertion keeps a list newest first. */
  lemma {:induction false} InsertKeepsNewestFirst(m: Store, ids: seq<Id>, k: Id)
    requires k in m && AllIn(m, ids) && NewestFirst(m, ids)
    ensures NewestFirst(m, InsertNewestFirst(m, ids, k))
  {
    if ids == [] {
    } else if m[k].createdAt >= m[ids[0]].createdAt {
      assert NoNewerThan(m, ids, m[k].createdAt) by {
        forall j | 0 <= j < |ids| ensures m[ids[j]].createdAt <= m[k].createdAt {
          if j > 0 {
            assert m[ids[0]].createdAt >= m[ids[j]].createdAt;
          }
        }
      }
      ConsNewestFirst(m, k, ids);
    } else {
      var x, rest := ids[0], ids[1..];
      assert AllIn(m, rest) && NewestFirst(m, rest) by {
        forall i, j | 0 <= i < j < |rest| ensures m[rest[i]].createdAt >= m[rest[j]].createdAt {
          assert rest[i] == ids[i + 1] && rest[j] == ids[j + 1];
        }
      }
      assert NoNewerThan(m, rest, m[x].createdAt) by {
        forall j | 0 <= j < |rest| ensures m[rest[j]].createdAt <= m[x].createdAt {
          assert rest[j] == ids[j + 1];
        }
      }
      InsertKeepsNewestFirst(m, rest, k);
      InsertNoNewerThan(m, rest, k, m[x].createdAt);
      ConsNewestFirst(m, x, InsertNewestFirst(m, rest, k));
    }
  }

  /** The `find(filter).sort({ createdAt: -1 })` part of GET /: every
      entry matching the query once, newest first. */
  method SelectNewestFirst(m: Store, q: ListQuery) returns (ordered: seq<Id>)
    ensures IsNewestFirstOrder(m, ordered, Wanted(m, q))
  {
    var todo := Wanted(m, q);
    ordered := [];
    ghost var done: set<Id> := {};
    while todo != {}
      invariant todo !! done && todo + done == Wanted(m, q)
      invariant AllIn(m, ordered) && NewestFirst(m, ordered)
      invariant multiset(ordered) == multiset(done)
      decreases |todo|
    {
      var k :| k in todo;
      InsertKeepsNewestFirst(m, ordered, k);
      ordered := InsertNewestFirst(m, ordered, k);
      todo := todo - {k};
      done := done + {k};
    }
  }

  /** The number of entries `.limit(n)` lets through out of `available`:
      all of them for 0, at most |n| otherwise. */
  function Take(limit: int, available: nat): (n: nat)
    ensures n <= available
    ensures limit == 0 ==> n == available
    ensures limit != 0 ==> n <= Abs(limit) && (n == available || n == Abs(limit))
  {
    if limit == 0 then available
    else if available < Abs(limit) then available else Abs(limit)
  }

  function Abs(x: int): nat { if x < 0 then -x else x }

  /** `.skip(skip).limit(limit)` applied to an ordering. */
  function Window(m: Store, ids: seq<Id>, skip: nat, limit: int): (data: seq<Entry>)
    requires AllIn(m, ids)
    ensures skip >= |ids| ==> data == []
    ensures skip < |ids| ==> |data| == Take(limit, |ids| - skip)
    ensures forall i :: 0 <= i < |data| ==> data[i] == m[ids[skip + i]]
  {
    if skip >= |ids| then []
    else seq(Take(limit, |ids| - skip), i requires 0 <= i < Take(limit, |ids| - skip) => m[ids[skip + i]])
  }

  /** `Math.ceil(total / limit)` as it appears in the JSON answer: absent
      (null) when limit is 0. */
  function Pages(total: nat, limit: int): (p: Option<int>)
    ensures p.None? <==> limit == 0
    ensures limit > 0 ==> (p.value - 1) * limit < total <= p.value * limit
    ensures limit < 0 ==> (p.value - 1) * limit > total >= p.value * limit
  {
    if limit == 0 then None
    else if limit > 0 then
      var q := (total + limit - 1) / limit;
      assert q * limit <= total + limit - 1 < (q + 1) * limit;
      Some(q)
    else
      var q := total / -limit;
      assert q * -limit <= total < (q + 1) * -limit;
      Some(-q)
  }

  /** The query `q` asking for page `p` instead. */
  function AtPage(q: ListQuery, p: int): ListQuery {
    q.(page := Some(p))
  }

  /** For every limit, of any sign, page 1 skips nothing and each next
      page skips `limit` entries more than the page before it. */
  lemma SkipStep(q: ListQuery, p: int)
    ensures AtPage(q, 1).Skip() == 0
    ensures AtPage(q, p + 1).Skip() == AtPage(q, p).Skip() + q.Limit()
  {
    assert AtPage(q, p + 1).Page() == p + 1 && AtPage(q, p).Page() == p;
    assert p * q.Limit() == (p - 1) * q.Limit() + q.Limit();
  }

  /** The answers to pages 1 to `n` of `q`, one after the other. */
  function PagesUpTo(m: Store, ids: seq<Id>, q: ListQuery, n: nat): seq<Entry>
    requires AllIn(m, ids) && q.Limit() >= 1
  {
    if n == 0 then []
    else PagesUpTo(m, ids, q, n - 1) + Window(m, ids, AtPage(q, n).Skip(), q.Limit())
  }

  function Min(a: int, b: int): int { if a < b then a else b }

  /** Pages 1 to `n` hold the first `n * limit` entries of the ordering
      (all of them once that is past the end), with nothing skipped or
      repeated between consecutive pages. */
  lemma {:induction false} PagesUpToPrefix(m: Store, ids: seq<Id>, q: ListQuery, n: nat)
    requires AllIn(m, ids) && q.Limit() >= 1
    ensures 0 <= Min(n * q.Limit(), |ids|) <= |Window(m, ids, 0, 0)|
    ensures PagesUpTo(m, ids, q, n) == Window(m, ids, 0, 0)[..Min(n * q.Limit(), |ids|)]
  {
    var L, all := q.Limit(), Window(m, ids, 0, 0);
    if n > 0 {
      PagesUpToPrefix(m, ids, q, n - 1);
      var lo := (n - 1) * L;
      assert AtPage(q, n).Skip() == lo;
      assert n * L == lo + L;
      WindowIsSlice(m, ids, lo, L);
      SliceJoin(all, Min(lo, |ids|), Min(lo + L, |ids|));
    }
  }

  /** One page is the slice of the whole ordering it covers. */
  lemma WindowIsSlice(m: Store, ids: seq<Id>, lo: nat, limit: int)
    requires AllIn(m, ids) && limit >= 1
    ensures |Window(m, ids, 0, 0)| == |ids|
    ensures Window(m, ids, lo, limit) == Window(m, ids, 0, 0)[Min(lo, |ids|)..Min(lo + limit, |ids|)]
  {
    var all := Window(m, ids, 0, 0);
    if lo < |ids| {
      assert Window(m, ids, lo, limit) == all[lo..Min(lo + limit, |ids|)];
    }
  }

  lemma SliceJoin(xs: seq<Entry>, i: int, j: int)
    requires 0 <= i <= j <= |xs|
    ensures xs[..i] + xs[i..j] == xs[..j]
  {
  }

  /** Walking the pages 1 to `pages` with a positive limit returns the
      whole newest-first selection exactly once, in order: page p starts
      where page p - 1 ended, `limit` entries further on. */
  lemma PagesCoverSelection(m: Store, ids: seq<Id>, q: ListQuery)
    requires AllIn(m, ids) && q.Limit() >= 1
    ensures Pages(|ids|, q.Limit()).value >= 0
    ensures PagesUpTo(m, ids, q, Pages(|ids|, q.Limit()).value) == Window(m, ids, 0, 0)
  {
    var L, p := q.Limit(), Pages(|ids|, q.Limit()).value;
    assert p * L >= |ids| >= 0;
    assert p >= 0;
    PagesUpToPrefix(m, ids, q, p);
    assert |Window(m, ids, 0, 0)| == |ids|;
  }

  // ---------------------------------------------------------------------
  // GET /stats/summary

  /** The identifiers among `keys` whose entry has status `st`. */
  function IdsWithStatus(m: Store, keys: set<Id>, st: Status): set<Id> {
    set k | k in keys && k in m && m[k].status == st
  }

  /** A status without a key in `byStatus` counts 0. */
  function CountOf(byStatus: map<Status, nat>, st: Status): nat {
    if st in byStatus then byStatus[st] else 0
  }

  /** Every entry has exactly one status, so the three counts add up to the
      number of entries. */
  lemma StatusCountsPartition(m: Store)
    ensures |IdsWithStatus(m, m.Keys, Pending)| + |IdsWithStatus(m, m.Keys, Approved)|
          + |IdsWithStatus(m, m.Keys, Rejected)| == |m|
  {
    var p, a, r := IdsWithStatus(m, m.Keys, Pending), IdsWithStatus(m, m.Keys, Approved),
                   IdsWithStatus(m, m.Keys, Rejected);
    assert p !! a && (p + a) !! r;
    assert p + a + r == m.Keys;
    assert |p + a| == |p| + |a|;
    assert |p + a + r| == |p + a| + |r|;
  }

  /** `byStatus` holds, for each status occurring among `keys`, the number
      of those keys whose entry has that status, and nothing else. */
  predicate CountsMatch(m: Store, keys: set<Id>, byStatus: map<Status, nat>) {
    && (forall st: Status :: st in byStatus <==> IdsWithStatus(m, keys, st) != {})
    && (forall st: Status :: st in byStatus ==> byStatus[st] == |IdsWithStatus(m, keys, st)|)
  }

  /** Counting one more entry: bumping its status keeps the counts exact. */
  lemma CountStep(m: Store, done: set<Id>, k: Id, byStatus: map<Status, nat>)
    requires k in m && k !in done
    requires CountsMatch(m, done, byStatus)
    ensures CountsMatch(m, done + {k}, byStatus[m[k].status := CountOf(byStatus, m[k].status) + 1])
  {
    var st := m[k].status;
    var next := byStatus[st := CountOf(byStatus, st) + 1];
    forall s: Status
      ensures s in next <==> IdsWithStatus(m, done + {k}, s) != {}
      ensures s in next ==> next[s] == |IdsWithStatus(m, done + {k}, s)|
    {
      IdsWithStatusStep(m, done, k, s);
    }
  }

  /** Looking at one more key adds it to the set of its own status only. */
  lemma IdsWithStatusStep(m: Store, done: set<Id>, k: Id, s: Status)
    requires k in m && k !in done
    ensures m[k].status == s ==>
      IdsWithStatus(m, done + {k}, s) == IdsWithStatus(m, done, s) + {k}
      && k !in IdsWithStatus(m, done, s)
    ensures m[k].status != s ==> IdsWithStatus(m, done + {k}, s) == IdsWithStatus(m, done, s)
  {
  }

  /** With every key counted, the three counts add up to the total. */
  lemma CountsSumToTotal(m: Store, byStatus: map<Status, nat>)
    requires CountsMatch(m, m.Keys, byStatus)
    ensures CountOf(byStatus, Pending) + CountOf(byStatus, Approved) + CountOf(byStatus, Rejected) == |m|
  {
    forall st: Status ensures CountOf(byStatus, st) == |IdsWithStatus(m, m.Keys, st)| {
      if st !in byStatus {
        assert IdsWithStatus(m, m.Keys, st) == {};
      }
    }
    StatusCountsPartition(m);
  }

  /** The `$group` stage of the stats aggregation: one count per status
      that occurs, plus the total document count. */
  method CountByStatus(m: Store) returns (total: nat, byStatus: map<Status, nat>)
    ensures total == |m|
    ensures CountsMatch(m, m.Keys, byStatus)
    ensures CountOf(byStatus, Pending) + CountOf(byStatus, Approved) + CountOf(byStatus, Rejected) == total
  {
    var todo := m.Keys;
    ghost var done: set<Id> := {};
    byStatus := map[];
    while todo != {}
      invariant todo !! done && todo + done == m.Keys
      invariant CountsMatch(m, done, byStatus)
      decreases |todo|
    {
      var k :| k in todo;
      CountStep(m, done, k, byStatus);
      byStatus := byStatus[m[k].status := CountOf(byStatus, m[k].status) + 1];
      todo := todo - {k};
      done := done + {k};
    }
    total := |m|;
    CountsSumToTotal(m, byStatus);
  }

  // ---------------------------------------------------------------------
  // the store and its route handlers

  /** The store together with the identifier counter: every stored
      identifier was handed out before `next`. */
  predicate StoreInvariant(m: Store, next: Id) {
    ValidStore(m) && forall k :: k in m ==> k < next
  }

  /** Inserting a well-formed entry with a fresh email under the next
      identifier keeps the invariant and advances the counter. */
  lemma InsertKeepsInvariant(m: Store, next: Id, e: Entry)
    requires StoreInvariant(m, next)
    requires e.id == next && WellFormed(e) && !EmailTaken(m, e.email)
    ensures StoreInvariant(m[next := e], next + 1)
  {
    InsertKeepsStoreValid(m, next, e);
  }

  /** Committing a successful create under the next identifier keeps the
      invariant. */
  lemma CreateKeepsInvariant(m: Store, next: Id, req: CreateRequest, now: Time)
    requires StoreInvariant(m, next)
    requires CreateSpec(m, next, req, now).Created?
    ensures StoreInvariant(m[next := CreateSpec(m, next, req, now).entry], next + 1)
  {
    var e := CreateSpec(m, next, req, now).entry;
    CreatedEntryWellFormed(m, next, req, now);
    CreateOutcomes(m, next, req, now);
    InsertKeepsInvariant(m, next, e);
  }

  /** Committing a successful status update keeps the invariant. */
  lemma UpdateKeepsInvariant(m: Store, next: Id, id: Id, status: Option<string>, now: Time)
    requires StoreInvariant(m, next)
    requires UpdateSpec(m, id, status, now).Updated?
    ensures StoreInvariant(m[id := UpdateSpec(m, id, status, now).entry], next)
  {
    UpdateKeepsStoreValid(m, id, status, now);
  }

  /** Removing an entry keeps the invariant. */
  lemma DeleteKeepsInvariant(m: Store, next: Id, id: Id)
    requires StoreInvariant(m, next)
    ensures StoreInvariant(m - {id}, next)
  {
    var m' := m - {id};
    forall a, b | a in m' && b in m' && m'[a].email == m'[b].email
      ensures a == b
    {
      assert m[a].email == m[b].email;
    }
  }

  /** The body of POST / up to the insert: the duplicate check on the raw
      fields, then a model instance whose setters normalise the paths, its
      validation, the pre-save hook and the unique-email check against
      store `m`. */
  method HandleCreate(m: Store, id: Id, req: CreateRequest, now: Time) returns (r: CreateResult)
    ensures r == CreateSpec(m, id, req, now)
  {
    if PairExists(m, req.email, req.productId) {
      return AlreadyOnWaitlist;
    }
    var doc := new Document(EmailPath(req.email), TrimPath(req.name), TrimPath(req.productId),
                            TrimPath(CustomerIdArg(req.shopifyCustomerId)), Pending, now);
    var errs := doc.Errors();
    if errs != [] {
      return ValidationFailed(Messages(errs));
    }
    doc.PreSave(now);
    if EmailTaken(m, doc.email.value) {
      return EmailExists;
    }
    r := Created(doc.ToEntry(id));
  }

  class WaitlistStore {
    var entries: Store
    /** The identifier the next created document receives. */
    var nextId: Id

    ghost predicate Valid()
      reads this
    {
      StoreInvariant(entries, nextId)
    }

    constructor ()
      ensures Valid() && entries == map[]
    {
      entries := map[];
      nextId := 0;
    }

    /** GET /:id: the entry, or 404. */
    function Get(id: Id): (r: LookupResult)
      reads this
      ensures r.Found? <==> id in entries
      ensures r.Found? ==> r.entry == entries[id]
      ensures r.StatusCode() == 404 <==> id !in entries
    {
      if id in entries then Found(entries[id]) else NotFound
    }

    /** POST /: duplicate check on the fields as sent, then a new document
        through its setters, validation, the pre-save hook and the unique
        email index. */
    method Create(req: CreateRequest, now: Time) returns (r: CreateResult)
      requires Valid()
      modifies this
      ensures Valid()
      ensures r == CreateSpec(old(entries), old(nextId), req, now)
      ensures r.Created? ==> entries == old(entries)[old(nextId) := r.entry] && nextId == old(nextId) + 1
      ensures !r.Created? ==> entries == old(entries) && nextId == old(nextId)
    {
      r := HandleCreate(entries, nextId, req, now);
      if r.Created? {
        CreateKeepsInvariant(entries, nextId, req, now);
        entries := entries[nextId := r.entry];
        nextId := nextId + 1;
      }
    }

    /** PUT /:id. */
    method UpdateStatus(id: Id, status: Option<string>, now: Time) returns (r: UpdateResult)
      requires Valid()
      modifies this
      ensures Valid() && nextId == old(nextId)
      ensures r == UpdateSpec(old(entries), id, status, now)
      ensures r.Updated? ==> entries == old(entries)[id := r.entry]
      ensures !r.Updated? ==> entries == old(entries)
      ensures r.StatusCode() == 400 <==> !IsAcceptedStatus(status)
      ensures r.StatusCode() == 404 <==> IsAcceptedStatus(status) && id !in old(entries)
      ensures r.StatusCode() == 200 <==> IsAcceptedStatus(status) && id in old(entries)
    {
      if !Truthy(status) || ParseStatus(status.value).None? {
        return InvalidStatus;
      }
      if id !in entries {
        return UnknownId;
      }
      var st := ParseStatus(status.value).value;
      var e := entries[id].(status := st, updatedAt := now);
      if st == Approved {
        e := e.(approvedAt := Some(now));
      }
      r := Updated(e);
      UpdateKeepsInvariant(entries, nextId, id, status, now);
      entries := entries[id := e];
    }

    /** DELETE /:id: removes and returns the entry, or 404. */
    method Delete(id: Id) returns (r: LookupResult)
      requires Valid()
      modifies this
      ensures Valid() && nextId == old(nextId)
      ensures r.Found? <==> id in old(entries)
      ensures r.Found? ==> r.entry == old(entries)[id]
      ensures r.StatusCode() == 404 <==> id !in old(entries)
      ensures entries == old(entries) - {id}
      ensures Get(id) == NotFound
    {
      if id !in entries {
        return NotFound;
      }
      r := Found(entries[id]);
      DeleteKeepsInvariant(entries, nextId, id);
      entries := entries - {id};
    }

    /** GET /: the filtered entries, newest first, one page of them. */
    method List(q: ListQuery) returns (r: ListResult)
      ensures r.ListFailed? <==> q.Skip() < 0
      ensures r.StatusCode() == 500 <==> q.Skip() < 0
      ensures r.Listed? ==>
        && r.page == q.Page() && r.limit == q.Limit()
        && r.total == |Wanted(entries, q)|
        && r.pages == Pages(r.total, q.Limit())
      ensures r.Listed? ==> exists ids ::
        IsNewestFirstOrder(entries, ids, Wanted(entries, q))
        && r.data == Window(entries, ids, q.Skip(), q.Limit())
    {
      var skip := q.Skip();
      if skip < 0 {
        return ListFailed;
      }
      var ordered := SelectNewestFirst(entries, q);
      var total := |ordered|;
      assert total == |Wanted(entries, q)| by {
        assert |multiset(ordered)| == |multiset(Wanted(entries, q))|;
      }
      r := Listed(Window(entries, ordered, skip, q.Limit()), q.Page(), q.Limit(), total, Pages(total, q.Limit()));
    }

    /** GET /stats/summary: the number of entries, and for each status that
        occurs the number of entries with it. */
    method Stats() returns (total: nat, byStatus: map<Status, nat>)
      ensures total == |entries|
      ensures CountsMatch(entries, entries.Keys, byStatus)
      ensures CountOf(byStatus, Pending) + CountOf(byStatus, Approved) + CountOf(byStatus, Rejected) == total
    {
      total, byStatus := CountByStatus(entries);
    }
  }
}
