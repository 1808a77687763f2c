/** The waitlist entry schema: field normalisation (trim, lower-case),
    field validators, defaults and the pre-save hook. */
module WaitlistSchema {
  import opened Options
  import opened JsStrings

  /** Store-assigned entry identifier. */
  type Id = nat
  /** A point in time, in milliseconds since the epoch. */
  type Time = int

  datatype Status = Pending | Approved | Rejected {
    /** The string the schema stores and the routes compare against. */
    function Name(): string {
      match this
      case Pending => "Pending"
      case Approved => "Approved"
      case Rejected => "Rejected"
    }
  }

  /** The `enum` check: the status whose name is exactly `s`, if any. */
  function ParseStatus(s: string): (r: Option<Status>)
    ensures r.Some? ==> r.value.Name() == s
    ensures r.None? ==> forall st: Status :: st.Name() != s
  {
    if s == "Pending" then Some(Pending)
    else if s == "Approved" then Some(Approved)
    else if s == "Rejected" then Some(Rejected)
    else None
  }

  /** Each status parses back from its own name. */
  lemma ParseName(st: Status)
    ensures ParseStatus(st.Name()) == Some(st)
  {
  }

  datatype Entry = Entry(
    id: Id,
    email: string,
    productId: string,
    name: string,
    status: Status,
    shopifyCustomerId: Option<string>,
    createdAt: Time,
    updatedAt: Time,
    approvedAt: Option<Time>)

  // ---------------------------------------------------------------------
  // email: /^[^\s@]+@[^\s@]+\.[^\s@]+$/

  /** A run that `[^\s@]+` matches. */
  predicate IsToken(s: string) {
    |s| > 0 && forall k :: 0 <= k < |s| ==> !IsWhitespace(s[k]) && s[k] != '@'
  }

  /** The regular expression matched with '@' at `i` and the literal dot at
      `j`: three tokens around them. */
  predicate EmailSplitAt(s: string, i: int, j: int) {
    0 <= i < j < |s|
    && IsToken(s[..i]) && s[i] == '@'
    && IsToken(s[i + 1..j]) && s[j] == '.'
    && IsToken(s[j + 1..])
  }

  /** The email regular expression, read as its language. */
  ghost predicate MatchesEmailRegex(s: string) {
    exists i, j :: EmailSplitAt(s, i, j)
  }

  /** The email check as a scan: one '@', not first, no whitespace anywhere,
      and a dot in the domain with a character on either side. */
  predicate IsValidEmail(s: string) {
    exists i | 0 < i < |s| :: IsEmailWithAt(s, i)
  }

  /** `s` passes the scan with its only '@' at `i`. */
  predicate IsEmailWithAt(s: string, i: int)
    requires 0 <= i < |s|
  {
    && s[i] == '@'
    && (forall k | 0 <= k < |s| :: k != i ==> s[k] != '@' && !IsWhitespace(s[k]))
    && (exists j | i + 1 < j < |s| - 1 :: s[j] == '.')
  }

  /** The scan accepts exactly the strings the regular expression matches. */
  lemma EmailCheckMatchesRegex(s: string)
    ensures IsValidEmail(s) <==> MatchesEmailRegex(s)
  {
    if IsValidEmail(s) {
      var i :| 0 < i < |s| && IsEmailWithAt(s, i);
      var j :| i + 1 < j < |s| - 1 && s[j] == '.';
      var domain, rest := s[i + 1..j], s[j + 1..];
      assert forall k :: 0 <= k < |domain| ==> domain[k] == s[i + 1 + k];
      assert forall k :: 0 <= k < |rest| ==> rest[k] == s[j + 1 + k];
      assert EmailSplitAt(s, i, j);
    }
    if MatchesEmailRegex(s) {
      var i, j :| EmailSplitAt(s, i, j);
      forall k | 0 <= k < |s| && k != i
        ensures s[k] != '@' && !IsWhitespace(s[k])
      {
        if k < i {
          assert s[k] == s[..i][k];
        } else if k < j {
          assert s[k] == s[i + 1..j][k - i - 1];
        } else if k > j {
          assert s[k] == s[j + 1..][k - j - 1];
        }
      }
      assert i > 0 && j < |s| - 1;
      assert IsEmailWithAt(s, i);
    }
  }

  /** A stored email: trimmed and free of upper-case letters. */
  predicate IsNormalizedEmail(s: string) {
    IsTrimmed(s) && HasNoUpperAscii(s)
  }

  /** The `lowercase` then `trim` setters of the email path. */
  function NormalizeEmail(s: string): (r: string)
    ensures IsNormalizedEmail(r)
  {
    var lower := ToLower(s);
    TrimChars(lower);
    Trim(lower)
  }

  /** Normalising a stored email changes nothing, so normalising is
      idempotent. */
  lemma NormalizeNormalized(s: string)
    requires IsNormalizedEmail(s)
    ensures NormalizeEmail(s) == s
  {
    ToLowerOfLower(s);
    TrimOfTrimmed(s);
  }

  /** Letter case and surrounding whitespace are lost to the setters: an
      email that lower-cases to a trimmed address, padded with whitespace
      on either side, is stored (and looked up) as that address. */
  lemma NormalizePadded(pre: string, v: string, post: string)
    requires AllWhitespace(pre) && AllWhitespace(post)
    requires IsTrimmed(ToLower(v))
    ensures NormalizeEmail(pre + v + post) == ToLower(v)
  {
    ToLowerAppend(pre, v);
    ToLowerAppend(pre + v, post);
    ToLowerAppend(post, []);
    TrimPadded(ToLower(pre), ToLower(v), ToLower(post));
  }

  /** Lower-casing keeps whitespace whitespace, so the two setters commute:
      the stored email is the lower-cased trimmed value. */
  lemma NormalizeIsLowerOfTrim(s: string)
    ensures NormalizeEmail(s) == ToLower(Trim(s))
  {
    var pre, t, post := SplitAtTrim(s);
    LowerKeepsTrimmed(t);
    NormalizePadded(pre, t, post);
  }

  lemma LowerKeepsTrimmed(t: string)
    requires IsTrimmed(t)
    ensures IsTrimmed(ToLower(t))
  {
    if t != [] {
      assert ToLower(t)[0] == ToLowerChar(t[0]);
      assert ToLower(t)[|t| - 1] == ToLowerChar(t[|t| - 1]);
    }
  }

  /** A valid product id has no whitespace at its ends. */
  lemma ValidProductIdTrimmed(s: string)
    requires IsValidProductId(s)
    ensures IsTrimmed(s)
  {
    assert IsProductIdChar(s[0]) && IsProductIdChar(s[|s| - 1]);
  }

  /** The value the email path holds after its setters. */
  function EmailPath(v: Option<string>): (r: Option<string>)
    ensures r.Some? <==> v.Some?
    ensures r.Some? ==> IsNormalizedEmail(r.value)
    ensures r.Some? ==> r.value == ToLower(Trim(v.value))
  {
    if v.Some? then
      NormalizeIsLowerOfTrim(v.value);
      Some(NormalizeEmail(v.value))
    else None
  }

  /** The value a `trim: true` path holds after its setter. */
  function TrimPath(v: Option<string>): (r: Option<string>)
    ensures r.Some? <==> v.Some?
    ensures r.Some? ==> IsTrimmed(r.value)
    ensures r.Some? ==> exists i :: TrimmedAt(v.value, r.value, i)
  {
    if v.Some? then Some(Trim(v.value)) else None
  }

  // ---------------------------------------------------------------------
  // productId and name

  predicate IsProductIdChar(c: char) {
    ('a' <= c <= 'z') || ('A' <= c <= 'Z') || ('0' <= c <= '9') || c == '_' || c == '-'
  }

  /** /^[a-zA-Z0-9_-]{1,50}$/ */
  predicate IsValidProductId(s: string) {
    1 <= |s| <= 50 && forall k :: 0 <= k < |s| ==> IsProductIdChar(s[k])
  }

  /** `minlength: 2` and `maxlength: 100`, counted in UTF-16 code units. */
  predicate IsValidName(s: string) {
    2 <= Utf16Length(s) <= 100
  }

  // ---------------------------------------------------------------------
  // validation

  /** The schema's validation failures, one kind per validator, each with
      its message. */
  datatype FieldError =
    | EmailRequired | EmailInvalid
    | ProductIdRequired | ProductIdInvalid
    | NameRequired | NameTooShort | NameTooLong
  {
    function Message(): string {
      match this
      case EmailRequired => "Email is required"
      case EmailInvalid => "Please provide a valid email address"
      case ProductIdRequired => "Product ID is required"
      case ProductIdInvalid => "Product ID must be alphanumeric with hyphens/underscores"
      case NameRequired => "Customer name is required"
      case NameTooShort => "Name must be at least 2 characters"
      case NameTooLong => "Name cannot exceed 100 characters"
    }
  }

  /** The first failing validator of the email path (`required`, `match`). */
  function CheckEmail(v: Option<string>): (r: Option<FieldError>)
    ensures r.None? <==> v.Some? && IsValidEmail(v.value)
    ensures r == Some(EmailRequired) <==> !Truthy(v)
    ensures r == Some(EmailInvalid) <==> Truthy(v) && !IsValidEmail(v.value)
  {
    if !Truthy(v) then Some(EmailRequired)
    else if !IsValidEmail(v.value) then Some(EmailInvalid)
    else None
  }

  /** The first failing validator of the productId path (`required`, `match`). */
  function CheckProductId(v: Option<string>): (r: Option<FieldError>)
    ensures r.None? <==> v.Some? && IsValidProductId(v.value)
    ensures r == Some(ProductIdRequired) <==> !Truthy(v)
    ensures r == Some(ProductIdInvalid) <==> Truthy(v) && !IsValidProductId(v.value)
  {
    if !Truthy(v) then Some(ProductIdRequired)
    else if !IsValidProductId(v.value) then Some(ProductIdInvalid)
    else None
  }

  /** The first failing validator of the name path (`required`,
      `minlength`, `maxlength`). */
  function CheckName(v: Option<string>): (r: Option<FieldError>)
    ensures r.None? <==> v.Some? && IsValidName(v.value)
    ensures r == Some(NameRequired) <==> !Truthy(v)
    ensures r == Some(NameTooShort) <==> Truthy(v) && Utf16Length(v.value) < 2
    ensures r == Some(NameTooLong) <==> Truthy(v) && Utf16Length(v.value) > 100
  {
    if !Truthy(v) then Some(NameRequired)
    else if Utf16Length(v.value) < 2 then Some(NameTooShort)
    else if Utf16Length(v.value) > 100 then Some(NameTooLong)
    else None
  }

  function OptionToSeq<T>(o: Option<T>): seq<T> {
    if o.Some? then [o.value] else []
  }

  /** All validation failures of a document, in schema order. */
  function Validate(email: Option<string>, productId: Option<string>, name: Option<string>): (errs: seq<FieldError>)
    ensures errs == [] <==>
      && email.Some? && IsValidEmail(email.value)
      && productId.Some? && IsValidProductId(productId.value)
      && name.Some? && IsValidName(name.value)
    ensures forall e :: e in errs <==> Some(e) in {CheckEmail(email), CheckProductId(productId), CheckName(name)}
    ensures |errs| == |OptionToSeq(CheckEmail(email))| + |OptionToSeq(CheckProductId(productId))|
      + |OptionToSeq(CheckName(name))|
    ensures CheckEmail(email).Some? ==> errs[0] == CheckEmail(email).value
    ensures CheckName(name).Some? ==> errs[|errs| - 1] == CheckName(name).value
    ensures |errs| <= 3
  {
    OptionToSeq(CheckEmail(email)) + OptionToSeq(CheckProductId(productId)) + OptionToSeq(CheckName(name))
  }

  // ---------------------------------------------------------------------
  // the pre-save hook

  /** The hook's rule for `approvedAt`: stamp it with `now` when the
      document is Approved and has no stamp yet. */
  function HookApprovedAt(status: Status, approvedAt: Option<Time>, now: Time): (r: Option<Time>)
    ensures approvedAt.Some? ==> r == approvedAt
    ensures approvedAt.None? ==> (r.Some? <==> status == Approved)
    ensures r.Some? && r != approvedAt ==> r == Some(now)
  {
    if status == Approved && approvedAt.None? then Some(now) else approvedAt
  }

  /** A second save never moves the stamp the first one left. */
  lemma HookStampsOnce(status: Status, approvedAt: Option<Time>, t1: Time, t2: Time)
    ensures HookApprovedAt(status, HookApprovedAt(status, approvedAt, t1), t2)
         == HookApprovedAt(status, approvedAt, t1)
  {
  }

  /** The invariants every stored entry satisfies. */
  predicate WellFormed(e: Entry) {
    && IsValidEmail(e.email) && IsNormalizedEmail(e.email)
    && IsValidProductId(e.productId)
    && IsValidName(e.name) && IsTrimmed(e.name)
    && (e.status == Approved ==> e.approvedAt.Some?)
  }

  /** A model instance between `new Waitlist({...})` and the end of
      `save()`: the setters have already trimmed and lower-cased its
      string paths. */
  class Document {
    var email: Option<string>
    var productId: Option<string>
    var name: Option<string>
    var status: Status
    var shopifyCustomerId: Option<string>
    var createdAt: Time
    var updatedAt: Time
    var approvedAt: Option<Time>

    /** `new Waitlist({ email, name, productId, shopifyCustomerId, status })`
        at time `now`, given the path values its setters produce
        (`EmailPath`, `TrimPath`): the defaults are filled in. */
    constructor (email: Option<string>, name: Option<string>, productId: Option<string>,
                 shopifyCustomerId: Option<string>, status: Status, now: Time)
      ensures this.email == email && this.productId == productId && this.name == name
      ensures this.shopifyCustomerId == shopifyCustomerId && this.status == status
      ensures createdAt == now && updatedAt == now && approvedAt == None
    {
      this.email := email;
      this.productId := productId;
      this.name := name;
      this.shopifyCustomerId := shopifyCustomerId;
      this.status := status;
      createdAt := now;
      updatedAt := now;
      approvedAt := None;
    }

    function Errors(): (errs: seq<FieldError>)
      reads this
    {
      Validate(email, productId, name)
    }

    /** The pre-save hook: `updatedAt` becomes `now`; `approvedAt` follows
      `HookApprovedAt`; nothing else changes. */
    method PreSave(now: Time)
      modifies this
      ensures updatedAt == now
      ensures approvedAt == HookApprovedAt(status, old(approvedAt), now)
      ensures email == old(email) && productId == old(productId) && name == old(name)
      ensures status == old(status) && shopifyCustomerId == old(shopifyCustomerId)
      ensures createdAt == old(createdAt)
    {
      updatedAt := now;
      if status == Approved && approvedAt.None? {
        approvedAt := Some(now);
      }
    }

    /** The stored entry for a document that passed validation. */
    function ToEntry(id: Id): (e: Entry)
      reads this
      requires Errors() == []
      ensures e.id == id && e.status == status && e.approvedAt == approvedAt
      ensures e.email == email.value && e.productId == productId.value && e.name == name.value
      ensures e.shopifyCustomerId == shopifyCustomerId
      ensures e.createdAt == createdAt && e.updatedAt == updatedAt
      ensures IsValidEmail(e.email) && IsValidProductId(e.productId) && IsValidName(e.name)
    {
      Entry(id, email.value, productId.value, name.value, status,
            shopifyCustomerId, createdAt, updatedAt, approvedAt)
    }
  }
}
