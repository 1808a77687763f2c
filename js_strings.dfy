/** The handful of JavaScript string operations the server relies on:
    `String.prototype.trim`, the `\s` class of regular expressions,
    `toLowerCase` (on ASCII letters), truthiness, `startsWith` and the
    `length` property, which counts UTF-16 code units. */
module JsStrings {
  import opened Options

  /** JavaScript's WhiteSpace and LineTerminator code points: exactly what
      `trim` strips and what `\s` matches. */
  predicate IsWhitespace(c: char) {
    || c == '\t' || c == '\n' || c == '\U{000B}' || c == '\U{000C}' || c == '\r'
    || c == ' ' || c == '\U{00A0}' || c == '\U{1680}'
    || ('\U{2000}' <= c <= '\U{200A}')
    || c == '\U{2028}' || c == '\U{2029}' || c == '\U{202F}' || c == '\U{205F}'
    || c == '\U{3000}' || c == '\U{FEFF}'
  }

  predicate AllWhitespace(s: string) {
    forall k :: 0 <= k < |s| ==> IsWhitespace(s[k])
  }

  /** Neither starts nor ends with whitespace. */
  predicate IsTrimmed(s: string) {
    s == [] || (!IsWhitespace(s[0]) && !IsWhitespace(s[|s| - 1]))
  }

  function TrimStart(s: string): (r: string)
    ensures |r| <= |s| && r == s[|s| - |r|..]
    ensures AllWhitespace(s[..|s| - |r|])
    ensures r == [] || !IsWhitespace(r[0])
  {
    if s != [] && IsWhitespace(s[0]) then TrimStart(s[1..]) else s
  }

  function TrimEnd(s: string): (r: string)
    ensures |r| <= |s| && r == s[..|r|]
    ensures AllWhitespace(s[|r|..])
    ensures r == [] || !IsWhitespace(r[|r| - 1])
  {
    if s != [] && IsWhitespace(s[|s| - 1]) then TrimEnd(s[..|s| - 1]) else s
  }

  /** `s.trim()`: the infix of `s` left after removing whitespace at both
      ends. */
  function Trim(s: string): (r: string)
    ensures IsTrimmed(r)
    ensures exists i :: TrimmedAt(s, r, i)
  {
    var t := TrimStart(s);
    var r := TrimEnd(t);
    var i := |s| - |t|;
    assert s[i..i + |r|] == t[..|r|] && s[i + |r|..] == t[|r|..];
    assert TrimmedAt(s, r, i);
    r
  }

  /** `r` sits at offset `i` of `s`, with only whitespace before and after it. */
  predicate TrimmedAt(s: string, r: string, i: int) {
    0 <= i <= i + |r| <= |s| && s[i..i + |r|] == r
    && AllWhitespace(s[..i]) && AllWhitespace(s[i + |r|..])
  }

  /** Trimming a trimmed string changes nothing. */
  lemma {:induction false} TrimOfTrimmed(s: string)
    requires IsTrimmed(s)
    ensures Trim(s) == s
  {
    assert TrimStart(s) == s;
    assert TrimEnd(s) == s;
  }

  lemma {:induction false} TrimStartPadded(pre: string, t: string)
    requires AllWhitespace(pre) && (t == [] || !IsWhitespace(t[0]))
    ensures TrimStart(pre + t) == t
  {
    if pre == [] {
      assert pre + t == t;
    } else {
      assert (pre + t)[1..] == pre[1..] + t;
      TrimStartPadded(pre[1..], t);
    }
  }

  lemma {:induction false} TrimEndPadded(t: string, post: string)
    requires AllWhitespace(post) && (t == [] || !IsWhitespace(t[|t| - 1]))
    ensures TrimEnd(t + post) == t
  {
    if post == [] {
      assert t + post == t;
    } else {
      var x := t + post;
      assert x[..|x| - 1] == t + post[..|post| - 1];
      TrimEndPadded(t, post[..|post| - 1]);
    }
  }

  /** Trimming removes any whitespace padding around a trimmed string,
      and nothing more. */
  lemma TrimPadded(pre: string, s: string, post: string)
    requires AllWhitespace(pre) && AllWhitespace(post) && IsTrimmed(s)
    ensures Trim(pre + s + post) == s
  {
    if s == [] {
      assert pre + s + post == (pre + post) + s;
      TrimStartPadded(pre + post, s);
    } else {
      assert pre + s + post == pre + (s + post);
      TrimStartPadded(pre, s + post);
      TrimEndPadded(s, post);
    }
  }

  /** Trimming twice is trimming once. */
  lemma TrimIdempotent(s: string)
    ensures Trim(Trim(s)) == Trim(s)
  {
    TrimOfTrimmed(Trim(s));
  }

  /** `s` is its trim with whitespace on either side. */
  lemma SplitAtTrim(s: string) returns (pre: string, t: string, post: string)
    ensures t == Trim(s) && s == pre + t + post
    ensures AllWhitespace(pre) && AllWhitespace(post) && IsTrimmed(t)
  {
    var u;
    pre, u := SplitAtTrimStart(s);
    t, post := SplitAtTrimEnd(u);
    AppendAssoc(pre, t, post);
  }

  lemma AppendAssoc(a: string, b: string, c: string)
    ensures a + (b + c) == a + b + c
  {
  }

  lemma SplitAtTrimStart(s: string) returns (pre: string, u: string)
    ensures u == TrimStart(s) && s == pre + u && AllWhitespace(pre)
  {
    u := TrimStart(s);
    pre := s[..|s| - |u|];
  }

  lemma SplitAtTrimEnd(u: string) returns (t: string, post: string)
    ensures t == TrimEnd(u) && u == t + post && AllWhitespace(post)
  {
    t := TrimEnd(u);
    post := u[|t|..];
  }

  /** Every character of `Trim(s)` occurs in `s`. */
  lemma TrimChars(s: string)
    ensures forall c :: c in Trim(s) ==> c in s
  {
    var r := Trim(s);
    var i :| TrimmedAt(s, r, i);
    SliceChars(s, i, i + |r|);
  }

  lemma SliceChars(s: string, i: int, j: int)
    requires 0 <= i <= j <= |s|
    ensures forall c :: c in s[i..j] ==> c in s
  {
    forall c | c in s[i..j] ensures c in s {
      var k :| i <= k < j && s[k] == c;
    }
  }

  predicate IsUpperAscii(c: char) { 'A' <= c <= 'Z' }

  function ToLowerChar(c: char): (r: char)
    ensures !IsUpperAscii(r)
    ensures IsWhitespace(r) <==> IsWhitespace(c)
    ensures !IsUpperAscii(c) ==> r == c
    ensures IsUpperAscii(c) ==> r as int == c as int + 32
  {
    if IsUpperAscii(c) then (c as int + 32) as char else c
  }

  /** `s.toLowerCase()` restricted to the ASCII letters. */
  function ToLower(s: string): (r: string)
    ensures |r| == |s|
    ensures forall k :: 0 <= k < |s| ==> r[k] == ToLowerChar(s[k])
  {
    seq(|s|, k requires 0 <= k < |s| => ToLowerChar(s[k]))
  }

  /** Lower-casing works character by character, so it distributes over
      concatenation and keeps whitespace whitespace. */
  lemma ToLowerAppend(a: string, b: string)
    ensures ToLower(a + b) == ToLower(a) + ToLower(b)
    ensures AllWhitespace(a) ==> AllWhitespace(ToLower(a))
  {
    var x, y := ToLower(a + b), ToLower(a) + ToLower(b);
    forall k | 0 <= k < |x| ensures x[k] == y[k] {
      if k >= |a| {
        assert (a + b)[k] == b[k - |a|];
      }
    }
  }

  predicate HasNoUpperAscii(s: string) {
    forall c :: c in s ==> !IsUpperAscii(c)
  }

  lemma ToLowerOfLower(s: string)
    requires HasNoUpperAscii(s)
    ensures ToLower(s) == s
  {
    forall k | 0 <= k < |s| ensures ToLower(s)[k] == s[k] {
      assert s[k] in s;
    }
  }

  /** JavaScript truthiness of a possibly absent string: present and
      non-empty. */
  predicate Truthy(s: Option<string>) {
    s.Some? && s.value != ""
  }

  function StartsWith(s: string, prefix: string): bool {
    |prefix| <= |s| && s[..|prefix|] == prefix
  }

  /** The `length` of a JavaScript string: code points above U+FFFF take
      two UTF-16 code units. */
  function Utf16Length(s: string): (n: nat)
    ensures |s| <= n <= 2 * |s|
    ensures (forall k :: 0 <= k < |s| ==> s[k] as int < 0x10000) ==> n == |s|
    ensures |s| == 1 ==> (n == 2 <==> s[0] as int >= 0x10000) && (n == 1 <==> s[0] as int < 0x10000)
  {
    if s == [] then 0
    else (if s[0] as int < 0x10000 then 1 else 2) + Utf16Length(s[1..])
  }

  /** The length of a concatenation is the sum of the lengths, so a string
      counts one unit per character below U+10000 and two per character
      above. */
  lemma {:induction false} Utf16LengthAppend(a: string, b: string)
    ensures Utf16Length(a + b) == Utf16Length(a) + Utf16Length(b)
    decreases |a|
  {
    if a == [] {
      assert a + b == b;
    } else {
      assert (a + b)[0] == a[0] && (a + b)[1..] == a[1..] + b;
      Utf16LengthAppend(a[1..], b);
    }
  }

  /** A single character above U+FFFF, such as an emoji, is two units long. */
  lemma AstralCharIsTwoUnits()
    ensures Utf16Length("\U{1F600}") == 2
    ensures Utf16Length("ab\U{1F600}") == 4
  {
    Utf16LengthAppend("ab", "\U{1F600}");
  }
}
