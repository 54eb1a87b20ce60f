/**
 * The string operations of the JavaScript runtime that the core relies on:
 * `trim` (with ECMAScript's whitespace and line-terminator set), `toLowerCase`
 * (on ASCII letters), `includes`, decimal rendering of integers and `join`.
 */
module Strings {

  /** ECMAScript WhiteSpace and LineTerminator code points, which `trim` removes. */
  predicate IsWhitespace(c: char) {
    || c == '\t' || c == '\n' || c == '\U{000B}' || c == '\U{000C}' || c == '\r'
    || c == ' ' || c == '\U{00A0}' || c == '\U{1680}'
    || ('\U{2000}' <= c <= '\U{200A}')
    || c == '\U{2028}' || c == '\U{2029}' || c == '\U{202F}' || c == '\U{205F}'
    || c == '\U{3000}' || c == '\U{FEFF}'
  }

  predicate AllWhitespace(s: string) {
    forall i :: 0 <= i < |s| ==> IsWhitespace(s[i])
  }

  /** Neither end of `s` is whitespace (vacuously true of the empty string). */
  predicate Unpadded(s: string) {
    s == [] || (!IsWhitespace(s[0]) && !IsWhitespace(s[|s| - 1]))
  }

  function TrimStart(s: string): (r: string)
    ensures |r| <= |s| && r == s[|s| - |r|..]
    ensures forall k :: 0 <= k < |s| - |r| ==> IsWhitespace(s[k])
    ensures r == [] || !IsWhitespace(r[0])
  {
    if s != [] && IsWhitespace(s[0]) then TrimStart(s[1..]) else s
  }

  function TrimEnd(s: string): (r: string)
    ensures |r| <= |s| && r == s[..|r|]
    ensures forall k :: |r| <= k < |s| ==> IsWhitespace(s[k])
    ensures r == [] || !IsWhitespace(r[|r| - 1])
  {
    if s != [] && IsWhitespace(s[|s| - 1]) then TrimEnd(s[..|s| - 1]) else s
  }

  /** `String.prototype.trim`: whitespace removed from both ends. `TrimSplit` says
      where the result sits in `s`. */
  function Trim(s: string): (r: string)
    ensures Unpadded(r) && |r| <= |s|
  {
    TrimEnd(TrimStart(s))
  }

  lemma {:induction false} TrimStartOfPadded(pre: string, u: string)
    requires AllWhitespace(pre)
    requires u == [] || !IsWhitespace(u[0])
    ensures TrimStart(pre + u) == u
    decreases |pre|
  {
    if pre != [] {
      assert (pre + u)[1..] == pre[1..] + u;
      TrimStartOfPadded(pre[1..], u);
    } else {
      assert pre + u == u;
    }
  }

  lemma {:induction false} TrimEndOfPadded(u: string, post: string)
    requires AllWhitespace(post)
    requires u == [] || !IsWhitespace(u[|u| - 1])
    ensures TrimEnd(u + post) == u
    decreases |post|
  {
    if post != [] {
      assert (u + post)[..|u + post| - 1] == u + post[..|post| - 1];
      TrimEndOfPadded(u, post[..|post| - 1]);
    } else {
      assert u + post == u;
    }
  }

  /** Trimming strips exactly the surrounding whitespace: the partner of `Trim`. */
  lemma TrimOfPadded(pre: string, u: string, post: string)
    requires AllWhitespace(pre) && AllWhitespace(post) && Unpadded(u)
    ensures Trim(pre + u + post) == u
  {
    assert pre + u + post == pre + (u + post);
    if u == [] {
      assert AllWhitespace(u + post);
      TrimStartOfPadded(pre + post, []);
      assert pre + u + post == (pre + post) + [];
      TrimEndOfPadded([], []);
    } else {
      TrimStartOfPadded(pre, u + post);
      TrimEndOfPadded(u, post);
    }
  }

  lemma TrimUnpadded(s: string)
    requires Unpadded(s)
    ensures Trim(s) == s
  {
    TrimOfPadded([], s, []);
    assert [] + s + [] == s;
  }

  /** Trimming a string that is all whitespace gives the empty string, and only then. */
  lemma TrimEmptyIff(s: string)
    ensures Trim(s) == [] <==> AllWhitespace(s)
  {
    if AllWhitespace(s) {
      TrimOfPadded(s, [], []);
      assert s + [] + [] == s;
    }
  }

  /** `toLowerCase` on one character; only ASCII letters change. */
  function LowerChar(c: char): char {
    if 'A' <= c <= 'Z' then (c as int + 32) as char else c
  }

  function ToLower(s: string): (r: string)
    ensures |r| == |s| && forall i :: 0 <= i < |s| ==> r[i] == LowerChar(s[i])
  {
    seq(|s|, i requires 0 <= i < |s| => LowerChar(s[i]))
  }

  predicate IsLower(s: string) {
    forall i :: 0 <= i < |s| ==> !('A' <= s[i] <= 'Z')
  }

  lemma ToLowerIsLower(s: string)
    ensures IsLower(ToLower(s)) && ToLower(ToLower(s)) == ToLower(s)
  {
  }

  lemma ToLowerOfLower(s: string)
    requires IsLower(s)
    ensures ToLower(s) == s
  {
  }

  lemma ToLowerConcat(a: string, b: string)
    ensures ToLower(a + b) == ToLower(a) + ToLower(b)
  {
  }

  lemma ToLowerKeepsWhitespace(s: string)
    ensures forall i :: 0 <= i < |s| ==> (IsWhitespace(ToLower(s)[i]) <==> IsWhitespace(s[i]))
    ensures Unpadded(s) <==> Unpadded(ToLower(s))
    ensures AllWhitespace(s) ==> ToLower(s) == s
  {
  }

  lemma {:induction false} TrimStartToLower(s: string)
    ensures TrimStart(ToLower(s)) == ToLower(TrimStart(s))
    decreases |s|
  {
    ToLowerKeepsWhitespace(s);
    if s != [] && IsWhitespace(s[0]) {
      assert ToLower(s)[1..] == ToLower(s[1..]);
      TrimStartToLower(s[1..]);
    }
  }

  lemma {:induction false} TrimEndToLower(s: string)
    ensures TrimEnd(ToLower(s)) == ToLower(TrimEnd(s))
    decreases |s|
  {
    ToLowerKeepsWhitespace(s);
    if s != [] && IsWhitespace(s[|s| - 1]) {
      assert ToLower(s)[..|s| - 1] == ToLower(s[..|s| - 1]);
      TrimEndToLower(s[..|s| - 1]);
    }
  }

  /** `s.toLowerCase().trim()` and `s.trim().toLowerCase()` agree, so the three
      normalisations in the core (vocabulary, error text, rule search) coincide. */
  lemma TrimToLowerCommute(s: string)
    ensures Trim(ToLower(s)) == ToLower(Trim(s))
  {
    TrimStartToLower(s);
    TrimEndToLower(TrimStart(s));
  }

  predicate OccursAt(s: string, sub: string, i: int) {
    0 <= i <= |s| - |sub| && s[i..i + |sub|] == sub
  }

  /** `s.includes(sub)`. */
  predicate Contains(s: string, sub: string) {
    exists i :: 0 <= i <= |s| - |sub| && OccursAt(s, sub, i)
  }

  /** `Trim(s)` is the infix of `s` that starts at `j`; everything removed on the
      left, `s[..j]`, and on the right, `s[j + |Trim(s)|..]`, is whitespace. */
  lemma TrimSplit(s: string) returns (j: nat)
    ensures j + |Trim(s)| <= |s| && Trim(s) == s[j..j + |Trim(s)|]
    ensures forall k :: 0 <= k < j ==> IsWhitespace(s[k])
    ensures forall k :: j + |Trim(s)| <= k < |s| ==> IsWhitespace(s[k])
  {
    var t := TrimStart(s);
    j := |s| - |t|;
    PrefixOfSuffix(s, j, t, TrimEnd(t));
  }

  lemma PrefixOfSuffix(s: string, j: nat, t: string, r: string)
    requires j <= |s| && t == s[j..] && |r| <= |t| && r == t[..|r|]
    requires forall k :: |r| <= k < |t| ==> IsWhitespace(t[k])
    ensures j + |r| <= |s| && r == s[j..j + |r|]
    ensures forall k :: j + |r| <= k < |s| ==> IsWhitespace(s[k])
  {
    forall k | j + |r| <= k < |s|
      ensures IsWhitespace(s[k])
    {
      assert s[k] == t[k - j];
    }
  }

  /** Whatever occurs in the trimmed string occurs in the string. */
  lemma ContainsOfTrim(s: string, sub: string)
    requires Contains(Trim(s), sub)
    ensures Contains(s, sub)
  {
    var j := TrimSplit(s);
    ContainsInInfix(s, j, Trim(s), sub);
  }

  lemma ContainsInInfix(s: string, j: nat, r: string, sub: string)
    requires j + |r| <= |s| && r == s[j..j + |r|] && Contains(r, sub)
    ensures Contains(s, sub)
  {
    var i :| 0 <= i <= |r| - |sub| && OccursAt(r, sub, i);
    var t := r[i..i + |sub|];
    assert forall k :: 0 <= k < |sub| ==> t[k] == s[j + i..j + i + |sub|][k];
    assert s[j + i..j + i + |sub|] == t;
    assert OccursAt(s, sub, j + i);
  }

  /** A phrase that neither starts nor ends with whitespace survives trimming. */
  lemma ContainsTrim(s: string, sub: string)
    requires sub != [] && Unpadded(sub) && Contains(s, sub)
    ensures Contains(Trim(s), sub)
  {
    var j := TrimSplit(s);
    ContainsBetweenWhitespace(s, j, |Trim(s)|, sub);
  }

  lemma ContainsBetweenWhitespace(s: string, j: nat, n: nat, sub: string)
    requires sub != [] && Unpadded(sub) && Contains(s, sub)
    requires j + n <= |s|
    requires forall k :: 0 <= k < j ==> IsWhitespace(s[k])
    requires forall k :: j + n <= k < |s| ==> IsWhitespace(s[k])
    ensures Contains(s[j..j + n], sub)
  {
    var i :| 0 <= i <= |s| - |sub| && OccursAt(s, sub, i);
    OccurrenceInside(s, sub, i, j, n);
    var t := s[j..j + n][i - j..i - j + |sub|];
    assert forall k :: 0 <= k < |sub| ==> t[k] == s[i..i + |sub|][k];
    assert t == s[i..i + |sub|];
    assert OccursAt(s[j..j + n], sub, i - j);
  }

  lemma OccurrenceInside(s: string, sub: string, i: int, j: nat, n: nat)
    requires sub != [] && Unpadded(sub) && OccursAt(s, sub, i)
    requires j + n <= |s|
    requires forall k :: 0 <= k < j ==> IsWhitespace(s[k])
    requires forall k :: j + n <= k < |s| ==> IsWhitespace(s[k])
    ensures j <= i && i + |sub| <= j + n
  {
    assert s[i] == sub[0];
    assert s[i + |sub| - 1] == sub[|sub| - 1];
  }

  /** The `length` of a JavaScript string: UTF-16 code units, two for a character
      outside the Basic Multilingual Plane. */
  function Utf16Length(s: string): nat {
    if s == [] then 0 else Utf16Length(s[..|s| - 1]) + (if s[|s| - 1] as int > 0xFFFF then 2 else 1)
  }

  /** A string is at least as long in UTF-16 as in characters, and exactly as long
      when every character lies in the Basic Multilingual Plane. */
  lemma {:induction false} Utf16LengthBounds(s: string)
    ensures |s| <= Utf16Length(s) <= 2 * |s|
    ensures (forall i :: 0 <= i < |s| ==> s[i] as int <= 0xFFFF) ==> Utf16Length(s) == |s|
  {
    if s != [] {
      var init := s[..|s| - 1];
      assert forall i :: 0 <= i < |init| ==> init[i] == s[i];
      Utf16LengthBounds(init);
    }
  }

  predicate IsDigit(c: char) {
    '0' <= c <= '9'
  }

  predicate AllDigits(s: string) {
    forall i :: 0 <= i < |s| ==> IsDigit(s[i])
  }

  function DigitChar(d: nat): (c: char)
    requires d < 10
    ensures IsDigit(c)
  {
    (d + '0' as int) as char
  }

  function DigitValue(c: char): nat
    requires IsDigit(c)
  {
    c as int - '0' as int
  }

  /** Template-literal rendering of a non-negative integer: decimal, no leading zeros. */
  function NatToString(n: nat): (r: string)
    ensures |r| > 0 && AllDigits(r)
    ensures |r| > 1 ==> r[0] != '0'
    decreases n
  {
    if n < 10 then [DigitChar(n)] else NatToString(n / 10) + [DigitChar(n % 10)]
  }

  /** The value of a string of decimal digits. */
  function ParseDigits(s: string): nat
    requires AllDigits(s)
  {
    if s == [] then 0 else ParseDigits(s[..|s| - 1]) * 10 + DigitValue(s[|s| - 1])
  }

  /** Reading the digits back gives the number: the partner of `NatToString`. */
  lemma {:induction false} ParseNatToString(n: nat)
    ensures ParseDigits(NatToString(n)) == n
    decreases n
  {
    var r := NatToString(n);
    if n < 10 {
      assert r[..|r| - 1] == [];
    } else {
      ParseNatToString(n / 10);
      assert r[..|r| - 1] == NatToString(n / 10);
    }
  }

  lemma NatToStringInjective(m: nat, n: nat)
    requires NatToString(m) == NatToString(n)
    ensures m == n
  {
    ParseNatToString(m);
    ParseNatToString(n);
  }

  /** `Array.prototype.join(sep)` over strings. */
  function Join(parts: seq<string>, sep: string): string
  {
    if |parts| == 0 then ""
    else if |parts| == 1 then parts[0]
    else Join(parts[..|parts| - 1], sep) + sep + parts[|parts| - 1]
  }

  lemma JoinSingle(x: string, sep: string)
    ensures Join([x], sep) == x
  {
  }

  /** Joining two non-empty lists puts one separator between their joins. */
  lemma {:induction false} JoinAppend(a: seq<string>, b: seq<string>, sep: string)
    requires |a| > 0 && |b| > 0
    ensures Join(a + b, sep) == Join(a, sep) + sep + Join(b, sep)
    decreases |b|
  {
    var ab := a + b;
    if |b| == 1 {
      assert ab[..|ab| - 1] == a;
    } else {
      assert ab[..|ab| - 1] == a + b[..|b| - 1];
      JoinAppend(a, b[..|b| - 1], sep);
    }
  }
}
