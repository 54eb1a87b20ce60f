/**
 * Classification of the opaque `verified` field of a destination address
 * (public/utils/verification.js). The field arrives in several shapes: a
 * boolean, the number 1, a status word, an ISO-8601 timestamp, or an object with
 * a `status` or `verification_status` property. Whether `Date.parse` accepts a
 * string is the parameter `parsesAsDate`.
 */
module Verification {
  import opened Strings
  import opened Js

  const PositiveVerificationStrings: seq<string> := [
    "true", "1", "yes", "y", "active", "enabled", "verified", "verificado",
    "si", "sí", "on", "ok", "okay", "approved", "success", "successful",
    "complete", "completed", "confirmado", "confirmed", "valid", "validado"
  ]

  const NegativeVerificationStrings: seq<string> := [
    "false", "0", "no", "n", "inactive", "disabled", "pending", "awaiting",
    "processing", "verifying", "requested", "rejected", "failed", "error",
    "denied", "blocked", "unverified"
  ]

  /** The offset, `Z` or `±HH:MM`, that ends a timestamp. */
  predicate IsZone(z: string) {
    || z == "Z"
    || (&& |z| == 6 && (z[0] == '+' || z[0] == '-')
        && IsDigit(z[1]) && IsDigit(z[2]) && z[3] == ':' && IsDigit(z[4]) && IsDigit(z[5]))
  }

  /** What may follow the seconds: an optional `.` with one to nine digits, then the offset. */
  predicate IsFractionAndZone(t: string) {
    || IsZone(t)
    || (&& |t| >= 2 && t[0] == '.'
        && exists k :: 1 <= k <= 9 && FractionThenZone(t, k))
  }

  /** `t` is `.`, then `k` digits, then an offset. */
  predicate FractionThenZone(t: string, k: nat) {
    k < |t| && t[0] == '.' && AllDigits(t[1..k + 1]) && IsZone(t[k + 1..])
  }

  /** The shape `YYYY-MM-DDTHH:MM:SS[.f{1,9}](Z|±HH:MM)` of the whole string
      (`ISO_TIMESTAMP_REGEX`; `\d` is an ASCII digit, `$` the end of input). */
  predicate MatchesIsoTimestamp(s: string) {
    && |s| >= 20
    && IsDigit(s[0]) && IsDigit(s[1]) && IsDigit(s[2]) && IsDigit(s[3]) && s[4] == '-'
    && IsDigit(s[5]) && IsDigit(s[6]) && s[7] == '-' && IsDigit(s[8]) && IsDigit(s[9])
    && s[10] == 'T'
    && IsDigit(s[11]) && IsDigit(s[12]) && s[13] == ':' && IsDigit(s[14]) && IsDigit(s[15])
    && s[16] == ':' && IsDigit(s[17]) && IsDigit(s[18])
    && IsFractionAndZone(s[19..])
  }

  lemma IsoTimestampLength(s: string)
    requires MatchesIsoTimestamp(s)
    ensures 20 <= |s| <= 35 && Unpadded(s)
  {
    var t := s[19..];
    if !IsZone(t) {
      var k :| 1 <= k <= 9 && FractionThenZone(t, k);
      assert |t[k + 1..]| <= 6;
    }
    assert IsDigit(s[0]);
    assert s[|s| - 1] == t[|t| - 1];
  }

  /** `isIsoTimestampString`: after trimming, non-empty, of timestamp shape, and accepted by `Date.parse`. */
  function IsIsoTimestampString(value: string, parsesAsDate: string -> bool): (r: bool)
    ensures r ==> MatchesIsoTimestamp(Trim(value)) && parsesAsDate(Trim(value))
    ensures r ==> 20 <= |Trim(value)| <= 35
  {
    var trimmed := Trim(value);
    if trimmed == "" then false
    else if !MatchesIsoTimestamp(trimmed) then false
    else
      IsoTimestampLength(trimmed);
      parsesAsDate(trimmed)
  }

  /** `isVerifiedStatus`: total and deterministic; absent values are never verified. */
  function IsVerifiedStatus(value: JsValue, parsesAsDate: string -> bool): (verified: bool)
    ensures value.Undefined? || value.Null? ==> !verified
  {
    if value == Bool(true) || value == Num(1.0) then true
    else if value.Str? && Trim(ToLower(value.s)) in PositiveVerificationStrings then true
    else if value.Str? && IsIsoTimestampString(value.s, parsesAsDate) then true
    else if (value.Obj? || value.Arr?)
      && (Get(value, "status") == Str("verified") || Get(value, "verification_status") == Str("active"))
    then true
    else false
  }

  /** A string is verified iff its normalised form is a positive word or it is a timestamp. */
  lemma StringClassification(s: string, parsesAsDate: string -> bool)
    ensures IsVerifiedStatus(Str(s), parsesAsDate)
        == (Trim(ToLower(s)) in PositiveVerificationStrings || IsIsoTimestampString(s, parsesAsDate))
  {
  }

  /** The characters the vocabularies are written in. */
  predicate IsWordChar(c: char) {
    'a' <= c <= 'z' || '0' <= c <= '9' || c == 'í'
  }

  predicate IsWord(w: string) {
    0 < |w| < 20 && IsWordChar(w[0]) && IsWordChar(w[|w| - 1])
  }

  lemma PositiveWordsWellFormedA(i: int)
    requires 0 <= i < 11
    ensures IsWord(PositiveVerificationStrings[i])
  {
  }

  lemma PositiveWordsWellFormedB(i: int)
    requires 11 <= i < |PositiveVerificationStrings|
    ensures IsWord(PositiveVerificationStrings[i])
  {
  }

  lemma PositiveWordsWellFormed()
    ensures forall w :: w in PositiveVerificationStrings ==> IsWord(w)
  {
    forall i | 0 <= i < |PositiveVerificationStrings| ensures IsWord(PositiveVerificationStrings[i]) {
      if i < 11 {
        PositiveWordsWellFormedA(i);
      } else {
        PositiveWordsWellFormedB(i);
      }
    }
  }

  lemma NegativeWordsWellFormed()
    ensures forall w :: w in NegativeVerificationStrings ==> IsWord(w)
  {
    forall w | w in NegativeVerificationStrings ensures IsWord(w) {
      if w == "false" {} else if w == "0" {} else if w == "no" {} else if w == "n" {}
      else if w == "inactive" {} else if w == "disabled" {} else if w == "pending" {}
      else if w == "awaiting" {} else if w == "processing" {} else if w == "verifying" {}
      else if w == "requested" {} else if w == "rejected" {} else if w == "failed" {}
      else if w == "error" {} else if w == "denied" {} else if w == "blocked" {} else {}
    }
  }

  lemma WordUnpadded(w: string)
    requires IsWord(w)
    ensures Unpadded(w) && w != "" && |w| < 20
  {
  }

  lemma NegativeWordsNotPositiveA(j: int)
    requires 0 <= j < 6
    ensures NegativeVerificationStrings[j] !in PositiveVerificationStrings
  {
  }

  lemma NegativeWordsNotPositiveB(j: int)
    requires 6 <= j < 12
    ensures NegativeVerificationStrings[j] !in PositiveVerificationStrings
  {
  }

  lemma NegativeWordsNotPositiveC(j: int)
    requires 12 <= j < |NegativeVerificationStrings|
    ensures NegativeVerificationStrings[j] !in PositiveVerificationStrings
  {
  }

  /** The two vocabularies share no word, and no negative word has timestamp shape. */
  lemma {:induction false} VocabulariesDisjoint()
    ensures forall w :: w in NegativeVerificationStrings ==> w !in PositiveVerificationStrings
    ensures forall w :: w in NegativeVerificationStrings ==> !MatchesIsoTimestamp(w)
  {
    NegativeWordsWellFormed();
    forall w | w in NegativeVerificationStrings ensures w !in PositiveVerificationStrings {
      var j :| 0 <= j < |NegativeVerificationStrings| && NegativeVerificationStrings[j] == w;
      if j < 6 {
        NegativeWordsNotPositiveA(j);
      } else if j < 12 {
        NegativeWordsNotPositiveB(j);
      } else {
        NegativeWordsNotPositiveC(j);
      }
    }
  }

  /** `word` surrounded by whitespace normalises to `w` and trims to `word`. */
  lemma NormalisePadded(pre: string, word: string, post: string, w: string)
    requires AllWhitespace(pre) && AllWhitespace(post)
    requires ToLower(word) == w && w != "" && Unpadded(w)
    ensures Trim(ToLower(pre + word + post)) == w
    ensures Trim(pre + word + post) == word
  {
    ToLowerKeepsWhitespace(word);
    ToLowerKeepsWhitespace(pre);
    ToLowerKeepsWhitespace(post);
    ToLowerConcat(pre + word, post);
    ToLowerConcat(pre, word);
    TrimOfPadded(pre, w, post);
    TrimOfPadded(pre, word, post);
  }

  /** A positive word is verified whatever its ASCII case and surrounding whitespace. */
  lemma PositiveWordVerified(pre: string, word: string, post: string, parsesAsDate: string -> bool)
    requires AllWhitespace(pre) && AllWhitespace(post)
    requires ToLower(word) in PositiveVerificationStrings
    ensures IsVerifiedStatus(Str(pre + word + post), parsesAsDate)
  {
    PositiveWordsWellFormed();
    WordUnpadded(ToLower(word));
    NormalisePadded(pre, word, post, ToLower(word));
  }

  /** A negative word is unverified whatever its ASCII case, surrounding whitespace
      and the date parser. */
  lemma NegativeWordUnverified(pre: string, word: string, post: string, parsesAsDate: string -> bool)
    requires AllWhitespace(pre) && AllWhitespace(post)
    requires ToLower(word) in NegativeVerificationStrings
    ensures !IsVerifiedStatus(Str(pre + word + post), parsesAsDate)
  {
    NegativeWordsWellFormed();
    VocabulariesDisjoint();
    var w := ToLower(word);
    var s := pre + word + post;
    WordUnpadded(w);
    NormalisePadded(pre, word, post, w);
    StringClassification(s, parsesAsDate);
  }

  /** A well-formed timestamp that `Date.parse` accepts is verified, although it is in
      neither vocabulary. */
  lemma TimestampVerified(pre: string, t: string, post: string, parsesAsDate: string -> bool)
    requires AllWhitespace(pre) && AllWhitespace(post)
    requires MatchesIsoTimestamp(t) && parsesAsDate(t)
    ensures IsVerifiedStatus(Str(pre + t + post), parsesAsDate)
    ensures t !in PositiveVerificationStrings && t !in NegativeVerificationStrings
  {
    IsoTimestampLength(t);
    PositiveWordsWellFormed();
    NegativeWordsWellFormed();
    TrimOfPadded(pre, t, post);
  }

  lemma LongStringNotPositive(n: string)
    requires |n| >= 20
    ensures n !in PositiveVerificationStrings
  {
    PositiveWordsWellFormed();
  }

  /** A timestamp of the right shape that `Date.parse` rejects is unverified. */
  lemma UnparsableTimestampUnverified(t: string, parsesAsDate: string -> bool)
    requires MatchesIsoTimestamp(t) && !parsesAsDate(t)
    ensures !IsVerifiedStatus(Str(t), parsesAsDate)
  {
    IsoTimestampLength(t);
    TrimUnpadded(t);
    TrimToLowerCommute(t);
    LongStringNotPositive(Trim(ToLower(t)));
    StringClassification(t, parsesAsDate);
  }

  /** Empty and whitespace-only strings are unverified. */
  lemma BlankStringUnverified(s: string, parsesAsDate: string -> bool)
    requires AllWhitespace(s)
    ensures !IsVerifiedStatus(Str(s), parsesAsDate)
  {
    TrimEmptyIff(s);
    ToLowerKeepsWhitespace(s);
    assert Trim(ToLower(s)) == [];
    PositiveWordsWellFormed();
    assert [] !in PositiveVerificationStrings;
    assert !IsIsoTimestampString(s, parsesAsDate);
    StringClassification(s, parsesAsDate);
  }

  /** Booleans, numbers, `null` and `undefined`: only `true` and `1` are verified. */
  lemma ScalarClassification(parsesAsDate: string -> bool)
    ensures forall b: bool :: IsVerifiedStatus(Bool(b), parsesAsDate) == b
    ensures forall n: real :: IsVerifiedStatus(Num(n), parsesAsDate) == (n == 1.0)
    ensures !IsVerifiedStatus(Null, parsesAsDate) && !IsVerifiedStatus(Undefined, parsesAsDate)
  {
  }

  /** An object is verified iff `status` is exactly "verified" or `verification_status`
      is exactly "active": the object branch ignores the vocabulary and case. */
  lemma ObjectClassification(fields: map<string, JsValue>, parsesAsDate: string -> bool)
    ensures IsVerifiedStatus(Obj(fields), parsesAsDate) <==>
              || ("status" in fields && fields["status"] == Str("verified"))
              || ("verification_status" in fields && fields["verification_status"] == Str("active"))
    ensures !IsVerifiedStatus(Obj(map["status" := Str("active")]), parsesAsDate)
    ensures !IsVerifiedStatus(Obj(map["status" := Str("Verified")]), parsesAsDate)
  {
  }
}
