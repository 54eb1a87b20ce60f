/**
 * The message shown when adding a destination address fails
 * (`interpretAddDestError`): upstream rate limiting gets a fixed Spanish notice,
 * anything else is reported as "Error: " followed by the trimmed error text.
 */
module AddDestError {
  import opened Js
  import opened Strings

  datatype AddDestReport = AddDestReport(message: string, redirect: bool)

  const RateLimitPhrase: string := "rate limited"
  /** The Spanish rate-limit message; written in two pieces so that the verifier
      can read its first character. */
  const RateLimitedMessage: string := "Límite de solicitudes" + " alcanzado. Espera unos segundos."
  const ErrorPrefix: string := "Error: "
  const UnknownError: string := "Desconocido"

  /** `err?.message || err || ''`: the error's message when truthy, else the error
      itself when truthy, else the empty string. */
  function Source(err: JsValue): JsValue {
    if Truthy(Get(err, "message")) then Get(err, "message")
    else if Truthy(err) then err
    else Str("")
  }

  /** The trimmed text of the error, before lower-casing. */
  function RawMessage(err: JsValue, stringOf: JsValue -> string): string {
    Trim(ToJsString(Source(err), stringOf))
  }

  function InterpretAddDestError(err: JsValue, stringOf: JsValue -> string): (r: AddDestReport)
    ensures !r.redirect
    ensures r.message != ""
  {
    var raw := RawMessage(err, stringOf);
    if Contains(ToLower(raw), RateLimitPhrase) then
      AddDestReport(RateLimitedMessage, false)
    else
      AddDestReport(ErrorPrefix + (if raw == "" then UnknownError else raw), false)
  }

  /** Rate limiting is recognised wherever the phrase occurs in the error text, in
      any letter case and whatever whitespace surrounds the text. */
  lemma RateLimitDetection(err: JsValue, stringOf: JsValue -> string)
    ensures InterpretAddDestError(err, stringOf).message == RateLimitedMessage
        <==> Contains(ToLower(ToJsString(Source(err), stringOf)), RateLimitPhrase)
  {
    var x := ToJsString(Source(err), stringOf);
    TrimToLowerCommute(x);
    PhraseUnpadded();
    if Contains(ToLower(x), RateLimitPhrase) {
      ContainsTrim(ToLower(x), RateLimitPhrase);
    }
    if Contains(Trim(ToLower(x)), RateLimitPhrase) {
      ContainsOfTrim(ToLower(x), RateLimitPhrase);
    }
    var raw := RawMessage(err, stringOf);
    PrefixedDiffersFromRateLimit(if raw == "" then UnknownError else raw);
  }

  lemma PhraseUnpadded()
    ensures RateLimitPhrase != [] && Unpadded(RateLimitPhrase)
  {
    assert RateLimitPhrase[0] == 'r' && RateLimitPhrase[|RateLimitPhrase| - 1] == 'd';
  }

  lemma PrefixedDiffersFromRateLimit(text: string)
    ensures ErrorPrefix + text != RateLimitedMessage
  {
    assert (ErrorPrefix + text)[0] == 'E';
    assert RateLimitedMessage[0] == 'L';
  }

  /** Any other error is reported as the prefix followed by its trimmed text, which
      can be read back from the message; an empty text reads "Desconocido". */
  lemma OtherErrorsReported(err: JsValue, stringOf: JsValue -> string)
    requires !Contains(ToLower(ToJsString(Source(err), stringOf)), RateLimitPhrase)
    ensures var m := InterpretAddDestError(err, stringOf).message;
            var raw := RawMessage(err, stringOf);
            && |m| > |ErrorPrefix| && m[..|ErrorPrefix|] == ErrorPrefix
            && (raw != "" ==> m[|ErrorPrefix|..] == raw)
            && (raw == "" ==> m[|ErrorPrefix|..] == UnknownError)
  {
    RateLimitDetection(err, stringOf);
    var raw := RawMessage(err, stringOf);
    PrefixedDiffersFromRateLimit(if raw == "" then UnknownError else raw);
  }

  /** A falsy error (undefined, null, false, 0, "") is reported as unknown. */
  lemma FalsyErrorIsUnknown(err: JsValue, stringOf: JsValue -> string)
    requires !Truthy(err)
    ensures InterpretAddDestError(err, stringOf) == AddDestReport(ErrorPrefix + UnknownError, false)
  {
    assert Source(err) == Str("");
    assert Trim("") == "" by { TrimEmptyIff(""); }
    assert !Contains(ToLower(""), RateLimitPhrase);
  }

  /** A non-empty string `message` property decides the outcome; the rest of the
      error is ignored. */
  lemma MessagePreferred(err: JsValue, message: string, stringOf: JsValue -> string)
    requires Get(err, "message") == Str(message) && message != ""
    ensures InterpretAddDestError(err, stringOf) == InterpretAddDestError(Str(message), stringOf)
  {
    assert Source(err) == Str(message) == Source(Str(message));
  }

  /** A padded, capitalised notice is recognised as rate limiting. */
  lemma RateLimitExample(stringOf: JsValue -> string)
    ensures InterpretAddDestError(Obj(map["message" := Str(" Rate Limited ")]), stringOf)
         == AddDestReport(RateLimitedMessage, false)
  {
    var e := Obj(map["message" := Str(" Rate Limited ")]);
    assert Source(e) == Str(" Rate Limited ");
    assert ToLower(" Rate Limited ") == " rate limited ";
    assert OccursAt(" rate limited ", RateLimitPhrase, 1);
    RateLimitDetection(e, stringOf);
  }

  /** An error text shorter than the phrase cannot be rate limiting: it is reported
      after the prefix exactly as given, once trimmed. */
  lemma ShortErrorReported(text: string, stringOf: JsValue -> string)
    requires text != "" && Unpadded(text) && |text| < |RateLimitPhrase|
    ensures InterpretAddDestError(Str(text), stringOf) == AddDestReport(ErrorPrefix + text, false)
  {
    TrimUnpadded(text);
    assert Source(Str(text)) == Str(text);
    assert !Contains(ToLower(text), RateLimitPhrase);
  }
}
