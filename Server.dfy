/**
 * The request logic of the application server (src/server.js): the login wall
 * (`requireAuth` and the login and logout routes), the request-body schemas, and
 * the routes that list, create and toggle forwarding rules and destination
 * addresses against the Cloudflare API.
 *
 * Environment variables are `Option<string>` (`None` when unset). Zod's e-mail
 * check is the parameter `isEmail`. A route is modelled after `requireAuth` has
 * let the request through; its upstream answers are parameters, as in
 * `CloudflareApi`, and its outcome is the reply together with the requests it sent.
 */
module Server {
  import opened Wrappers
  import opened Js
  import opened Strings
  import opened CloudflareApi

  datatype Config = Config(authUser: Option<string>, authPass: Option<string>, zoneId: Option<string>,
                           accountId: Option<string>, domain: Option<string>)

  /** An HTTP reply: status code and JSON body. */
  datatype Reply = Reply(status: nat, body: JsValue)

  /** What a route did: its reply and the upstream requests it sent, in order. */
  datatype RouteOutcome = RouteOutcome(reply: Reply, sent: seq<HttpRequest>)

  function ErrorBody(message: string): JsValue {
    Obj(map["error" := Str(message)])
  }

  const SuccessBody: JsValue := Obj(map["success" := Bool(true)])

  /** An environment variable inside a template literal: unset reads "undefined". */
  function EnvText(v: Option<string>): string {
    if v.Some? then v.value else "undefined"
  }

  /** An environment variable as a JavaScript value. */
  function EnvValue(v: Option<string>): JsValue {
    if v.Some? then Str(v.value) else Undefined
  }

  /** `AUTH_USER && AUTH_PASS`: both set and non-empty. */
  predicate CredentialsConfigured(c: Config) {
    c.authUser.Some? && c.authUser.value != "" && c.authPass.Some? && c.authPass.value != ""
  }

  // ---------------------------------------------------------------------------
  // The login wall

  datatype Gate = Proceed | RedirectTo(location: string) | Reject(status: nat, error: string)

  const NotConfiguredMessage: string := "Credenciales de servidor no configuradas (AUTH_USER/AUTH_PASS)"
  const LoginPage: string := "/login.html"

  /** `requireAuth`: the configuration is checked before the session, and the
      session before content negotiation. */
  function RequireAuth(c: Config, authenticated: bool, acceptsHtml: bool): (g: Gate)
    ensures g.Proceed? <==> CredentialsConfigured(c) && authenticated
    ensures !CredentialsConfigured(c) ==> g == Reject(500, NotConfiguredMessage)
    ensures g.RedirectTo? <==> CredentialsConfigured(c) && !authenticated && acceptsHtml
    ensures g.RedirectTo? ==> g.location == LoginPage
    ensures g.Reject? && g.status == 401 <==> CredentialsConfigured(c) && !authenticated && !acceptsHtml
  {
    if !CredentialsConfigured(c) then Reject(500, NotConfiguredMessage)
    else if authenticated then Proceed
    else if acceptsHtml then RedirectTo(LoginPage)
    else Reject(401, "No autorizado")
  }

  /** The check of `POST /api/login` as written: strict equality of the body's
      `username` and `password` with the configured values, which are `undefined`
      when unset. */
  predicate LoginAcceptsAsWritten(c: Config, body: JsValue) {
    Get(body, "username") == EnvValue(c.authUser) && Get(body, "password") == EnvValue(c.authPass)
  }

  /** With no credentials configured, an empty body passes the check as written. */
  lemma UnconfiguredLoginAcceptedAsWritten()
    ensures var c := Config(None, None, None, None, None);
            && !CredentialsConfigured(c)
            && LoginAcceptsAsWritten(c, Obj(map[]))
  {
  }

  /** With only the user configured, the user name alone passes the check as written. */
  lemma PasswordlessLoginAcceptedAsWritten(user: string)
    requires user != ""
    ensures var c := Config(Some(user), None, None, None, None);
            LoginAcceptsAsWritten(c, Obj(map["username" := Str(user)]))
  {
  }

  /** The reply of `POST /api/login` as written. */
  function LoginReplyAsWritten(c: Config, body: JsValue): Reply {
    if LoginAcceptsAsWritten(c, body) then Reply(200, SuccessBody)
    else Reply(401, ErrorBody("Credenciales incorrectas"))
  }

  /** `POST /api/login` corrected: answering 500 when credentials are not configured,
      as `requireAuth` does (src/server.js:60-77), and otherwise following the
      strict-equality check. */
  function LoginDecision(c: Config, body: JsValue): Reply {
    if !CredentialsConfigured(c) then Reply(500, ErrorBody(NotConfiguredMessage))
    else if LoginAcceptsAsWritten(c, body) then Reply(200, SuccessBody)
    else Reply(401, ErrorBody("Credenciales incorrectas"))
  }

  /** Login succeeds exactly when both fields are strings equal to the configured,
      non-empty credentials; where credentials are configured it agrees with the
      check as written. */
  lemma LoginDecisionSound(c: Config, body: JsValue)
    ensures LoginDecision(c, body).status == 200 <==>
              && CredentialsConfigured(c)
              && Get(body, "username") == Str(c.authUser.value)
              && Get(body, "password") == Str(c.authPass.value)
    ensures LoginDecision(c, body).status == 500 <==> !CredentialsConfigured(c)
    ensures CredentialsConfigured(c) ==>
              (LoginDecision(c, body).status == 200 <==> LoginAcceptsAsWritten(c, body))
  {
  }

  /** Where credentials are configured, the route as written and the corrected
      decision give the same reply. */
  lemma LoginAsWrittenWhenConfigured(c: Config, body: JsValue)
    requires CredentialsConfigured(c)
    ensures LoginReplyAsWritten(c, body) == LoginDecision(c, body)
    ensures LoginReplyAsWritten(c, body).status == 200 <==>
              Get(body, "username") == Str(c.authUser.value) && Get(body, "password") == Str(c.authPass.value)
  {
  }

  /** The session record of one browser. */
  class Session {
    var authenticated: bool

    constructor()
      ensures !authenticated
    {
      authenticated := false;
    }

    /** `POST /api/login` as written: only a successful login sets the flag; a
        failed one leaves the session as it was. */
    method Login(c: Config, body: JsValue) returns (reply: Reply)
      modifies this
      ensures reply == LoginReplyAsWritten(c, body)
      ensures authenticated == (old(authenticated) || reply.status == 200)
    {
      reply := LoginReplyAsWritten(c, body);
      if reply.status == 200 {
        authenticated := true;
      }
    }

    /** `POST /api/logout`: the session is destroyed unless the store fails, in
        which case the stored session stays as it was. */
    method Logout(storeFailed: bool) returns (reply: Reply)
      modifies this
      ensures storeFailed ==> reply == Reply(500, ErrorBody("Error al cerrar sesión"))
                              && authenticated == old(authenticated)
      ensures !storeFailed ==> reply == Reply(200, SuccessBody) && !authenticated
    {
      if storeFailed {
        reply := Reply(500, ErrorBody("Error al cerrar sesión"));
      } else {
        authenticated := false;
        reply := Reply(200, SuccessBody);
      }
    }
  }

  /** The wall holds with the login route as written: a browser that logs in and
      then asks for a protected route gets through exactly when the corrected
      decision accepts the login, that is, when credentials are configured and
      match. A login accepted only because credentials are unset still meets 500. */
  method LoginThenAccess(c: Config, body: JsValue, acceptsHtml: bool) returns (g: Gate)
    ensures g.Proceed? <==> LoginDecision(c, body).status == 200
  {
    var s := new Session();
    var reply := s.Login(c, body);
    LoginDecisionSound(c, body);
    g := RequireAuth(c, s.authenticated, acceptsHtml);
  }

  // ---------------------------------------------------------------------------
  // Request-body schemas

  /** A Zod issue: the offending field ("" for the body itself) and its message. */
  datatype Issue = Issue(field: string, message: string)

  const AliasEmpty: string := "El alias no puede estar vacío"
  const AliasTooLong: string := "El alias es demasiado largo"
  const AliasCharset: string := "Solo minúsculas, números, puntos y guiones"
  const DestEmailInvalid: string := "Email de destino inválido"
  const AddressEmailInvalid: string := "Formato de correo inválido"

  /** The class `[a-z0-9._-]`. */
  predicate IsLocalPartChar(ch: char) {
    ('a' <= ch <= 'z') || ('0' <= ch <= '9') || ch == '.' || ch == '_' || ch == '-'
  }

  /** `/^[a-z0-9._-]+$/`. */
  predicate MatchesLocalPartPattern(s: string) {
    |s| >= 1 && forall i :: 0 <= i < |s| ==> IsLocalPartChar(s[i])
  }

  /** The type names of Zod's "Expected string, received …" messages. */
  function TypeName(v: JsValue): string {
    match v
    case Undefined => "undefined"
    case Null => "null"
    case Bool(_) => "boolean"
    case Num(_) => "number"
    case Str(_) => "string"
    case Arr(_) => "array"
    case Obj(_) => "object"
  }

  /** The issue for a field that is not a string; a missing field is "Required". */
  function TypeIssue(field: string, v: JsValue): Issue {
    if v.Undefined? then Issue(field, "Required")
    else Issue(field, "Expected string, received " + TypeName(v))
  }

  /** The checks of `localPart`, all of which run, in order: `min(1)`, `max(64)`, `regex`.
      Zod's lengths are JavaScript string lengths, in UTF-16 code units. */
  function LocalPartIssues(s: string): seq<Issue> {
    (if Utf16Length(s) < 1 then [Issue("localPart", AliasEmpty)] else [])
    + (if Utf16Length(s) > 64 then [Issue("localPart", AliasTooLong)] else [])
    + (if !MatchesLocalPartPattern(s) then [Issue("localPart", AliasCharset)] else [])
  }

  function EmailIssues(field: string, v: JsValue, message: string, isEmail: string -> bool): seq<Issue> {
    if !v.Str? then [TypeIssue(field, v)]
    else if !isEmail(v.s) then [Issue(field, message)]
    else []
  }

  function NotAnObject(v: JsValue): Issue {
    Issue("", "Expected object, received " + TypeName(v))
  }

  datatype RuleInput = RuleInput(localPart: string, destEmail: string)

  /** `ruleSchema.parse(req.body)`: every issue of every field, or the two strings. */
  function ParseRuleBody(body: JsValue, isEmail: string -> bool): Result<RuleInput, seq<Issue>> {
    if !body.Obj? then Failure([NotAnObject(body)])
    else
      var lp := Get(body, "localPart");
      var issues := (if lp.Str? then LocalPartIssues(lp.s) else [TypeIssue("localPart", lp)])
                    + EmailIssues("destEmail", Get(body, "destEmail"), DestEmailInvalid, isEmail);
      if issues == [] then Success(RuleInput(lp.s, Get(body, "destEmail").s)) else Failure(issues)
  }

  /** `addressSchema.parse(req.body)`. */
  function ParseAddressBody(body: JsValue, isEmail: string -> bool): Result<string, seq<Issue>> {
    if !body.Obj? then Failure([NotAnObject(body)])
    else
      var issues := EmailIssues("email", Get(body, "email"), AddressEmailInvalid, isEmail);
      if issues == [] then Success(Get(body, "email").s) else Failure(issues)
  }

  /** A local part made of pattern characters is as long in UTF-16 code units as
      in code points. */
  lemma LocalPartCharsUtf16(s: string)
    requires forall i :: 0 <= i < |s| ==> IsLocalPartChar(s[i])
    ensures Utf16Length(s) == |s|
  {
    assert forall i :: 0 <= i < |s| ==> s[i] as int <= 0xFFFF;
    Utf16LengthBounds(s);
  }

  /** `min(1)` reports exactly the empty local part. */
  lemma LocalPartEmptyIssue(s: string)
    ensures Issue("localPart", AliasEmpty) in LocalPartIssues(s) <==> s == ""
  {
    Utf16LengthBounds(s);
    if s == "" {
      assert LocalPartIssues(s)[0] == Issue("localPart", AliasEmpty);
    }
  }

  /** `max(64)` reports exactly the local parts longer than 64 UTF-16 code units. */
  lemma LocalPartTooLongIssue(s: string)
    ensures Issue("localPart", AliasTooLong) in LocalPartIssues(s) <==> Utf16Length(s) > 64
  {
    if Utf16Length(s) > 64 {
      assert LocalPartIssues(s)[0] == Issue("localPart", AliasTooLong);
    }
  }

  /** The regular expression reports exactly the local parts it does not match. */
  lemma LocalPartCharsetIssue(s: string)
    ensures Issue("localPart", AliasCharset) in LocalPartIssues(s) <==> !MatchesLocalPartPattern(s)
  {
    if !MatchesLocalPartPattern(s) {
      var issues := LocalPartIssues(s);
      assert issues[|issues| - 1] == Issue("localPart", AliasCharset);
    }
  }

  /** The local-part rule: accepted exactly when it has 1 to 64 characters, all in
      `[a-z0-9._-]`; each failed check contributes its own issue. */
  lemma LocalPartRule(s: string)
    ensures LocalPartIssues(s) == [] <==> 1 <= |s| <= 64 && forall i :: 0 <= i < |s| ==> IsLocalPartChar(s[i])
    ensures Issue("localPart", AliasEmpty) in LocalPartIssues(s) <==> s == ""
    ensures Issue("localPart", AliasTooLong) in LocalPartIssues(s) <==> Utf16Length(s) > 64
    ensures Issue("localPart", AliasCharset) in LocalPartIssues(s) <==> !MatchesLocalPartPattern(s)
  {
    LocalPartEmptyIssue(s);
    LocalPartTooLongIssue(s);
    LocalPartCharsetIssue(s);
    if forall i :: 0 <= i < |s| ==> IsLocalPartChar(s[i]) {
      LocalPartCharsUtf16(s);
    }
  }

  /** An upper-case letter or an `@` anywhere in the alias is rejected. */
  lemma LocalPartRejectsUpperAndAt(s: string, i: nat)
    requires i < |s| && (('A' <= s[i] <= 'Z') || s[i] == '@')
    ensures Issue("localPart", AliasCharset) in LocalPartIssues(s)
  {
    assert !IsLocalPartChar(s[i]);
    var issues := LocalPartIssues(s);
    assert issues[|issues| - 1] == Issue("localPart", AliasCharset);
  }

  /** The rule body is accepted exactly when it is an object whose `localPart` is a
      valid alias and whose `destEmail` is a string passing the e-mail check, and then
      those two strings are what the route works with. */
  lemma ParseRuleBodyAccepts(body: JsValue, isEmail: string -> bool)
    ensures ParseRuleBody(body, isEmail).Success? <==>
              && body.Obj?
              && Get(body, "localPart").Str? && LocalPartIssues(Get(body, "localPart").s) == []
              && Get(body, "destEmail").Str? && isEmail(Get(body, "destEmail").s)
    ensures ParseRuleBody(body, isEmail).Success? ==>
              ParseRuleBody(body, isEmail).value
              == RuleInput(Get(body, "localPart").s, Get(body, "destEmail").s)
    ensures ParseRuleBody(body, isEmail).Failure? ==> |ParseRuleBody(body, isEmail).error| > 0
  {
  }

  lemma ParseAddressBodyAccepts(body: JsValue, isEmail: string -> bool)
    ensures ParseAddressBody(body, isEmail).Success? <==>
              body.Obj? && Get(body, "email").Str? && isEmail(Get(body, "email").s)
    ensures ParseAddressBody(body, isEmail).Success? ==>
              ParseAddressBody(body, isEmail).value == Get(body, "email").s
    ensures ParseAddressBody(body, isEmail).Failure? ==> |ParseAddressBody(body, isEmail).error| > 0
  {
  }

  // ---------------------------------------------------------------------------
  // Errors of route handlers

  /** What a handler's `catch` can receive: a `ZodError` or an error of the client. */
  datatype RouteError = Invalid(issues: seq<Issue>) | Upstream(cause: FetchError)

  /** The `message` of an error. That of a `ZodError` (its issues serialised), that
      of a rejected `fetch` and that of the `TypeError` of a property read on `null`
      are the parameters. */
  datatype ErrorTexts = ErrorTexts(issuesText: seq<Issue> -> string, networkText: string, typeErrorText: string)

  function ErrorMessage(e: RouteError, texts: ErrorTexts): string {
    match e
    case Invalid(issues) => texts.issuesText(issues)
    case Upstream(UpstreamError(m)) => m
    case Upstream(NetworkError) => texts.networkText
  }

  /** `err instanceof z.ZodError ? 400 : 500`. */
  function ErrorStatus(e: RouteError): nat {
    if e.Invalid? then 400 else 500
  }

  function ErrorReply(e: RouteError, texts: ErrorTexts): Reply {
    Reply(ErrorStatus(e), ErrorBody(ErrorMessage(e, texts)))
  }

  /** `{ok: true, result: apiRes}`; an undefined result is omitted by JSON. */
  function OkResult(result: Option<JsValue>): JsValue {
    if result.Some? then Obj(map["ok" := Bool(true), "result" := result.value]) else Obj(map["ok" := Bool(true)])
  }

  function ResultBody(result: Option<JsValue>): JsValue {
    if result.Some? then Obj(map["result" := result.value]) else Obj(map[])
  }

  // ---------------------------------------------------------------------------
  // Rules

  function RulesPath(c: Config): string {
    "/zones/" + EnvText(c.zoneId) + "/email/routing/rules"
  }

  function RulePath(c: Config, id: string): string {
    RulesPath(c) + "/" + id
  }

  function AddressesPath(c: Config): string {
    "/accounts/" + EnvText(c.accountId) + "/email/routing/addresses"
  }

  /** `${localPart}@${DOMAIN}`. */
  function AliasEmail(localPart: string, c: Config): string {
    localPart + "@" + EnvText(c.domain)
  }

  function Matcher(alias: string): JsValue {
    Obj(map["type" := Str("literal"), "field" := Str("to"), "value" := Str(alias)])
  }

  function ForwardAction(destEmail: string): JsValue {
    Obj(map["type" := Str("forward"), "value" := Arr([Str(destEmail)])])
  }

  /** The payload of `POST /api/rules`. */
  function RulePayload(input: RuleInput, c: Config): JsValue {
    var alias := AliasEmail(input.localPart, c);
    Obj(map["name" := Str(alias), "enabled" := Bool(true),
            "matchers" := Arr([Matcher(alias)]), "actions" := Arr([ForwardAction(input.destEmail)])])
  }

  /** The payload names the alias, is enabled, matches the alias as the literal `to`
      address and forwards to the one destination, and has no other property. */
  lemma RulePayloadShape(input: RuleInput, c: Config)
    ensures var p := RulePayload(input, c);
            var alias := input.localPart + "@" + EnvText(c.domain);
            && p.Obj? && p.fields.Keys == {"name", "enabled", "matchers", "actions"}
            && Get(p, "name") == Str(alias) && Get(p, "enabled") == Bool(true)
            && Get(p, "matchers").Arr? && |Get(p, "matchers").items| == 1
            && Get(First(Get(p, "matchers")), "type") == Str("literal")
            && Get(First(Get(p, "matchers")), "field") == Str("to")
            && Get(First(Get(p, "matchers")), "value") == Get(p, "name")
            && Get(p, "actions").Arr? && |Get(p, "actions").items| == 1
            && Get(First(Get(p, "actions")), "type") == Str("forward")
            && Get(First(Get(p, "actions")), "value") == Arr([Str(input.destEmail)])
  {
  }

  /** `POST /api/rules`. */
  function CreateRuleRoute(c: Config, body: JsValue, isEmail: string -> bool, answer: Exchange<JsValue>,
                           texts: ErrorTexts): RouteOutcome
  {
    match ParseRuleBody(body, isEmail)
    case Failure(issues) => RouteOutcome(ErrorReply(Invalid(issues), texts), [])
    case Success(input) =>
      var request := CloudflareRequest(RulesPath(c), "POST", RulePayload(input, c));
      match Attempt(answer)
      case Failure(e) => RouteOutcome(ErrorReply(Upstream(e), texts), [request])
      case Success(result) => RouteOutcome(Reply(200, OkResult(result)), [request])
  }

  /** `POST /api/addresses`. */
  function CreateAddressRoute(c: Config, body: JsValue, isEmail: string -> bool, answer: Exchange<JsValue>,
                              texts: ErrorTexts): RouteOutcome
  {
    match ParseAddressBody(body, isEmail)
    case Failure(issues) => RouteOutcome(ErrorReply(Invalid(issues), texts), [])
    case Success(email) =>
      var request := CloudflareRequest(AddressesPath(c), "POST", Obj(map["email" := Str(email)]));
      match Attempt(answer)
      case Failure(e) => RouteOutcome(ErrorReply(Upstream(e), texts), [request])
      case Success(result) => RouteOutcome(Reply(200, OkResult(result)), [request])
  }

  /** Creating a rule: an invalid body is answered 400 before anything is sent
      upstream; a valid one sends exactly one POST of the payload, and the answer is
      200 when the API accepts it and 500 with the API's message otherwise. */
  lemma CreateRuleStatuses(c: Config, body: JsValue, isEmail: string -> bool, answer: Exchange<JsValue>,
                           texts: ErrorTexts)
    ensures var o := CreateRuleRoute(c, body, isEmail, answer, texts);
            && (ParseRuleBody(body, isEmail).Failure? ==> o.reply.status == 400 && o.sent == [])
            && (ParseRuleBody(body, isEmail).Success? ==>
                  && o.sent == [CloudflareRequest(RulesPath(c), "POST", RulePayload(ParseRuleBody(body, isEmail).value, c))]
                  && (o.reply.status == 200 <==> Succeeds(answer))
                  && (!Succeeds(answer) ==> o.reply == ErrorReply(Upstream(ErrorOf(answer)), texts)))
            && (o.reply.status == 200 || o.reply.status == 400 || o.reply.status == 500)
  {
  }

  lemma CreateAddressStatuses(c: Config, body: JsValue, isEmail: string -> bool, answer: Exchange<JsValue>,
                              texts: ErrorTexts)
    ensures var o := CreateAddressRoute(c, body, isEmail, answer, texts);
            && (ParseAddressBody(body, isEmail).Failure? ==> o.reply.status == 400 && o.sent == [])
            && (ParseAddressBody(body, isEmail).Success? ==>
                  && |o.sent| == 1 && o.sent[0].verb == "POST"
                  && o.sent[0].body == Some(Obj(map["email" := Str(ParseAddressBody(body, isEmail).value)]))
                  && (o.reply.status == 200 <==> Succeeds(answer))
                  && (!Succeeds(answer) ==> o.reply == ErrorReply(Upstream(ErrorOf(answer)), texts)))
  {
  }

  /** Whatever the route sends upstream for the body `{localPart, destEmail}` is a
      rule named `localPart@DOMAIN`. */
  lemma CreateRuleSendsNamedPayload(c: Config, localPart: string, destEmail: string, isEmail: string -> bool,
                                    answer: Exchange<JsValue>, texts: ErrorTexts)
    ensures var body := Obj(map["localPart" := Str(localPart), "destEmail" := Str(destEmail)]);
            var o := CreateRuleRoute(c, body, isEmail, answer, texts);
            forall q :: q in o.sent ==> q.body.Some? && Get(q.body.value, "name") == Str(AliasEmail(localPart, c))
  {
    var body := Obj(map["localPart" := Str(localPart), "destEmail" := Str(destEmail)]);
    ParseRuleBodyAccepts(body, isEmail);
    if ParseRuleBody(body, isEmail).Success? {
      assert ParseRuleBody(body, isEmail).value == RuleInput(localPart, destEmail);
      RulePayloadShape(RuleInput(localPart, destEmail), c);
    }
  }

  /** A rule whose alias has an upper-case letter or an `@` is answered 400 and
      never reaches the API. */
  lemma BadAliasNeverSent(c: Config, localPart: string, i: nat, destEmail: string, isEmail: string -> bool,
                          answer: Exchange<JsValue>, texts: ErrorTexts)
    requires i < |localPart| && (('A' <= localPart[i] <= 'Z') || localPart[i] == '@')
    ensures var body := Obj(map["localPart" := Str(localPart), "destEmail" := Str(destEmail)]);
            var o := CreateRuleRoute(c, body, isEmail, answer, texts);
            o.reply.status == 400 && o.sent == []
  {
    LocalPartRejectsUpperAndAt(localPart, i);
    var body := Obj(map["localPart" := Str(localPart), "destEmail" := Str(destEmail)]);
    assert Get(body, "localPart") == Str(localPart);
    ParseRuleBodyAccepts(body, isEmail);
  }

  // ---------------------------------------------------------------------------
  // Toggling a rule

  /** The own properties `{...rule}` copies (an upstream rule is an object; anything
      else spreads to no property here). */
  function SpreadFields(rule: JsValue): map<string, JsValue> {
    if rule.Obj? then rule.fields else map[]
  }

  /** `{...rule, enabled}` with `enabled = action === 'enable'`. */
  function ToggleMerge(rule: JsValue, action: string): (r: JsValue)
    ensures r.Obj? && "enabled" in r.fields && r.fields["enabled"] == Bool(action == "enable")
    ensures forall k :: k != "enabled" ==>
              (k in r.fields <==> k in SpreadFields(rule))
              && (k in r.fields ==> r.fields[k] == SpreadFields(rule)[k])
  {
    Obj(SpreadFields(rule)["enabled" := Bool(action == "enable")])
  }

  /** Merging twice is merging once with the last action. */
  lemma ToggleMergeLastWins(rule: JsValue, first: string, second: string)
    ensures ToggleMerge(ToggleMerge(rule, first), second) == ToggleMerge(rule, second)
  {
    var a := ToggleMerge(ToggleMerge(rule, first), second).fields;
    var b := ToggleMerge(rule, second).fields;
    assert a.Keys == b.Keys;
  }

  /** A rule already in the requested state is written back unchanged. */
  lemma ToggleMergeIdle(fields: map<string, JsValue>, action: string)
    requires "enabled" in fields && fields["enabled"] == Bool(action == "enable")
    ensures ToggleMerge(Obj(fields), action) == Obj(fields)
  {
    assert ToggleMerge(Obj(fields), action).fields.Keys == fields.Keys;
  }

  /** `POST /api/rules/:id/:action`: read the rule, then write back the merge. */
  function ToggleRoute(c: Config, id: string, action: string, readAnswer: Exchange<JsValue>,
                       writeAnswer: Exchange<JsValue>, texts: ErrorTexts): RouteOutcome
  {
    var read := CloudflareRequest(RulePath(c, id), "GET", Null);
    match Attempt(readAnswer)
    case Failure(e) => RouteOutcome(ErrorReply(Upstream(e), texts), [read])
    case Success(rule) =>
      var merged := ToggleMerge(if rule.Some? then rule.value else Undefined, action);
      var write := CloudflareRequest(RulePath(c, id), "PUT", merged);
      match Attempt(writeAnswer)
      case Failure(e) => RouteOutcome(ErrorReply(Upstream(e), texts), [read, write])
      case Success(result) => RouteOutcome(Reply(200, ResultBody(result)), [read, write])
  }

  /** A failed read writes nothing; a successful one writes back the rule read with
      only `enabled` replaced; either failure is a 500. */
  lemma ToggleReadModifyWrite(c: Config, id: string, action: string, readAnswer: Exchange<JsValue>,
                              writeAnswer: Exchange<JsValue>, texts: ErrorTexts)
    ensures var o := ToggleRoute(c, id, action, readAnswer, writeAnswer, texts);
            && (!Succeeds(readAnswer) ==> o.reply.status == 500 && |o.sent| == 1 && o.sent[0].verb == "GET")
            && (Succeeds(readAnswer) ==>
                  && |o.sent| == 2 && o.sent[0].verb == "GET" && o.sent[1].verb == "PUT"
                  && o.sent[0].url == o.sent[1].url && o.sent[0].body.None?
                  && (var written := o.sent[1].body.value;
                      var rule := readAnswer.response.data.result;
                      written == ToggleMerge(if rule.Some? then rule.value else Undefined, action))
                  && (o.reply.status == 200 <==> Succeeds(writeAnswer)))
            && (o.reply.status == 200 || o.reply.status == 500)
  {
  }

  /** Any action other than exactly "enable" disables the rule. */
  lemma ToggleActionWord(rule: JsValue, action: string)
    ensures Get(ToggleMerge(rule, action), "enabled") == Bool(true) <==> action == "enable"
  {
  }

  // ---------------------------------------------------------------------------
  // Listing

  /** The record `{email, id, verified}` made of an upstream address. */
  function AddressView(r: JsValue): JsValue {
    Obj(map["email" := Get(r, "email"), "id" := Get(r, "id"), "verified" := Get(r, "verified")])
  }

  /** `result.map(r => ({email: r.email, id: r.id, verified: r.verified}))`, record
      by record; a `null` or missing record makes the property read throw. */
  function ReshapeAddresses(records: seq<JsValue>): Option<seq<JsValue>> {
    if records == [] then Some([])
    else if records[0].Null? || records[0].Undefined? then None
    else
      match ReshapeAddresses(records[1..])
      case None => None
      case Some(rest) => Some([AddressView(records[0])] + rest)
  }

  /** Reshaping fails exactly when some record is `null` or `undefined`. */
  lemma {:induction false} ReshapeFails(records: seq<JsValue>)
    ensures ReshapeAddresses(records).None? <==>
              exists i :: 0 <= i < |records| && (records[i].Null? || records[i].Undefined?)
  {
    if records != [] {
      ReshapeFails(records[1..]);
      if exists i :: 0 <= i < |records[1..]| && (records[1..][i].Null? || records[1..][i].Undefined?) {
        var i :| 0 <= i < |records[1..]| && (records[1..][i].Null? || records[1..][i].Undefined?);
        assert records[i + 1] == records[1..][i];
      }
      if exists i :: 0 <= i < |records| && (records[i].Null? || records[i].Undefined?) {
        var i :| 0 <= i < |records| && (records[i].Null? || records[i].Undefined?);
        if i > 0 {
          assert records[1..][i - 1] == records[i];
        }
      }
    }
  }

  /** A successful reshaping has one view per record, in order. */
  lemma {:induction false} ReshapeElements(records: seq<JsValue>)
    requires ReshapeAddresses(records).Some?
    ensures |ReshapeAddresses(records).value| == |records|
    ensures forall i :: 0 <= i < |records| ==> ReshapeAddresses(records).value[i] == AddressView(records[i])
  {
    if records != [] {
      ReshapeElements(records[1..]);
      forall i | 1 <= i < |records|
        ensures records[i] == records[1..][i - 1]
      {
      }
    }
  }

  /** Reshaping keeps length and order and exactly the three properties of each record. */
  lemma ReshapeKeepsThreeFields(records: seq<JsValue>, i: nat)
    requires ReshapeAddresses(records).Some? && i < |records|
    ensures var out := ReshapeAddresses(records).value;
            && |out| == |records|
            && out[i].Obj? && out[i].fields.Keys == {"email", "id", "verified"}
            && Get(out[i], "email") == Get(records[i], "email")
            && Get(out[i], "id") == Get(records[i], "id")
            && Get(out[i], "verified") == Get(records[i], "verified")
  {
    ReshapeElements(records);
  }

  /** Reshaping commutes with concatenation, so pages may be reshaped one by one. */
  lemma {:induction false} ReshapeAppend(a: seq<JsValue>, b: seq<JsValue>)
    requires ReshapeAddresses(a).Some? && ReshapeAddresses(b).Some?
    ensures ReshapeAddresses(a + b) == Some(ReshapeAddresses(a).value + ReshapeAddresses(b).value)
  {
    if a == [] {
      assert a + b == b;
      assert [] + ReshapeAddresses(b).value == ReshapeAddresses(b).value;
    } else {
      assert (a + b)[0] == a[0] && (a + b)[1..] == a[1..] + b;
      ReshapeAppend(a[1..], b);
      var head := [AddressView(a[0])];
      var x := ReshapeAddresses(a[1..]).value;
      var y := ReshapeAddresses(b).value;
      assert ReshapeAddresses(a).value == head + x;
      assert ReshapeAddresses(a + b).value == head + (x + y);
      assert head + (x + y) == (head + x) + y;
    }
  }

  /** `GET /api/addresses` over every page of the listing. */
  function ListAddressesRoute(pages: seq<Exchange<seq<JsValue>>>, texts: ErrorTexts): Reply {
    match Outcome(pages)
    case Failure(e) => ErrorReply(Upstream(e), texts)
    case Success(records) =>
      match ReshapeAddresses(records)
      case None => Reply(500, ErrorBody(texts.typeErrorText))
      case Some(view) => Reply(200, Obj(map["result" := Arr(view)]))
  }

  /** `GET /api/rules`: every rule of every page, unchanged. */
  function ListRulesRoute(pages: seq<Exchange<seq<JsValue>>>, texts: ErrorTexts): Reply {
    match Outcome(pages)
    case Failure(e) => ErrorReply(Upstream(e), texts)
    case Success(rules) => Reply(200, Obj(map["result" := Arr(rules)]))
  }

  /** Listing succeeds exactly when every page requested succeeded and no record is
      `null` or `undefined`, and then returns one view per upstream record, in page
      order; a failed page gives its error's 500, a nullish record the 500 of the
      `TypeError`. */
  lemma ListAddressesAllOrNothing(pages: seq<Exchange<seq<JsValue>>>, texts: ErrorTexts)
    ensures var r := ListAddressesRoute(pages, texts);
            && (r.status == 200 || r.status == 500)
            && (r.status == 200 <==> Outcome(pages).Success? && ReshapeAddresses(Outcome(pages).value).Some?)
            && (Outcome(pages).Failure? ==> r == ErrorReply(Upstream(Outcome(pages).error), texts))
            && (Outcome(pages).Success? ==>
                  var records := Outcome(pages).value;
                  (exists i :: 0 <= i < |records| && (records[i].Null? || records[i].Undefined?)) ==>
                    r == Reply(500, ErrorBody(texts.typeErrorText)))
            && (r.status == 200 ==>
                  && Outcome(pages).Success?
                  && (forall k :: 0 <= k < Count(pages) ==> Succeeds(pages[k]))
                  && r.body == Obj(map["result" := Arr(ReshapeAddresses(ConcatResults(pages[..Count(pages)])).value)]))
  {
    AllOrNothing(pages);
    if Outcome(pages).Success? {
      ReshapeFails(Outcome(pages).value);
    }
  }

  /** Listing rules succeeds exactly when every page requested succeeded, and then
      returns all their rules in page order; otherwise it is the 500 of the failed
      page's error. */
  lemma ListRulesAllOrNothing(pages: seq<Exchange<seq<JsValue>>>, texts: ErrorTexts)
    ensures var r := ListRulesRoute(pages, texts);
            && (r.status == 200 <==> Outcome(pages).Success?)
            && (r.status == 200 ==>
                  && (forall k :: 0 <= k < Count(pages) ==> Succeeds(pages[k]))
                  && r.body == Obj(map["result" := Arr(ConcatResults(pages[..Count(pages)]))]))
            && (r.status != 200 ==> r == ErrorReply(Upstream(Outcome(pages).error), texts) && r.status == 500)
  {
    AllOrNothing(pages);
  }
}
