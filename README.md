# vuzon-selfhosted: a verified model of its decision logic

vuzon-selfhosted is a small self-hosted web front end for Cloudflare Email Routing. With it
you create forwarding aliases (`alias@your-domain` → a verified destination address), list
them, pause or re-enable them, and add destination addresses. An Express server sits behind
a session-based login wall and forwards each request to Cloudflare's v4 REST API. A
browser page renders the lists and helps build new aliases.

This project models in Dafny the logic of that system that decides things. It is kept
apart from the I/O that surrounds it.

- `Verification` is `isVerifiedStatus` (public/utils/verification.js). It classifies the
  opaque `verified` field: booleans, the number 1, two status vocabularies, ISO-8601
  timestamps (the regular expression is written out as a shape predicate) and status
  objects.
- `DestSelection` is `getDestSelectionState` (public/utils/destSelection.js). It is a
  method with the source's loop and early exit, proved equal to a functional
  specification, `Selection`. The choice properties are lemmas about that specification.
- `AddDestError` is `interpretAddDestError` (public/utils/error.js). It detects rate
  limiting and reports every other error.
- `CloudflareApi` is `fetchCloudflare` and `fetchAllCloudflare` (src/utils.js). It builds
  the request, applies the success rule and extracts the failure message. The
  `do … while` pagination loop is a method proved against `Outcome` and `Count`. The
  network is a sequence of page exchanges.
- `Server` is the request logic of src/server.js:
  - `requireAuth`;
  - the login check and logout, with a `Session` class whose `authenticated` field they
    update;
  - the Zod schemas (`ruleSchema` and `addressSchema`);
  - the rule payload;
  - the create, toggle and list routes, with the ZodError→400 / other→500 mapping;
  - the address reshaping.
- `App` is the pure helpers of public/app.js:
  - `esc`;
  - the rule filter of `applyRuleFilter`;
  - the alias preview;
  - `generateAlias`, a method with the source's counted loop;
  - the destination text of `ruleRow`;
  - `updateCreateButtonState`;
  - the body the alias form submits, as written and corrected (see Findings).
- `Js` models the JavaScript values involved (`undefined`, `null`, booleans, numbers,
  strings, arrays, objects as finite maps), optional-chaining reads, truthiness and
  `String()`.
- `Strings` models `trim` with ECMAScript's whitespace set, ASCII `toLowerCase`,
  `includes`, decimal rendering of integers and `join`.
- `Wrappers` holds `Option` and `Result`.

Things the code cannot see are parameters:
- `Date.parse` validity is `parsesAsDate`;
- Zod's `.email()` check is `isEmail`;
- `String()` of a non-string value is `stringOf`;
- the messages of a `ZodError`, of a rejected `fetch` and of a `TypeError` are
  `ErrorTexts`;
- the `Math.random()` draws of `generateAlias` are `draws`;
- each upstream answer is an `Exchange`: an envelope response, or `Unreachable` when
  `fetch` rejects or the body is not JSON.

Environment variables are `Option<string>` (`None` when unset).

The model follows the code:
- an empty error reads "Desconocido";
- toggling a rule re-reads it and writes back `{...rule, enabled}`, with no optimistic
  update;
- the login route does not refuse when credentials are unconfigured (see Findings).

## Model

Most rows name lemmas; each stands for the function it is about, which models the
same lines: `Server.LocalPartIssues`, `Server.ParseRuleBody` and `Server.ParseAddressBody`
(src/server.js:108-118); `Server.ListAddressesRoute` and `Server.ReshapeAddresses`
(src/server.js:127-139); `Server.CreateAddressRoute` (src/server.js:141-151);
`Server.ListRulesRoute` (src/server.js:162-169); `Server.CreateRuleRoute` and
`Server.RulePayload` (src/server.js:171-188); `Server.ToggleRoute` (src/server.js:190-204);
`CloudflareApi.Outcome` and `CloudflareApi.Count` (src/utils.js:30-60);
`App.AliasPreview` (public/app.js:100-111); `App.AliasOfDraws` (public/app.js:90-98);
`App.DestText` (public/app.js:194-197); `App.ApplyRuleFilter` and `App.FilterByName`
(public/app.js:225-229).

| member | source | states |
|---|---|---|
| Verification.IsIsoTimestampString | public/utils/verification.js:13-20 | A string counts as a timestamp only if, once trimmed, it has the full `YYYY-MM-DDTHH:MM:SS[.f{1,9}](Z\|±HH:MM)` shape, `Date.parse` accepts it, and it is 20 to 35 characters long |
| Verification.IsVerifiedStatus | public/utils/verification.js:32-46 | Total on every value; `undefined` and `null` are never verified |
| Verification.StringClassification | public/utils/verification.js:35-39 | A string is verified iff its lower-cased, trimmed form is a positive word or it is a timestamp string |
| Verification.PositiveWordVerified | public/utils/verification.js:32-37 | A positive word is verified whatever whitespace surrounds it and whatever the ASCII case of its letters |
| Verification.NegativeWordUnverified | public/utils/verification.js:32-45 | A negative word is unverified whatever whitespace surrounds it and whatever the ASCII case of its letters |
| Verification.VocabulariesDisjoint | public/utils/verification.js:1-13 | No negative word is a positive word, and no negative word has the timestamp shape |
| Verification.TimestampVerified | public/utils/verification.js:15-38 | A padded timestamp that parses is verified, and it belongs to neither vocabulary |
| Verification.UnparsableTimestampUnverified | public/utils/verification.js:19 | A string of timestamp shape that `Date.parse` rejects is unverified |
| Verification.BlankStringUnverified | public/utils/verification.js:16-17 | An empty or whitespace-only string is unverified |
| Verification.ScalarClassification | public/utils/verification.js:34 | A boolean is verified iff it is `true`; a number iff it is 1; `null` and `undefined` never |
| Verification.ObjectClassification | public/utils/verification.js:40-44 | An object is verified iff `status === 'verified'` or `verification_status === 'active'`; `{status: 'active'}` and `{status: 'Verified'}` are not |
| Verification.IsoTimestampLength | public/utils/verification.js:13 | A string of timestamp shape has 20 to 35 characters and no whitespace at either end |
| DestSelection.GetDestSelectionState | public/utils/destSelection.js:3-29 | The loop with its early `break` returns exactly `Selection` of the inputs |
| DestSelection.FirstUsableIsFirst | public/utils/destSelection.js:9-15 | `firstEnabled` is "" iff no item is usable; otherwise it is the email of the earliest usable item |
| DestSelection.SelectionOfNothing | public/utils/destSelection.js:4-23 | An empty or non-array list gives `{selectedValue: '', hasEnabledOption: false}` |
| DestSelection.SelectionNeverUnverified | public/utils/destSelection.js:10-22 | The selected value is "" or the email of a usable (verified, non-empty email) item |
| DestSelection.SelectionHasEnabledIff | public/utils/destSelection.js:12-23 | `hasEnabledOption` holds iff some item is usable, and the selection is "" iff it does not |
| DestSelection.SelectionKeepsPrevious | public/utils/destSelection.js:16-22 | A previous value carried by a usable item is the selection |
| DestSelection.SelectionFallsBackToFirst | public/utils/destSelection.js:13-22 | Otherwise the selection is the email of the first usable item in list order |
| DestSelection.SelectionIgnoresMalformedItems | public/utils/destSelection.js:10-11 | Inserting an item without a non-empty string email anywhere leaves the result unchanged |
| DestSelection.SelectionNonStringPrevious | public/utils/destSelection.js:5 | A non-string previous value behaves like "" |
| DestSelection.SelectionExamples | public/utils/destSelection.js:3-29 | A verified previous value is kept; an unverified one falls back to the first verified address; an empty list selects nothing |
| AddDestError.InterpretAddDestError | public/utils/error.js:1-16 | Never asks for a redirect, and the message is never empty |
| AddDestError.RateLimitDetection | public/utils/error.js:2-10 | The fixed rate-limit notice is given iff the lower-cased error text contains "rate limited" |
| AddDestError.OtherErrorsReported | public/utils/error.js:12-15 | Otherwise the message is "Error: " followed by the trimmed text, or by "Desconocido" when that is empty |
| AddDestError.FalsyErrorIsUnknown | public/utils/error.js:2-13 | A falsy error gives "Error: Desconocido" |
| AddDestError.MessagePreferred | public/utils/error.js:2 | A non-empty string `message` property decides the outcome on its own |
| AddDestError.RateLimitExample | public/utils/error.js:2-10 | " Rate Limited " is recognised as rate limiting |
| AddDestError.ShortErrorReported | public/utils/error.js:12-15 | A trimmed error text shorter than the phrase is reported as "Error: " followed by that text |
| CloudflareApi.CloudflareRequest | src/utils.js:11-17 | The URL is the API base followed by the path, and the method is kept; a body is sent iff it is truthy |
| CloudflareApi.Attempt | src/utils.js:22-26 | A request succeeds iff the status is 2xx and the envelope reports success; it then returns `data.result`, and otherwise the failure error |
| CloudflareApi.FailureMessageShape | src/utils.js:23 | The failure message is the first error's message when there is one; otherwise it is "Error " followed by the status, which can be read back |
| CloudflareApi.PageUrlSeparator | src/utils.js:36-40 | The page URL is base + path followed by '&' when the path has a '?', and by '?' otherwise |
| CloudflareApi.PageUrlInjective | src/utils.js:40 | Different page numbers give different URLs |
| CloudflareApi.CountBounds | src/utils.js:38-58 | At least one page is requested, never more than one past the answers, and the loop stops at the first stopping page |
| CloudflareApi.OutcomeOfFailedPage | src/utils.js:44-47 | A loop that meets a failed page there ends with that page's error |
| CloudflareApi.OutcomeOfLastPage | src/utils.js:53-58 | A loop that reaches a page past the reported total ends there with the concatenated results |
| CloudflareApi.FetchAllCloudflare | src/utils.js:30-61 | The loop returns `Outcome(pages)` and requests exactly `Count(pages)` pages, page k with `PageUrl(path, k)` |
| CloudflareApi.AllOrNothing | src/utils.js:44-51 | Every page before the last succeeded. Success holds the concatenated results of all pages requested; failure is the last page's error, with no partial results |
| CloudflareApi.SinglePageWithoutInfo | src/utils.js:32-58 | Without `result_info` only one page is requested, and the outcome is that of one `fetchCloudflare` |
| CloudflareApi.AllPagesReportTotal | src/utils.js:53-58 | Pages that all report the same total t lead to exactly t requests and their results in order |
| CloudflareApi.ConcatResultsAppend | src/utils.js:49-51 | Results are concatenated in page order, then in-page order |
| CloudflareApi.ThreePagesExample | src/utils.js:38-58 | Three full pages of 50 reporting three pages give 150 results from three requests |
| Server.RequireAuth | src/server.js:60-77 | Unconfigured credentials give 500 whatever the session; otherwise an authenticated session passes, then an HTML client is redirected to /login.html, and any other client gets 401 |
| Server.UnconfiguredLoginAcceptedAsWritten | src/server.js:84-89 | As written, with AUTH_USER and AUTH_PASS unset, the body `{}` passes the login check |
| Server.PasswordlessLoginAcceptedAsWritten | src/server.js:84 | As written, with only AUTH_USER set, the user name alone passes the login check |
| Server.LoginDecisionSound | src/server.js:80-90 | Login gives 200 iff credentials are configured and both fields are strings equal to them; it gives 500 iff they are unconfigured, and otherwise it agrees with the check as written |
| Server.Session.Login | src/server.js:80-90 | The route as written: the reply is 200 iff the as-written check accepts, else 401 "Credenciales incorrectas"; only a 200 sets `authenticated`, a failed login leaves the session as it was |
| Server.LoginAsWrittenWhenConfigured | src/server.js:80-90 | With AUTH_USER and AUTH_PASS set, the route as written gives the corrected decision's reply, 200 iff both fields equal them |
| Server.Session.Logout | src/server.js:92-98 | The session is cleared and 200 is returned, unless the store fails, which gives 500 and leaves the session as it was |
| Server.LoginThenAccess | src/server.js:60-90 | A login through the route as written followed by a protected request gets through iff the corrected decision accepts the login; a login accepted only because credentials are unset still meets 500 |
| Server.LocalPartRule | src/server.js:112-116 | `localPart` is accepted iff it has 1 to 64 characters, all in `[a-z0-9._-]`; the empty issue appears iff it is empty, the too-long issue iff it exceeds 64 UTF-16 code units, the charset issue iff it does not match `^[a-z0-9._-]+$` |
| Server.LocalPartRejectsUpperAndAt | src/server.js:116 | An upper-case letter or an '@' anywhere yields the charset issue |
| Server.ParseRuleBodyAccepts | src/server.js:112-118 | The rule body is accepted iff it is an object with a valid `localPart` and a `destEmail` string that passes the e-mail check, and then those two strings are returned. A rejected body always has at least one issue |
| Server.ParseAddressBodyAccepts | src/server.js:108-110 | The address body is accepted iff it is an object whose `email` is a string passing the e-mail check |
| Server.RulePayloadShape | src/server.js:174-181 | The payload has `name = localPart@DOMAIN` and `enabled = true`, one literal `to` matcher on the name and one forward action to `[destEmail]`, and no other key |
| Server.CreateRuleStatuses | src/server.js:171-188 | An invalid body gives 400 before anything is sent upstream. A valid one sends one POST of the payload, and the reply is 200 iff the API succeeds, otherwise 500 with the API's message |
| Server.CreateRuleSendsNamedPayload | src/server.js:173-183 | Whatever is sent upstream for `{localPart, destEmail}` is a rule named `localPart@DOMAIN` |
| Server.CreateAddressStatuses | src/server.js:141-151 | An invalid address body gives 400 with nothing sent; a valid one sends one POST `{email}`, and the reply is 200 iff the API succeeds |
| Server.BadAliasNeverSent | src/server.js:171-186 | An alias with an upper-case letter or an '@' gets 400 and never reaches the API |
| Server.ToggleMerge | src/server.js:192-199 | The merged record has `enabled === (action === 'enable')`; every other property is exactly that of the rule read |
| Server.ToggleMergeLastWins | src/server.js:196-199 | Merging twice equals merging once with the last action |
| Server.ToggleMergeIdle | src/server.js:196-199 | A rule already in the requested state is written back unchanged |
| Server.ToggleReadModifyWrite | src/server.js:190-204 | A failed read gives 500 and writes nothing. A successful read is followed by a PUT of the merge to the same URL; the reply is 200 iff that write succeeds |
| Server.ToggleActionWord | src/server.js:192 | The rule is enabled iff the action is exactly "enable" |
| Server.ReshapeFails | src/server.js:130-134 | Reshaping fails (the property read throws) iff some record is `null` or `undefined` |
| Server.ReshapeElements | src/server.js:130-134 | A successful reshaping has one view per record, the view of record i at position i |
| Server.ReshapeKeepsThreeFields | src/server.js:130-135 | Reshaping keeps length and order, and each record keeps exactly `email`, `id` and `verified` |
| Server.ReshapeAppend | src/server.js:130-134 | Reshaping a concatenation concatenates the reshaped parts |
| Server.ListAddressesAllOrNothing | src/server.js:127-139 | The listing gives 200 or 500: 200 iff every page requested succeeded and no record is nullish, with one view per record in page order; a failed page gives its error's 500, a nullish record the `TypeError`'s 500 |
| Server.ListRulesAllOrNothing | src/server.js:162-169 | Listing rules gives 200 iff the paged fetch succeeded, with every page requested successful and all their rules in page order; otherwise the 500 of the failed page's error |
| App.EscapeRoundTrip | public/app.js:236 | Escaped text decodes back to the original, so nothing is lost |
| App.EscapeIsSafe | public/app.js:236 | The output holds no raw `<`, `>`, `"` or `'`, and text without those characters or `&` is unchanged |
| App.EscapeAppend | public/app.js:236 | Escaping works character by character: it distributes over concatenation |
| App.Esc | public/app.js:236 | `undefined` escapes to ""; decoding the output gives back `String(v)`, and it holds no raw `<`, `>`, `"` or `'` |
| App.BlankQueryKeepsAll | public/app.js:225-229 | An empty or whitespace query leaves the list unchanged |
| App.FilterByNameAppend | public/app.js:227-228 | The filter preserves order: filtering a concatenation concatenates the filtered parts |
| App.FilterByNameFails | public/app.js:228 | The filter throws iff some rule is `null`/`undefined` or has a truthy non-string name |
| App.FilterByNameMembers | public/app.js:228 | Every rule kept matches the query, and every matching rule is kept |
| App.FilterByNameIdempotent | public/app.js:228 | Filtering again with the same query changes nothing |
| App.AliasPreviewShape | public/app.js:100-111 | The preview is `local@domain`; a blank local part shows `alias@domain`; with no root domain it is `local@—` (or `alias@—`); copying is disabled iff the root domain is empty |
| App.PreviewDiffersFromSubmitted | public/app.js:257-259 | As written, typing "Ab" previews "ab@d"; the form submits a body iff a destination is chosen, and the server rejects that body's local part "Ab" |
| App.PreviewIsCreatedAlias | public/app.js:102-104 | With the corrected submission, the preview equals the alias the server creates |
| App.SubmittedLocalPartNormalised | public/app.js:257 | The corrected local part is trimmed and lower-case, and normalising it again changes nothing |
| App.CreatedRuleIsPreviewed | public/app.js:254-262 | The form submits iff the trimmed local part and the destination are non-empty; any rule then sent upstream is named by the previewed alias |
| App.GenerateAlias | public/app.js:90-98 | The counted loop builds `AliasOfDraws(draws)`; every character is in `0-9a-z`; with draws in [0, 1) it has 8 characters |
| App.DrawCharInRange | public/app.js:95 | A draw in [0, 1) picks exactly one character of the alphabet |
| App.AliasOfDrawsInAlphabet | public/app.js:93-95 | Every character of a generated alias comes from `0-9a-z` |
| App.AliasOfDrawsLength | public/app.js:95 | With draws in [0, 1) the alias has one character per draw |
| App.GeneratedAliasAccepted | public/app.js:90-97 | A generated alias has 8 characters and passes the server's `localPart` schema |
| App.DestTextOfCreatedRule | public/app.js:196-197 | A rule built by the server shows its one destination back |
| App.DestTextOfTwo | public/app.js:197 | Two destinations are shown joined by ", " |
| App.DestTextWithoutActions | public/app.js:194-197 | Rendering fails iff the rule is `null` or `undefined`; otherwise no first action value shows "", and a non-array value is shown as it is |
| App.CreateButtonState | public/app.js:80-88 | The button is enabled iff an option is selected, it is not disabled and the value is non-empty; the helper is hidden iff the button is enabled |

## Findings

| source | as written | input that shows it | evidently intended | confidence | as-written member | corrected member |
|---|---|---|---|---|---|---|
| src/server.js:84-89 | `username === AUTH_USER && password === AUTH_PASS`. With the variables unset both sides are `undefined`, and login answers 200 and marks the session authenticated | AUTH_USER and AUTH_PASS unset, body `{}` | Answer 500 "credentials not configured", as `requireAuth` does. The wall itself stays closed, because `requireAuth` still answers 500 | medium; not executed | Server.UnconfiguredLoginAcceptedAsWritten | Server.LoginDecisionSound |
| public/app.js:257 | The form submits `localPartInput.value.trim()`, but the preview (public/app.js:103) also lower-cases it | local part "Ab": the preview shows "ab@domain", but the submitted "Ab" fails the `[a-z0-9._-]` schema with 400 | Submit the same `trim().toLowerCase()` value the preview shows | medium; not executed | App.PreviewDiffersFromSubmitted | App.CreatedRuleIsPreviewed |

The as-written login check is `Server.LoginAcceptsAsWritten`, and `Server.Session.Login`
answers with it (`Server.LoginReplyAsWritten`). The corrected decision is
`Server.LoginDecision`; `Server.LoginAsWrittenWhenConfigured` shows the two agree whenever
credentials are configured, and `Server.LoginThenAccess` states the wall in its terms. The
as-written submission is `App.SubmitBodyAsWritten`, built on
`App.SubmittedLocalPartAsWritten`; the corrected one is `App.SubmitBody`, built on
`App.SubmittedLocalPart`.

## Left out

- HTTP, the Express wiring, the session middleware and its file store, cookies, static
  files and `app.listen` are left out; they are framework plumbing. The session is one
  `Session` object per browser.
- The session-secret bootstrap (environment, file or `crypto.randomBytes`) is left out
  because it is file I/O and randomness.
- `fetch`, the `Authorization` header with `CF_API_TOKEN`, and JSON parsing of responses
  are left out: each answer is a given `Exchange`, and a body that is not JSON counts as
  `Unreachable`.
- The envelope's `errors` are kept as their messages only; `data.errors?.[0]?.message`
  on other shapes is not modelled.
- A non-array page `result` is not modelled: `concat` of a non-array would append it as one
  element, and the model types each page's result as a list.
- A rule read for toggling that is not an object is left out: its spread (a string's
  characters, say) is modelled as no properties.
- `express.json()` is assumed to give a JSON value; `req.body` being `undefined` (which
  makes the destructuring throw) is not modelled.
- The routes `DELETE /api/addresses/:id`, `DELETE /api/rules/:id`, `GET /api/me` and `GET /`
  are left out: they only forward a request or return configuration. `requireAuth` covers
  their gating.
- The text of a ZodError message, of a failed `fetch` and of a `TypeError` are
  parameters; their formatting is not modelled.
- Zod's `.email()` and `Date.parse` are parameters, because their logic is not part of
  this model.
- Case conversion is ASCII only. Full Unicode case folding is not modelled, so "SÍ" does
  not lower-case to "sí".
- CloudflareApi.Envelope: a page `result` that is falsy but not `null` (0, "" or `false`)
  is not representable on listing pages, where `if (data.result)` would skip it; for a single
  request `data.result` is passed on as the JSON value it is.
- Strings are sequences of code points. Only the `min(1)` and `max(64)` checks of `localPart` count
  UTF-16 code units (`Utf16Length`); the other lengths and indices are in code points.
- CloudflareApi.ResultInfo: `total_pages` is an integer or absent; a fractional or string
  `total_pages`, which `page <= totalPages` would compare as a number, is not representable.
- NaN and the infinities are not modelled as numbers; truthiness of NaN is therefore absent.
- `unwrapVerificationValue` (public/utils/verification.js:22-30) is left out; it is never called.
- The browser page's DOM updates, event listeners, status timers, `confirm`/`alert`, the
  concurrent loaders and `cachedRules`/`currentRootDomain` are left out; they are UI and
  asynchronous I/O. The helpers take their inputs as parameters.
- public/app.js:2 imports `./utils/errors.js` while the file is `public/utils/error.js`; this
  wiring defect has no behaviour to model.
- An optimistic toggle with rollback is not modelled: the code re-fetches after a toggle.
- `Math.random` is not modelled: `generateAlias` takes its eight draws as a parameter.
- App.GenerateAlias: the fixed length 8 is a precondition on the number of draws.
- CloudflareApi.FetchAllCloudflare: termination is bounded by the finite page sequence.
  A request past its end fails like an unreachable network, so an upstream that keeps
  reporting more pages is cut off there.
