/**
 * The pure helpers of the browser view (public/app.js): HTML escaping, the rule
 * search filter, the alias preview, the random alias generator, the destination
 * text of a rule card and the state of the create button.
 */
module App {
  import opened Wrappers
  import opened Js
  import opened Strings
  import Server
  import CloudflareApi

  // ---------------------------------------------------------------------------
  // esc

  /** The entity `esc` writes for one character, or the character itself. */
  function EscChar(c: char): string {
    if c == '&' then "&amp;"
    else if c == '<' then "&lt;"
    else if c == '>' then "&gt;"
    else if c == '"' then "&quot;"
    else if c == '\'' then "&#39;"
    else [c]
  }

  /** `str.replace(/[&<>"']/g, …)`. */
  function EscapeHtml(s: string): string {
    if s == [] then [] else EscChar(s[0]) + EscapeHtml(s[1..])
  }

  /** `esc(str = '')`: `undefined` takes the default; other values go through
      `String`; decoding the markup gives back that text. */
  function Esc(v: JsValue, stringOf: JsValue -> string): (r: string)
    ensures v.Undefined? ==> r == ""
    ensures UnescapeHtml(r) == (if v.Undefined? then "" else ToJsString(v, stringOf))
    ensures forall i :: 0 <= i < |r| ==> !(IsMarkup(r[i]) && r[i] != '&')
  {
    var text := if v.Undefined? then "" else ToJsString(v, stringOf);
    EscapeRoundTrip(text);
    EscapeIsSafe(text);
    EscapeHtml(text)
  }

  predicate IsMarkup(c: char) {
    c == '&' || c == '<' || c == '>' || c == '"' || c == '\''
  }

  /** Decoding of the five entities, the inverse of `EscapeHtml`. */
  function UnescapeHtml(t: string): string {
    if t == [] then []
    else if |t| >= 5 && t[..5] == "&amp;" then "&" + UnescapeHtml(t[5..])
    else if |t| >= 4 && t[..4] == "&lt;" then "<" + UnescapeHtml(t[4..])
    else if |t| >= 4 && t[..4] == "&gt;" then ">" + UnescapeHtml(t[4..])
    else if |t| >= 6 && t[..6] == "&quot;" then "\"" + UnescapeHtml(t[6..])
    else if |t| >= 5 && t[..5] == "&#39;" then "'" + UnescapeHtml(t[5..])
    else [t[0]] + UnescapeHtml(t[1..])
  }

  lemma UnescapeEscChar(c: char, rest: string)
    ensures UnescapeHtml(EscChar(c) + rest) == [c] + UnescapeHtml(rest)
  {
    if c == '&' {
      UnescapeAmp(rest);
    } else if c == '<' {
      UnescapeLt(rest);
    } else if c == '>' {
      UnescapeGt(rest);
    } else if c == '"' {
      UnescapeQuot(rest);
    } else if c == '\'' {
      UnescapeApos(rest);
    } else {
      UnescapePlain(c, rest);
    }
  }

  lemma UnescapeAmp(rest: string)
    ensures UnescapeHtml("&amp;" + rest) == "&" + UnescapeHtml(rest)
  {
    var t := "&amp;" + rest;
    assert t[..5] == "&amp;" && t[5..] == rest;
  }

  lemma UnescapeLt(rest: string)
    ensures UnescapeHtml("&lt;" + rest) == "<" + UnescapeHtml(rest)
  {
    var t := "&lt;" + rest;
    assert t[1] == 'l';
    assert !(|t| >= 5 && t[..5] == "&amp;") by { if |t| >= 5 { assert t[..5][1] == 'l'; } }
    assert t[..4] == "&lt;" && t[4..] == rest;
  }

  lemma UnescapeGt(rest: string)
    ensures UnescapeHtml("&gt;" + rest) == ">" + UnescapeHtml(rest)
  {
    var t := "&gt;" + rest;
    assert t[1] == 'g';
    assert !(|t| >= 5 && t[..5] == "&amp;") by { if |t| >= 5 { assert t[..5][1] == 'g'; } }
    assert !(t[..4] == "&lt;") by { assert t[..4][1] == 'g'; }
    assert t[..4] == "&gt;" && t[4..] == rest;
  }

  lemma UnescapeQuot(rest: string)
    ensures UnescapeHtml("&quot;" + rest) == "\"" + UnescapeHtml(rest)
  {
    var t := "&quot;" + rest;
    assert t[1] == 'q';
    assert !(t[..5] == "&amp;") by { assert t[..5][1] == 'q'; }
    assert !(t[..4] == "&lt;") by { assert t[..4][1] == 'q'; }
    assert !(t[..4] == "&gt;") by { assert t[..4][1] == 'q'; }
    assert t[..6] == "&quot;" && t[6..] == rest;
  }

  lemma UnescapeApos(rest: string)
    ensures UnescapeHtml("&#39;" + rest) == "'" + UnescapeHtml(rest)
  {
    var t := "&#39;" + rest;
    assert t[1] == '#';
    assert !(t[..5] == "&amp;") by { assert t[..5][1] == '#'; }
    assert !(t[..4] == "&lt;") by { assert t[..4][1] == '#'; }
    assert !(t[..4] == "&gt;") by { assert t[..4][1] == '#'; }
    assert !(|t| >= 6 && t[..6] == "&quot;") by { if |t| >= 6 { assert t[..6][1] == '#'; } }
    assert t[..5] == "&#39;" && t[5..] == rest;
  }

  lemma UnescapePlain(c: char, rest: string)
    requires !IsMarkup(c)
    ensures UnescapeHtml([c] + rest) == [c] + UnescapeHtml(rest)
  {
    var t := [c] + rest;
    assert t[0] == c && t[1..] == rest;
    assert !(|t| >= 5 && t[..5] == "&amp;") by { if |t| >= 5 { assert t[..5][0] == c; } }
    assert !(|t| >= 4 && t[..4] == "&lt;") by { if |t| >= 4 { assert t[..4][0] == c; } }
    assert !(|t| >= 4 && t[..4] == "&gt;") by { if |t| >= 4 { assert t[..4][0] == c; } }
    assert !(|t| >= 6 && t[..6] == "&quot;") by { if |t| >= 6 { assert t[..6][0] == c; } }
    assert !(|t| >= 5 && t[..5] == "&#39;") by { if |t| >= 5 { assert t[..5][0] == c; } }
  }

  /** Escaping loses nothing: the text can be decoded back. */
  lemma {:induction false} EscapeRoundTrip(s: string)
    ensures UnescapeHtml(EscapeHtml(s)) == s
  {
    if s != [] {
      EscapeRoundTrip(s[1..]);
      UnescapeEscChar(s[0], EscapeHtml(s[1..]));
    }
  }

  /** The output holds no raw `<`, `>`, `"` or `'`, and text without markup
      characters is left as it is. */
  lemma {:induction false} EscapeIsSafe(s: string)
    ensures forall i :: 0 <= i < |EscapeHtml(s)| ==> !(IsMarkup(EscapeHtml(s)[i]) && EscapeHtml(s)[i] != '&')
    ensures (forall i :: 0 <= i < |s| ==> !IsMarkup(s[i])) ==> EscapeHtml(s) == s
  {
    if s != [] {
      EscapeIsSafe(s[1..]);
      var e := EscChar(s[0]);
      assert forall i :: 0 <= i < |e| ==> !(IsMarkup(e[i]) && e[i] != '&');
      assert EscapeHtml(s) == e + EscapeHtml(s[1..]);
    }
  }

  lemma {:induction false} EscapeAppend(a: string, b: string)
    ensures EscapeHtml(a + b) == EscapeHtml(a) + EscapeHtml(b)
  {
    if a == [] {
      assert a + b == b;
    } else {
      assert (a + b)[0] == a[0] && (a + b)[1..] == a[1..] + b;
      EscapeAppend(a[1..], b);
    }
  }

  // ---------------------------------------------------------------------------
  // applyRuleFilter

  /** `(r.name || '')` as a string, or `None` when the expression throws: the rule is
      `null`/`undefined`, or its truthy name is not a string (it has no
      `toLowerCase`). */
  function RuleName(rule: JsValue): Option<string> {
    if rule.Null? || rule.Undefined? then None
    else if !Truthy(Get(rule, "name")) then Some("")
    else if Get(rule, "name").Str? then Some(Get(rule, "name").s)
    else None
  }

  predicate NameMatches(name: string, query: string) {
    Contains(ToLower(name), query)
  }

  /** `rules.filter(r => (r.name || '').toLowerCase().includes(query))`. */
  function FilterByName(rules: seq<JsValue>, query: string): Option<seq<JsValue>> {
    if rules == [] then Some([])
    else
      match RuleName(rules[0])
      case None => None
      case Some(name) =>
        match FilterByName(rules[1..], query)
        case None => None
        case Some(rest) => Some((if NameMatches(name, query) then [rules[0]] else []) + rest)
  }

  /** `applyRuleFilter`: the query is trimmed and lower-cased; an empty query keeps
      the whole list. */
  function ApplyRuleFilter(rules: seq<JsValue>, rawQuery: string): Option<seq<JsValue>> {
    var query := ToLower(Trim(rawQuery));
    if query == "" then Some(rules) else FilterByName(rules, query)
  }

  /** A query made only of whitespace leaves the list unchanged, whatever it holds. */
  lemma BlankQueryKeepsAll(rules: seq<JsValue>, rawQuery: string)
    requires AllWhitespace(rawQuery)
    ensures ApplyRuleFilter(rules, rawQuery) == Some(rules)
  {
    TrimEmptyIff(rawQuery);
  }

  /** Filtering a concatenation is concatenating the filtered parts: the result keeps
      list order. */
  lemma {:induction false} FilterByNameAppend(a: seq<JsValue>, b: seq<JsValue>, query: string)
    requires FilterByName(a, query).Some? && FilterByName(b, query).Some?
    ensures FilterByName(a + b, query) == Some(FilterByName(a, query).value + FilterByName(b, query).value)
  {
    if a == [] {
      assert a + b == b;
      assert [] + FilterByName(b, query).value == FilterByName(b, query).value;
    } else {
      assert (a + b)[0] == a[0] && (a + b)[1..] == a[1..] + b;
      FilterByNameAppend(a[1..], b, query);
      var name := RuleName(a[0]).value;
      var head := if NameMatches(name, query) then [a[0]] else [];
      var x := FilterByName(a[1..], query).value;
      var y := FilterByName(b, query).value;
      assert FilterByName(a, query).value == head + x;
      assert FilterByName(a + b, query).value == head + (x + y);
      assert head + (x + y) == (head + x) + y;
    }
  }

  /** The filter fails exactly when some rule's name expression throws. */
  lemma {:induction false} FilterByNameFails(rules: seq<JsValue>, query: string)
    ensures FilterByName(rules, query).None? <==> exists i :: 0 <= i < |rules| && RuleName(rules[i]).None?
  {
    if rules != [] {
      FilterByNameFails(rules[1..], query);
      if exists i :: 0 <= i < |rules[1..]| && RuleName(rules[1..][i]).None? {
        var i :| 0 <= i < |rules[1..]| && RuleName(rules[1..][i]).None?;
        assert rules[i + 1] == rules[1..][i];
      }
      if exists i :: 0 <= i < |rules| && RuleName(rules[i]).None? {
        var i :| 0 <= i < |rules| && RuleName(rules[i]).None?;
        if i > 0 {
          assert rules[1..][i - 1] == rules[i];
        }
      }
    }
  }

  /** What the filter keeps: every rule it returns matches, and every rule that
      matches is returned. */
  lemma {:induction false} FilterByNameMembers(rules: seq<JsValue>, query: string)
    requires FilterByName(rules, query).Some?
    ensures forall r :: r in FilterByName(rules, query).value ==>
              r in rules && RuleName(r).Some? && NameMatches(RuleName(r).value, query)
    ensures forall i :: 0 <= i < |rules| && RuleName(rules[i]).Some? && NameMatches(RuleName(rules[i]).value, query)
              ==> rules[i] in FilterByName(rules, query).value
  {
    if rules != [] {
      FilterByNameMembers(rules[1..], query);
      forall i | 1 <= i < |rules|
        ensures rules[i] == rules[1..][i - 1]
      {
      }
    }
  }

  /** Filtering an already filtered list changes nothing. */
  lemma {:induction false} FilterByNameIdempotent(rules: seq<JsValue>, query: string)
    requires FilterByName(rules, query).Some?
    ensures FilterByName(FilterByName(rules, query).value, query) == FilterByName(rules, query)
  {
    if rules != [] {
      FilterByNameIdempotent(rules[1..], query);
      var name := RuleName(rules[0]).value;
      var rest := FilterByName(rules[1..], query).value;
      if NameMatches(name, query) {
        var one := [rules[0]];
        assert one[0] == rules[0] && one[1..] == [];
        assert FilterByName(one, query) == Some(one + []);
        assert one + [] == one;
        FilterByNameAppend(one, rest, query);
        assert FilterByName(rules, query).value == one + rest;
      } else {
        assert FilterByName(rules, query).value == [] + rest;
        assert [] + rest == rest;
      }
    }
  }

  // ---------------------------------------------------------------------------
  // updateAliasPreview

  datatype Preview = Preview(text: string, copyDisabled: bool)

  /** `updateAliasPreview`: `${local}@${domain}` with the placeholders `alias` and `—`. */
  function AliasPreview(rawLocal: string, rootDomain: string): Preview {
    var local := ToLower(Trim(rawLocal));
    Preview((if local == "" then "alias" else local) + "@" + (if rootDomain == "" then "—" else rootDomain),
            rootDomain == "")
  }

  /** The preview always has one `@` between the two parts and the copy button is
      disabled exactly when the root domain is unknown. */
  lemma AliasPreviewShape(rawLocal: string, rootDomain: string)
    ensures AliasPreview(rawLocal, rootDomain).copyDisabled <==> rootDomain == ""
    ensures var p := AliasPreview(rawLocal, rootDomain);
            var local := ToLower(Trim(rawLocal));
            local != "" && rootDomain != "" ==> p.text == local + "@" + rootDomain
    ensures AllWhitespace(rawLocal) && rootDomain != "" ==>
              AliasPreview(rawLocal, rootDomain).text == "alias@" + rootDomain
    ensures var local := ToLower(Trim(rawLocal));
            rootDomain == "" ==>
              AliasPreview(rawLocal, rootDomain).text == (if local == "" then "alias" else local) + "@—"
  {
    if AllWhitespace(rawLocal) {
      TrimEmptyIff(rawLocal);
      assert ToLower(Trim(rawLocal)) == "";
    }
  }

  /** The local part the form submits: `localPartInput.value.trim()`, as written. */
  function SubmittedLocalPartAsWritten(rawLocal: string): string {
    Trim(rawLocal)
  }

  /** The body the alias form submits as written, `None` when it returns early. */
  function SubmitBodyAsWritten(rawLocal: string, dest: string): Option<JsValue> {
    var lp := SubmittedLocalPartAsWritten(rawLocal);
    if lp == "" || dest == "" then None
    else Some(Obj(map["localPart" := Str(lp), "destEmail" := Str(dest)]))
  }

  /** As written, typing "Ab" previews "ab@<domain>" but submits "Ab", which the
      server's schema rejects: the previewed alias is never created. */
  lemma PreviewDiffersFromSubmitted(destEmail: string, isEmail: string -> bool)
    ensures AliasPreview("Ab", "d").text == "ab@d"
    ensures SubmitBodyAsWritten("Ab", destEmail).Some? <==> destEmail != ""
    ensures destEmail != "" ==> Server.ParseRuleBody(SubmitBodyAsWritten("Ab", destEmail).value, isEmail).Failure?
  {
    PreviewOfAb();
    TrimUnpadded("Ab");
    Server.LocalPartRejectsUpperAndAt("Ab", 0);
    Server.ParseRuleBodyAccepts(Obj(map["localPart" := Str("Ab"), "destEmail" := Str(destEmail)]), isEmail);
  }

  lemma PreviewOfAb()
    ensures AliasPreview("Ab", "d").text == "ab@d"
  {
    TrimUnpadded("Ab");
    assert ToLower("Ab") == "ab";
  }

  /** The local part the form should submit: the one the preview shows. */
  function SubmittedLocalPart(rawLocal: string): string {
    ToLower(Trim(rawLocal))
  }

  /** With the submitted local part lower-cased as in the preview, the preview is
      exactly the name of the rule the server creates, whenever the domain is set. */
  lemma PreviewIsCreatedAlias(rawLocal: string, c: Server.Config)
    requires SubmittedLocalPart(rawLocal) != "" && c.domain.Some? && c.domain.value != ""
    ensures AliasPreview(rawLocal, c.domain.value).text
         == Server.AliasEmail(SubmittedLocalPart(rawLocal), c)
  {
  }

  /** The submitted local part is already in the form the preview shows. */
  lemma SubmittedLocalPartNormalised(rawLocal: string)
    ensures var lp := SubmittedLocalPart(rawLocal);
            Unpadded(lp) && IsLower(lp) && SubmittedLocalPart(lp) == lp
  {
    TrimToLowerCommute(rawLocal);
    var lp := SubmittedLocalPart(rawLocal);
    ToLowerIsLower(Trim(rawLocal));
    TrimUnpadded(Trim(ToLower(rawLocal)));
    ToLowerOfLower(lp);
  }

  /** The body the alias form posts to `/api/rules`, or `None` when the form gives up
      because the local part or the destination is empty. */
  function SubmitBody(rawLocal: string, dest: string): Option<JsValue> {
    var lp := SubmittedLocalPart(rawLocal);
    if lp == "" || dest == "" then None
    else Some(Obj(map["localPart" := Str(lp), "destEmail" := Str(dest)]))
  }

  /** The form submits exactly when the trimmed local part and the destination are
      non-empty, and whatever rule the server then sends upstream is named by the
      alias the preview showed. */
  lemma CreatedRuleIsPreviewed(rawLocal: string, dest: string, c: Server.Config, isEmail: string -> bool,
                               answer: CloudflareApi.Exchange<JsValue>, texts: Server.ErrorTexts)
    requires c.domain.Some? && c.domain.value != ""
    ensures SubmitBody(rawLocal, dest).Some? <==> Trim(rawLocal) != "" && dest != ""
    ensures SubmitBody(rawLocal, dest).Some? ==>
              var o := Server.CreateRuleRoute(c, SubmitBody(rawLocal, dest).value, isEmail, answer, texts);
              forall q :: q in o.sent ==>
                q.body.Some? && Get(q.body.value, "name") == Str(AliasPreview(rawLocal, c.domain.value).text)
  {
    var lp := SubmittedLocalPart(rawLocal);
    assert |lp| == |Trim(rawLocal)|;
    if lp != "" && dest != "" {
      assert AliasPreview(rawLocal, c.domain.value).text == Server.AliasEmail(lp, c);
      Server.CreateRuleSendsNamedPayload(c, lp, dest, isEmail, answer, texts);
    }
  }

  // ---------------------------------------------------------------------------
  // generateAlias

  const AliasAlphabet: string := "0123456789abcdefghijklmnopqrstuvwxyz"
  const AliasLength: nat := 8

  /** `chars.charAt(Math.floor(r * chars.length))`; `charAt` out of range is "". */
  function DrawChar(r: real): string {
    var k := (r * (|AliasAlphabet| as real)).Floor;
    if 0 <= k < |AliasAlphabet| then [AliasAlphabet[k]] else ""
  }

  /** The alias made of the given `Math.random()` values, one character each. */
  function AliasOfDraws(draws: seq<real>): string {
    if draws == [] then "" else AliasOfDraws(draws[..|draws| - 1]) + DrawChar(draws[|draws| - 1])
  }

  /** `generateAlias`: eight draws, appended in order. */
  method GenerateAlias(draws: seq<real>) returns (alias: string)
    requires |draws| == AliasLength
    ensures alias == AliasOfDraws(draws)
    ensures forall i :: 0 <= i < |alias| ==> InAlphabet(alias[i])
    ensures (forall i :: 0 <= i < |draws| ==> 0.0 <= draws[i] < 1.0) ==> |alias| == AliasLength
  {
    alias := "";
    for i := 0 to AliasLength
      invariant alias == AliasOfDraws(draws[..i])
    {
      assert draws[..i + 1][..i] == draws[..i];
      alias := alias + DrawChar(draws[i]);
    }
    assert draws[..AliasLength] == draws;
    AliasOfDrawsInAlphabet(draws);
    if forall i :: 0 <= i < |draws| ==> 0.0 <= draws[i] < 1.0 {
      AliasOfDrawsLength(draws);
    }
  }

  predicate InAlphabet(c: char) {
    ('0' <= c <= '9') || ('a' <= c <= 'z')
  }

  lemma DrawCharInRange(r: real)
    requires 0.0 <= r < 1.0
    ensures |DrawChar(r)| == 1 && InAlphabet(DrawChar(r)[0])
  {
    var k := (r * 36.0).Floor;
    assert 0 <= k < 36;
    assert forall j :: 0 <= j < |AliasAlphabet| ==> InAlphabet(AliasAlphabet[j]);
  }

  /** Every character comes from `0-9a-z`. */
  lemma {:induction false} AliasOfDrawsInAlphabet(draws: seq<real>)
    ensures forall i :: 0 <= i < |AliasOfDraws(draws)| ==> InAlphabet(AliasOfDraws(draws)[i])
  {
    if draws != [] {
      AliasOfDrawsInAlphabet(draws[..|draws| - 1]);
      DrawCharInAlphabet(draws[|draws| - 1]);
    }
  }

  lemma DrawCharInAlphabet(r: real)
    ensures forall i :: 0 <= i < |DrawChar(r)| ==> InAlphabet(DrawChar(r)[i])
  {
    assert forall j :: 0 <= j < |AliasAlphabet| ==> InAlphabet(AliasAlphabet[j]);
  }

  /** With `Math.random()` values, which lie in [0, 1), the alias has one character
      per draw. */
  lemma {:induction false} AliasOfDrawsLength(draws: seq<real>)
    requires forall i :: 0 <= i < |draws| ==> 0.0 <= draws[i] < 1.0
    ensures |AliasOfDraws(draws)| == |draws|
  {
    if draws != [] {
      var init := draws[..|draws| - 1];
      assert forall i :: 0 <= i < |init| ==> init[i] == draws[i];
      AliasOfDrawsLength(init);
      DrawCharInRange(draws[|draws| - 1]);
    }
  }

  /** A generated alias is one the server's schema accepts. */
  lemma GeneratedAliasAccepted(draws: seq<real>)
    requires |draws| == AliasLength
    requires forall i :: 0 <= i < |draws| ==> 0.0 <= draws[i] < 1.0
    ensures |AliasOfDraws(draws)| == 8
    ensures Server.LocalPartIssues(AliasOfDraws(draws)) == []
  {
    AliasOfDrawsInAlphabet(draws);
    AliasOfDrawsLength(draws);
    var a := AliasOfDraws(draws);
    assert forall i :: 0 <= i < |a| ==> Server.IsLocalPartChar(a[i]);
    Server.LocalPartRule(a);
  }

  // ---------------------------------------------------------------------------
  // ruleRow: the destination text

  /** `dests.join(', ')`: `null` and `undefined` elements are empty. */
  function JoinDestinations(items: seq<JsValue>, stringOf: JsValue -> string): string {
    Join(seq(|items|, i requires 0 <= i < |items| =>
               if items[i].Null? || items[i].Undefined? then "" else ToJsString(items[i], stringOf)),
         ", ")
  }

  /** `rule.actions?.[0]?.value || []`, joined when it is an array and used as it is
      otherwise; `None` when `rule` itself is `null` or `undefined`, where reading
      `rule.actions` throws. */
  function DestText(rule: JsValue, stringOf: JsValue -> string): Option<JsValue> {
    if rule.Null? || rule.Undefined? then None
    else
      var dests := Get(First(Get(rule, "actions")), "value");
      var shown := if Truthy(dests) then dests else Arr([]);
      Some(if shown.Arr? then Str(JoinDestinations(shown.items, stringOf)) else shown)
  }

  /** A rule created by the server shows its one destination back. */
  lemma DestTextOfCreatedRule(input: Server.RuleInput, c: Server.Config, stringOf: JsValue -> string)
    ensures DestText(Server.RulePayload(input, c), stringOf) == Some(Str(input.destEmail))
  {
    var p := Server.RulePayload(input, c);
    assert Get(p, "actions") == Arr([Server.ForwardAction(input.destEmail)]);
    var items := [Str(input.destEmail)];
    var parts := seq(|items|, i requires 0 <= i < |items| =>
                       if items[i].Null? || items[i].Undefined? then "" else ToJsString(items[i], stringOf));
    assert parts == [input.destEmail];
    JoinSingle(input.destEmail, ", ");
  }

  /** Several destinations are listed with ", " between them. */
  lemma DestTextOfTwo(a: string, b: string, stringOf: JsValue -> string)
    ensures var rule := Obj(map["actions" := Arr([Obj(map["value" := Arr([Str(a), Str(b)])])])]);
            DestText(rule, stringOf) == Some(Str(a + ", " + b))
  {
    var items := [Str(a), Str(b)];
    var parts := seq(|items|, i requires 0 <= i < |items| =>
                       if items[i].Null? || items[i].Undefined? then "" else ToJsString(items[i], stringOf));
    assert parts == [a] + [b];
    JoinAppend([a], [b], ", ");
    JoinSingle(a, ", ");
    JoinSingle(b, ", ");
  }

  /** A missing rule makes the rendering throw; a rule without destinations shows
      an empty one; a non-array value is shown as it is. */
  lemma DestTextWithoutActions(rule: JsValue, stringOf: JsValue -> string)
    ensures DestText(rule, stringOf).None? <==> rule.Null? || rule.Undefined?
    ensures !(rule.Null? || rule.Undefined?) && !Truthy(Get(First(Get(rule, "actions")), "value")) ==>
              DestText(rule, stringOf) == Some(Str(""))
    ensures var dests := Get(First(Get(rule, "actions")), "value");
            !(rule.Null? || rule.Undefined?) && Truthy(dests) && !dests.Arr? ==>
              DestText(rule, stringOf) == Some(dests)
  {
  }

  // ---------------------------------------------------------------------------
  // updateCreateButtonState

  datatype ButtonState = ButtonState(createDisabled: bool, helperHidden: bool)

  /** `updateCreateButtonState`; `selectedDisabled` is `None` when no option is
      selected. */
  function CreateButtonState(selectedDisabled: Option<bool>, value: string): (b: ButtonState)
    ensures !b.createDisabled <==> selectedDisabled == Some(false) && value != ""
    ensures b.helperHidden <==> !b.createDisabled
  {
    var valid := selectedDisabled.Some? && !selectedDisabled.value && value != "";
    ButtonState(!valid, valid)
  }
}
