/**
 * Choice of the destination address pre-selected in the alias form
 * (public/utils/destSelection.js). The list and the previous value come straight
 * from the page, so both are arbitrary JavaScript values.
 */
module DestSelection {
  import opened Js
  import opened Verification

  datatype SelectionState = SelectionState(selectedValue: string, hasEnabledOption: bool)

  /** `Array.isArray(list) ? list : []`. */
  function ItemsOf(list: JsValue): seq<JsValue> {
    if list.Arr? then list.items else []
  }

  /** `typeof previousValue === 'string' ? previousValue : ''` (the default `''`
      stands in for `undefined`). */
  function PreviousOf(previousValue: JsValue): string {
    if previousValue.Str? then previousValue.s else ""
  }

  /** `typeof item?.email === 'string' ? item.email : ''`. */
  function EmailOf(item: JsValue): string {
    var e := Get(item, "email");
    if e.Str? then e.s else ""
  }

  /** An item that may be offered: a non-empty string email and a verified status. */
  predicate Usable(item: JsValue, parsesAsDate: string -> bool) {
    EmailOf(item) != "" && IsVerifiedStatus(Get(item, "verified"), parsesAsDate)
  }

  /** The email of the first usable item, or "" when there is none. */
  function FirstUsable(items: seq<JsValue>, parsesAsDate: string -> bool): string
  {
    if items == [] then ""
    else if Usable(items[0], parsesAsDate) then EmailOf(items[0])
    else FirstUsable(items[1..], parsesAsDate)
  }

  /** `FirstUsable` is "" exactly when no item is usable, and otherwise the email of
      the earliest usable item. */
  lemma {:induction false} FirstUsableIsFirst(items: seq<JsValue>, parsesAsDate: string -> bool)
    ensures FirstUsable(items, parsesAsDate) == ""
        <==> forall i :: 0 <= i < |items| ==> !Usable(items[i], parsesAsDate)
    ensures FirstUsable(items, parsesAsDate) != "" ==>
              exists i :: (&& 0 <= i < |items| && Usable(items[i], parsesAsDate)
                           && EmailOf(items[i]) == FirstUsable(items, parsesAsDate)
                           && forall j :: 0 <= j < i ==> !Usable(items[j], parsesAsDate))
    decreases |items|
  {
    if items != [] && !Usable(items[0], parsesAsDate) {
      FirstUsableIsFirst(items[1..], parsesAsDate);
      assert forall i :: 1 <= i < |items| ==> items[i] == items[1..][i - 1];
      if FirstUsable(items, parsesAsDate) != "" {
        var k :| (&& 0 <= k < |items[1..]| && Usable(items[1..][k], parsesAsDate)
                  && EmailOf(items[1..][k]) == FirstUsable(items, parsesAsDate)
                  && forall j :: 0 <= j < k ==> !Usable(items[1..][j], parsesAsDate));
        assert forall j :: 0 <= j < k + 1 ==> !Usable(items[j], parsesAsDate) by {
          forall j | 0 <= j < k + 1 ensures !Usable(items[j], parsesAsDate) {
            if j > 0 { assert items[j] == items[1..][j - 1]; }
          }
        }
        assert items[k + 1] == items[1..][k];
      }
    }
  }

  /** Extending the list at the end changes the first usable email only if there was none. */
  lemma {:induction false} FirstUsableSnoc(items: seq<JsValue>, x: JsValue, parsesAsDate: string -> bool)
    ensures FirstUsable(items + [x], parsesAsDate)
         == if FirstUsable(items, parsesAsDate) != "" then FirstUsable(items, parsesAsDate)
            else if Usable(x, parsesAsDate) then EmailOf(x) else ""
    decreases |items|
  {
    if items != [] {
      assert (items + [x])[0] == items[0];
      assert (items + [x])[1..] == items[1..] + [x];
      FirstUsableSnoc(items[1..], x, parsesAsDate);
    } else {
      assert [] + [x] == [x];
      assert [x][1..] == [];
    }
  }

  /** Once a prefix has a usable item, what follows it does not matter. */
  lemma {:induction false} FirstUsableKept(p: seq<JsValue>, q: seq<JsValue>, parsesAsDate: string -> bool)
    requires FirstUsable(p, parsesAsDate) != ""
    ensures FirstUsable(p + q, parsesAsDate) == FirstUsable(p, parsesAsDate)
    decreases |p|
  {
    assert (p + q)[0] == p[0];
    if !Usable(p[0], parsesAsDate) {
      assert (p + q)[1..] == p[1..] + q;
      FirstUsableKept(p[1..], q, parsesAsDate);
    }
  }

  /** Some usable item carries the email `prev`. */
  predicate UsableWithEmail(items: seq<JsValue>, prev: string, parsesAsDate: string -> bool) {
    exists i :: 0 <= i < |items| && Usable(items[i], parsesAsDate) && EmailOf(items[i]) == prev
  }

  lemma UsableWithEmailSnoc(items: seq<JsValue>, x: JsValue, prev: string, parsesAsDate: string -> bool)
    ensures UsableWithEmail(items + [x], prev, parsesAsDate)
        <==> UsableWithEmail(items, prev, parsesAsDate) || (Usable(x, parsesAsDate) && EmailOf(x) == prev)
  {
    var ys := items + [x];
    assert ys[|items|] == x;
    if UsableWithEmail(ys, prev, parsesAsDate) && !(Usable(x, parsesAsDate) && EmailOf(x) == prev) {
      var i :| 0 <= i < |ys| && Usable(ys[i], parsesAsDate) && EmailOf(ys[i]) == prev;
      assert i < |items| && ys[i] == items[i];
    }
    if UsableWithEmail(items, prev, parsesAsDate) {
      var i :| 0 <= i < |items| && Usable(items[i], parsesAsDate) && EmailOf(items[i]) == prev;
      assert ys[i] == items[i];
    }
  }

  /** The selection the helper is meant to make: keep the previous value when a
      usable item carries it, otherwise take the first usable item. */
  function Selection(list: JsValue, previousValue: JsValue, parsesAsDate: string -> bool): SelectionState {
    var items := ItemsOf(list);
    var prev := PreviousOf(previousValue);
    var first := FirstUsable(items, parsesAsDate);
    SelectionState(if UsableWithEmail(items, prev, parsesAsDate) then prev else first, first != "")
  }

  /** `getDestSelectionState`: one pass with early exit once the previous value is
      found on a usable item. */
  method GetDestSelectionState(list: JsValue, previousValue: JsValue, parsesAsDate: string -> bool)
    returns (state: SelectionState)
    ensures state == Selection(list, previousValue, parsesAsDate)
  {
    var items := ItemsOf(list);
    var prev := PreviousOf(previousValue);
    var firstEnabled := "";
    var preservedSelection := "";
    var i := 0;
    while i < |items|
      invariant 0 <= i <= |items|
      invariant firstEnabled == FirstUsable(items[..i], parsesAsDate)
      invariant preservedSelection == ""
      invariant !UsableWithEmail(items[..i], prev, parsesAsDate)
    {
      var item := items[i];
      var email := EmailOf(item);
      assert items[..i + 1] == items[..i] + [item];
      FirstUsableSnoc(items[..i], item, parsesAsDate);
      UsableWithEmailSnoc(items[..i], item, prev, parsesAsDate);
      if email != "" {
        var isVerified := IsVerifiedStatus(Get(item, "verified"), parsesAsDate);
        if isVerified && firstEnabled == "" {
          firstEnabled := email;
        }
        if preservedSelection == "" && isVerified && email == prev {
          preservedSelection := email;
          break;
        }
      }
      i := i + 1;
    }
    if preservedSelection == "" {
      assert items[..i] == items;
    } else {
      assert items == items[..i + 1] + items[i + 1..];
      FirstUsableKept(items[..i + 1], items[i + 1..], parsesAsDate);
      assert items[..i + 1][i] == items[i];
      assert UsableWithEmail(items, prev, parsesAsDate);
    }
    var selectedValue := if preservedSelection != "" then preservedSelection
      else if firstEnabled != "" then firstEnabled else "";
    var hasEnabledOption := firstEnabled != "";
    state := SelectionState(selectedValue, hasEnabledOption);
  }

  /** An empty list, or a value that is not an array, selects nothing. */
  lemma SelectionOfNothing(list: JsValue, previousValue: JsValue, parsesAsDate: string -> bool)
    requires !list.Arr? || list.items == []
    ensures Selection(list, previousValue, parsesAsDate) == SelectionState("", false)
  {
  }

  /** The selected value is "" or the email of an item that is usable, so an
      unverified address is never selected. */
  lemma SelectionNeverUnverified(list: JsValue, previousValue: JsValue, parsesAsDate: string -> bool)
    ensures var s := Selection(list, previousValue, parsesAsDate);
            s.selectedValue == "" || UsableWithEmail(ItemsOf(list), s.selectedValue, parsesAsDate)
  {
    FirstUsableIsFirst(ItemsOf(list), parsesAsDate);
  }

  /** `hasEnabledOption` says whether some item is usable, and the selection is
      empty exactly when it is false. */
  lemma SelectionHasEnabledIff(list: JsValue, previousValue: JsValue, parsesAsDate: string -> bool)
    ensures var s := Selection(list, previousValue, parsesAsDate);
            var items := ItemsOf(list);
            && (s.hasEnabledOption <==> exists i :: 0 <= i < |items| && Usable(items[i], parsesAsDate))
            && (s.selectedValue == "" <==> !s.hasEnabledOption)
  {
    FirstUsableIsFirst(ItemsOf(list), parsesAsDate);
  }

  /** A previous value carried by a usable item is kept. */
  lemma SelectionKeepsPrevious(list: JsValue, prev: string, parsesAsDate: string -> bool)
    requires UsableWithEmail(ItemsOf(list), prev, parsesAsDate)
    ensures Selection(list, Str(prev), parsesAsDate).selectedValue == prev
  {
  }

  /** Otherwise the selection is the email of the earliest usable item. */
  lemma SelectionFallsBackToFirst(list: JsValue, previousValue: JsValue, parsesAsDate: string -> bool)
    requires !UsableWithEmail(ItemsOf(list), PreviousOf(previousValue), parsesAsDate)
    ensures var s := Selection(list, previousValue, parsesAsDate);
            var items := ItemsOf(list);
            s.hasEnabledOption ==>
              exists i :: (&& 0 <= i < |items| && Usable(items[i], parsesAsDate)
                           && EmailOf(items[i]) == s.selectedValue
                           && forall j :: 0 <= j < i ==> !Usable(items[j], parsesAsDate))
  {
    FirstUsableIsFirst(ItemsOf(list), parsesAsDate);
  }

  lemma {:induction false} FirstUsableSkips(p: seq<JsValue>, x: JsValue, q: seq<JsValue>, parsesAsDate: string -> bool)
    requires EmailOf(x) == ""
    ensures FirstUsable(p + [x] + q, parsesAsDate) == FirstUsable(p + q, parsesAsDate)
    decreases |p|
  {
    if p == [] {
      assert p + [x] + q == [x] + q && ([x] + q)[1..] == q && p + q == q;
    } else {
      assert (p + [x] + q)[0] == p[0] && (p + q)[0] == p[0];
      assert (p + [x] + q)[1..] == p[1..] + [x] + q;
      assert (p + q)[1..] == p[1..] + q;
      FirstUsableSkips(p[1..], x, q, parsesAsDate);
    }
  }

  lemma UsableWithEmailSkips(p: seq<JsValue>, x: JsValue, q: seq<JsValue>, prev: string, parsesAsDate: string -> bool)
    requires EmailOf(x) == ""
    ensures UsableWithEmail(p + [x] + q, prev, parsesAsDate) == UsableWithEmail(p + q, prev, parsesAsDate)
  {
    if UsableWithEmail(p + [x] + q, prev, parsesAsDate) {
      UsableWithEmailDropped(p, x, q, prev, parsesAsDate);
    }
    if UsableWithEmail(p + q, prev, parsesAsDate) {
      UsableWithEmailInserted(p, x, q, prev, parsesAsDate);
    }
  }

  lemma UsableWithEmailDropped(p: seq<JsValue>, x: JsValue, q: seq<JsValue>, prev: string, parsesAsDate: string -> bool)
    requires EmailOf(x) == "" && UsableWithEmail(p + [x] + q, prev, parsesAsDate)
    ensures UsableWithEmail(p + q, prev, parsesAsDate)
  {
    var long, short := p + [x] + q, p + q;
    var i :| 0 <= i < |long| && Usable(long[i], parsesAsDate) && EmailOf(long[i]) == prev;
    var j := if i < |p| then i else i - 1;
    assert short[j] == long[i];
  }

  lemma UsableWithEmailInserted(p: seq<JsValue>, x: JsValue, q: seq<JsValue>, prev: string, parsesAsDate: string -> bool)
    requires UsableWithEmail(p + q, prev, parsesAsDate)
    ensures UsableWithEmail(p + [x] + q, prev, parsesAsDate)
  {
    var long, short := p + [x] + q, p + q;
    var i :| 0 <= i < |short| && Usable(short[i], parsesAsDate) && EmailOf(short[i]) == prev;
    var j := if i < |p| then i else i + 1;
    assert long[j] == short[i];
  }

  /** An item without a non-empty string email, wherever it stands, changes nothing. */
  lemma SelectionIgnoresMalformedItems(items: seq<JsValue>, k: nat, x: JsValue,
                                       previousValue: JsValue, parsesAsDate: string -> bool)
    requires k <= |items| && EmailOf(x) == ""
    ensures Selection(Arr(items[..k] + [x] + items[k..]), previousValue, parsesAsDate)
         == Selection(Arr(items), previousValue, parsesAsDate)
  {
    assert items[..k] + items[k..] == items;
    FirstUsableSkips(items[..k], x, items[k..], parsesAsDate);
    UsableWithEmailSkips(items[..k], x, items[k..], PreviousOf(previousValue), parsesAsDate);
  }

  /** A previous value that is not a string behaves like "". */
  lemma SelectionNonStringPrevious(list: JsValue, previousValue: JsValue, parsesAsDate: string -> bool)
    requires !previousValue.Str?
    ensures Selection(list, previousValue, parsesAsDate) == Selection(list, Str(""), parsesAsDate)
  {
  }

  function Dest(email: string, verified: bool): JsValue {
    Obj(map["email" := Str(email), "verified" := Bool(verified)])
  }

  /** The two worked cases: a verified previous value is honoured; an unverified one
      falls back to the first verified address. */
  lemma SelectionExamples(parsesAsDate: string -> bool)
    ensures var list := Arr([Dest("a@x", false), Dest("b@x", true), Dest("c@x", true)]);
            && Selection(list, Str("c@x"), parsesAsDate) == SelectionState("c@x", true)
            && Selection(list, Str("a@x"), parsesAsDate) == SelectionState("b@x", true)
            && Selection(Arr([]), Str("x"), parsesAsDate) == SelectionState("", false)
  {
    var items := [Dest("a@x", false), Dest("b@x", true), Dest("c@x", true)];
    assert EmailOf(items[0]) == "a@x" && !Usable(items[0], parsesAsDate);
    assert EmailOf(items[1]) == "b@x" && Usable(items[1], parsesAsDate);
    assert EmailOf(items[2]) == "c@x" && Usable(items[2], parsesAsDate);
    assert items[1..][0] == items[1];
    assert UsableWithEmail(items, "c@x", parsesAsDate);
    assert !UsableWithEmail(items, "a@x", parsesAsDate);
  }
}
