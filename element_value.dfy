/** Uniform reading and writing of a form element's state (lib/element_value.js):
    `checked` for checkboxes and radios, `value` for other inputs and for
    textareas, and the indices of the selected options for a SELECT. */
module ElementValue {
  import opened Wrappers
  import opened Text
  import opened Dom

  /** The values the widget reads from elements and stores under their keys. */
  datatype Value = VBool(b: bool) | VStr(s: string) | VInt(i: int) | VIndices(xs: seq<int>)

  /** Which accessor an element gets, decided by tag, `type` attribute and
      `multiple` flag. */
  datatype Kind = Checkable | TextInput | MultiSelect | SingleSelect | Plain

  function KindOf(tagName: string, typeAttr: string, multiple: bool): (k: Kind)
    ensures k == Checkable <==> tagName == INPUT && (typeAttr == "checkbox" || typeAttr == "radio")
    ensures k == TextInput <==> tagName == INPUT && typeAttr != "checkbox" && typeAttr != "radio"
    ensures k == MultiSelect <==> tagName == SELECT && multiple
    ensures k == SingleSelect <==> tagName == SELECT && !multiple
    ensures k == Plain <==> tagName != INPUT && tagName != SELECT
  {
    if tagName == INPUT then
      if typeAttr == "checkbox" || typeAttr == "radio" then Checkable else TextInput
    else if tagName == SELECT then
      if multiple then MultiSelect else SingleSelect
    else Plain
  }

  /** The changeable state of an element, as a value. */
  datatype Snapshot = Snapshot(checked: bool, value: string, options: seq<bool>)

  predicate StrictlyIncreasing(xs: seq<int>) {
    forall i, j :: 0 <= i < j < |xs| ==> xs[i] < xs[j]
  }

  /** `getSelectedIndices` on a multiple SELECT: the positions of the selected
      options, collected in order. */
  function SelectedPositions(opts: seq<bool>): (r: seq<int>)
    ensures forall i :: 0 <= i < |r| ==> 0 <= r[i] < |opts| && opts[r[i]]
    ensures forall i :: 0 <= i < |opts| && opts[i] ==> i in r
    ensures StrictlyIncreasing(r)
    decreases |opts|
  {
    if opts == [] then []
    else
      var n := |opts| - 1;
      var front := SelectedPositions(opts[..n]);
      assert forall i :: 0 <= i < |front| ==> front[i] < n && opts[front[i]] == opts[..n][front[i]];
      assert forall i :: 0 <= i < n && opts[i] ==> opts[..n][i];
      front + (if opts[n] then [n] else [])
  }

  /** The DOM's `selectedIndex`: the first selected option, or -1. */
  function SelectedIndex(opts: seq<bool>): (r: int)
    ensures -1 <= r < |opts|
    ensures r >= 0 ==> opts[r] && forall j :: 0 <= j < r ==> !opts[j]
    ensures r == -1 ==> forall j :: 0 <= j < |opts| ==> !opts[j]
    decreases |opts|
  {
    if opts == [] then -1
    else if opts[0] then 0
    else
      var r := SelectedIndex(opts[1..]);
      assert forall j :: 1 <= j < |opts| ==> opts[1..][j - 1] == opts[j];
      if r == -1 then -1 else r + 1
  }

  /** `get`: what the element's accessor reads. The `el.value === ''` test for
      text inputs returns the same value either way. */
  function Read(k: Kind, s: Snapshot): Value {
    match k
    case Checkable => VBool(s.checked)
    case TextInput => VStr(s.value)
    case MultiSelect => VIndices(SelectedPositions(s.options))
    case SingleSelect => VIndices([SelectedIndex(s.options)])
    case Plain => VStr(s.value)
  }

  /** JavaScript's `String(v)`; an array converts to its elements joined by `,`. */
  function ToStr(v: Value): string {
    match v
    case VBool(b) => if b then "true" else "false"
    case VStr(s) => s
    case VInt(i) => IntToString(i)
    case VIndices(xs) => Join(seq(|xs|, i requires 0 <= i < |xs| => IntToString(xs[i])), ',')
  }

  /** JavaScript's truthiness; every array is truthy. */
  function ToBool(v: Value): bool {
    match v
    case VBool(b) => b
    case VStr(s) => s != ""
    case VInt(i) => i != 0
    case VIndices(_) => true
  }

  /** `el.options[x]` for each element x of a list: only a non-negative
      integer names an option. */
  function IndexTargets(xs: seq<int>): (r: seq<Option<nat>>)
    ensures |r| == |xs|
    ensures forall i :: 0 <= i < |xs| ==> r[i] == if xs[i] >= 0 then Some(xs[i] as nat) else None
    decreases |xs|
  {
    if xs == [] then []
    else [if xs[0] >= 0 then Some(xs[0] as nat) else None] + IndexTargets(xs[1..])
  }

  /** `_.each` over a string visits its characters; `el.options['3']` names
      option 3, any other one-character key names nothing. */
  function CharTargets(s: string): (r: seq<Option<nat>>)
    ensures |r| == |s|
    decreases |s|
  {
    if s == [] then []
    else [if IsDigit(s[0]) then Some(DigitValue(s[0])) else None] + CharTargets(s[1..])
  }

  /** The options `setSelectedIndices` visits for a multiple SELECT. `_.each`
      over a boolean or a number visits nothing. */
  function MultiTargets(v: Value): seq<Option<nat>> {
    match v
    case VIndices(xs) => IndexTargets(xs)
    case VStr(s) => CharTargets(s)
    case _ => []
  }

  /** Selecting each visited option in turn. An index that names no option
      makes `el.options[index].selected` a TypeError, which ends the loop
      (false) with the earlier options already selected. */
  function ApplyTargets(flags: seq<bool>, ts: seq<Option<nat>>): (r: (seq<bool>, bool))
    ensures |r.0| == |flags|
    decreases |ts|
  {
    if ts == [] then (flags, true)
    else if ts[0].Some? && ts[0].value < |flags| then ApplyTargets(flags[ts[0].value := true], ts[1..])
    else (flags, false)
  }

  /** The number `el.selectedIndex = selectedIndices[0]` assigns on a single
      SELECT. A missing element (`undefined`) and a non-digit character
      convert to 0 under the DOM's `long` conversion. */
  function SingleTarget(v: Value): int {
    match v
    case VIndices(xs) => if xs == [] then 0 else xs[0]
    case VStr(s) => if s != [] && IsDigit(s[0]) then DigitValue(s[0]) else 0
    case _ => 0
  }

  /** The DOM's `selectedIndex` setter: every option is deselected, then the
      one at n, if there is one, is selected. */
  function SelectOnly(count: nat, n: int): (r: seq<bool>)
    ensures |r| == count
    ensures forall i :: 0 <= i < count ==> (r[i] <==> i == n)
  {
    seq(count, i requires 0 <= i < count => i == n)
  }

  function AllFalse(count: nat): (r: seq<bool>)
    ensures |r| == count && forall i :: 0 <= i < count ==> !r[i]
  {
    seq(count, i => false)
  }

  /** `set`: the state after the element's accessor assigns v, and whether it
      completed (false: it threw a TypeError). */
  function Write(k: Kind, s: Snapshot, v: Value): (r: (Snapshot, bool))
    ensures |r.0.options| == |s.options|
  {
    match k
    case Checkable => (s.(checked := ToBool(v)), true)
    case TextInput => (s.(value := ToStr(v)), true)
    case MultiSelect =>
      var (flags, ok) := ApplyTargets(AllFalse(|s.options|), MultiTargets(v));
      (s.(options := flags), ok)
    case SingleSelect => (s.(options := SelectOnly(|s.options|, SingleTarget(v))), true)
    case Plain => (s.(value := ToStr(v)), true)
  }

  function KindOfElem(el: Elem): Kind {
    KindOf(el.tagName, el.typeAttr, el.multiple)
  }

  function SnapshotOf(el: Elem): Snapshot
    reads el, el.options
  {
    Snapshot(el.checked, el.value, el.options[..])
  }

  /** `get(el)`. */
  function Get(el: Elem): Value
    reads el, el.options
  {
    Read(KindOfElem(el), SnapshotOf(el))
  }

  /** `setInputValue`: assigns `checked` for a checkbox or radio, `value` otherwise. */
  method SetInputValue(el: Elem, v: Value)
    requires el.tagName == INPUT
    modifies el
    ensures SnapshotOf(el) == Write(KindOfElem(el), old(SnapshotOf(el)), v).0
  {
    if el.typeAttr == "checkbox" || el.typeAttr == "radio" {
      el.checked := ToBool(v);
    } else {
      el.value := ToStr(v);
    }
  }

  /** `setSelectedIndices`. A multiple SELECT is cleared option by option and
      then each listed option is selected; a single SELECT gets only the
      first index through `selectedIndex`. Returns false where the source
      throws. */
  method SetSelectedIndices(el: Elem, v: Value) returns (ok: bool)
    requires el.tagName == SELECT
    modifies el.options
    ensures (SnapshotOf(el), ok) == Write(KindOfElem(el), old(SnapshotOf(el)), v)
  {
    var opts := el.options;
    var i := 0;
    while i < opts.Length
      invariant 0 <= i <= opts.Length
      invariant forall j :: 0 <= j < i ==> !opts[j]
    {
      opts[i] := false;
      i := i + 1;
    }
    assert opts[..] == AllFalse(opts.Length);
    if el.multiple {
      var ts := MultiTargets(v);
      var k := 0;
      ok := true;
      while k < |ts|
        invariant 0 <= k <= |ts|
        invariant ApplyTargets(opts[..], ts[k..]) == ApplyTargets(AllFalse(opts.Length), ts)
      {
        if ts[k].Some? && ts[k].value < opts.Length {
          opts[ts[k].value] := true;
          k := k + 1;
        } else {
          ok := false;
          return;
        }
      }
    } else {
      var n := SingleTarget(v);
      if 0 <= n < opts.Length {
        opts[n] := true;
      }
      assert opts[..] == SelectOnly(opts.Length, n);
      ok := true;
    }
  }

  /** The DOM's radio button group: e shares el's group when both are radio
      inputs of the same form with the same non-empty name. */
  predicate GroupMate(el: Elem, e: Elem) {
    && e != el
    && el.tagName == INPUT && el.elType == "radio"
    && e.tagName == INPUT && e.elType == "radio"
    && el.name != "" && e.name == el.name
  }

  /** Whether `set(el, v)` checks a radio button: the accessor assigns
      `checked` a truthy value on an input of type radio. */
  predicate ChecksRadio(el: Elem, v: Value) {
    el.elType == "radio" && KindOfElem(el) == Checkable && ToBool(v)
  }

  /** What `set(el, v)` leaves in another element e of the form that held s:
      once a radio button is checked, the browser unchecks every other button
      of its group; nothing else changes. */
  function Beside(el: Elem, v: Value, e: Elem, s: Snapshot): (r: Snapshot)
    ensures r.value == s.value && r.options == s.options
    ensures r.checked <==> s.checked && !(ChecksRadio(el, v) && GroupMate(el, e))
  {
    if ChecksRadio(el, v) && GroupMate(el, e) then s.(checked := false) else s
  }

  /** The browser's reaction to a radio button becoming checked: the other
      buttons of its group in the form are unchecked. */
  method UncheckGroup(form: seq<Elem>, el: Elem)
    modifies set e | e in form
    ensures forall e :: e in form ==>
      SnapshotOf(e) == if GroupMate(el, e) then old(SnapshotOf(e)).(checked := false) else old(SnapshotOf(e))
    ensures SnapshotOf(el) == old(SnapshotOf(el))
  {
    forall e | e in form && GroupMate(el, e) {
      e.checked := false;
    }
  }

  /** `set(el, v)`: the accessor for the element's tag, with the browser's
      unchecking of the rest of a radio group when a radio is checked. `form`
      is the element's form, which holds it; no other element of the form
      shares its options. */
  method Set(form: seq<Elem>, el: Elem, v: Value) returns (ok: bool)
    requires el in form && forall e :: e in form && e != el ==> e.options != el.options
    modifies el, el.options, set e | e in form
    ensures (SnapshotOf(el), ok) == Write(KindOfElem(el), old(SnapshotOf(el)), v)
    ensures forall e :: e in form && e != el ==> SnapshotOf(e) == Beside(el, v, e, old(SnapshotOf(e)))
  {
    if el.tagName == INPUT {
      SetInputValue(el, v);
      ok := true;
      if ChecksRadio(el, v) {
        UncheckGroup(form, el);
      }
    } else if el.tagName == SELECT {
      ok := SetSelectedIndices(el, v);
    } else {
      el.value := ToStr(v);
      ok := true;
    }
  }

  // Properties of the accessors.

  /** A checkbox or radio reads back the boolean it was set to. */
  lemma CheckableRoundTrip(s: Snapshot, b: bool)
    ensures Write(Checkable, s, VBool(b)) == (s.(checked := b), true)
    ensures Read(Checkable, Write(Checkable, s, VBool(b)).0) == VBool(b)
  {
  }

  /** A text input or a textarea reads back the string it was set to, the
      empty string included. */
  lemma TextRoundTrip(k: Kind, s: Snapshot, v: string)
    requires k == TextInput || k == Plain
    ensures Write(k, s, VStr(v)) == (s.(value := v), true)
    ensures Read(k, Write(k, s, VStr(v)).0) == VStr(v)
  {
  }

  lemma {:induction false} ApplyIndexTargets(flags: seq<bool>, xs: seq<int>)
    requires forall i :: 0 <= i < |xs| ==> 0 <= xs[i] < |flags|
    ensures ApplyTargets(flags, IndexTargets(xs)).1
    ensures forall i :: 0 <= i < |flags| ==>
      (ApplyTargets(flags, IndexTargets(xs)).0[i] <==> flags[i] || i in xs)
    decreases |xs|
  {
    if xs != [] {
      var f := flags[xs[0] := true];
      assert IndexTargets(xs)[1..] == IndexTargets(xs[1..]);
      ApplyIndexTargets(f, xs[1..]);
      forall i | 0 <= i < |flags| ensures (i in xs <==> i == xs[0] || i in xs[1..]) {
        assert xs == [xs[0]] + xs[1..];
      }
    }
  }

  /** An index that names no option stops a multiple SELECT's update with a
      TypeError. */
  lemma {:induction false} ApplyOutOfRange(flags: seq<bool>, xs: seq<int>, j: int)
    requires 0 <= j < |xs| && !(0 <= xs[j] < |flags|)
    ensures !ApplyTargets(flags, IndexTargets(xs)).1
    decreases |xs|
  {
    assert IndexTargets(xs)[1..] == IndexTargets(xs[1..]);
    if j > 0 && 0 <= xs[0] < |flags| {
      ApplyOutOfRange(flags[xs[0] := true], xs[1..], j - 1);
    }
  }

  /** Setting a multiple SELECT to in-range indices selects exactly the
      listed options, and reading it back gives those indices ascending and
      without repeats. */
  lemma MultiSelectSet(s: Snapshot, xs: seq<int>)
    requires forall i :: 0 <= i < |xs| ==> 0 <= xs[i] < |s.options|
    ensures Write(MultiSelect, s, VIndices(xs)).1
    ensures forall i :: 0 <= i < |s.options| ==>
      (Write(MultiSelect, s, VIndices(xs)).0.options[i] <==> i in xs)
    ensures Read(MultiSelect, Write(MultiSelect, s, VIndices(xs)).0).VIndices?
    ensures StrictlyIncreasing(Read(MultiSelect, Write(MultiSelect, s, VIndices(xs)).0).xs)
    ensures forall i :: i in Read(MultiSelect, Write(MultiSelect, s, VIndices(xs)).0).xs <==> i in xs
  {
    ApplyIndexTargets(AllFalse(|s.options|), xs);
    var o := Write(MultiSelect, s, VIndices(xs)).0.options;
    var r := SelectedPositions(o);
    forall i ensures i in r <==> i in xs {
      if i in xs {
        var j :| 0 <= j < |xs| && xs[j] == i;
        assert o[i];
      }
    }
  }

  /** With an index that names no option, a multiple SELECT's update throws. */
  lemma MultiSelectOutOfRange(s: Snapshot, xs: seq<int>, j: int)
    requires 0 <= j < |xs| && !(0 <= xs[j] < |s.options|)
    ensures !Write(MultiSelect, s, VIndices(xs)).1
  {
    ApplyOutOfRange(AllFalse(|s.options|), xs, j);
  }

  lemma SelectedIndexOfSelectOnly(count: nat, n: int)
    requires -1 <= n < count
    ensures SelectedIndex(SelectOnly(count, n)) == n
  {
    if n >= 0 {
      assert SelectOnly(count, n)[n];
    }
  }

  /** A single SELECT applies only the first index of the list: it reads back
      that index when it names an option, and -1 (nothing selected) when it
      does not. */
  lemma SingleSelectSet(s: Snapshot, n: int, rest: seq<int>)
    ensures Write(SingleSelect, s, VIndices([n] + rest)).1
    ensures Read(SingleSelect, Write(SingleSelect, s, VIndices([n] + rest)).0)
         == VIndices([if 0 <= n < |s.options| then n else -1])
  {
    var count := |s.options|;
    if 0 <= n < count {
      SelectedIndexOfSelectOnly(count, n);
    }
  }

  /** The transfer the widget relies on: what `get` reads from one element,
      `set` writes into another of the same kind with as many options, and
      `get` then reads the same value there. */
  lemma MirrorValue(k: Kind, s1: Snapshot, s2: Snapshot)
    requires |s1.options| == |s2.options|
    ensures Write(k, s2, Read(k, s1)).1
    ensures Read(k, Write(k, s2, Read(k, s1)).0) == Read(k, s1)
  {
    match k
    case MultiSelect =>
      var xs := SelectedPositions(s1.options);
      MultiSelectSet(s2, xs);
      var o := Write(k, s2, VIndices(xs)).0.options;
      assert o == s1.options;
    case SingleSelect =>
      SelectedIndexOfSelectOnly(|s2.options|, SelectedIndex(s1.options));
    case _ =>
  }

  /** The unit tests' single SELECT with its second option selected reads `[1]`. */
  lemma UnitTestSingleGet()
    ensures Read(SingleSelect, Snapshot(false, "", [false, true])) == VIndices([1])
  {
    assert [false, true][1..] == [true];
  }

  /** A strictly increasing list of non-negative integers holds at least i
      at position i. */
  lemma {:induction false} IncreasingFromZero(r: seq<int>, i: int)
    requires StrictlyIncreasing(r) && 0 <= i < |r| && r[0] >= 0
    ensures r[i] >= i
    decreases i
  {
    if i > 0 {
      IncreasingFromZero(r, i - 1);
      assert r[i - 1] < r[i];
    }
  }

  /** The unit tests' multiple SELECT with the first two of three options
      selected reads `[0, 1]`. */
  lemma UnitTestMultipleGet()
    ensures Read(MultiSelect, Snapshot(false, "", [true, true, false])) == VIndices([0, 1])
  {
    var o := [true, true, false];
    var r := SelectedPositions(o);
    assert o[0] && o[1] && !o[2];
    assert 0 in r && 1 in r;
    IncreasingFromZero(r, |r| - 1);
    assert |r| == 2;
  }

  /** Setting `[0, 1]` on a multiple SELECT of three options selects the
      first two. */
  lemma UnitTestMultipleSet()
    ensures Write(MultiSelect, Snapshot(false, "", [false, false, false]), VIndices([0, 1]))
         == (Snapshot(false, "", [true, true, false]), true)
  {
    ApplyIndexTargets(AllFalse(3), [0, 1]);
    var o := Write(MultiSelect, Snapshot(false, "", [false, false, false]), VIndices([0, 1])).0.options;
    assert o == [true, true, false];
  }

  /** Setting `[1]` on a single SELECT of three options selects the second. */
  lemma UnitTestSingleSet()
    ensures Write(SingleSelect, Snapshot(false, "", [false, false, false]), VIndices([1]))
         == (Snapshot(false, "", [false, true, false]), true)
  {
    assert SelectOnly(3, 1) == [false, true, false];
  }
}
