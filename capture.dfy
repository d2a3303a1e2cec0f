/** `_capture` (lib/form.js): what the widget does when a user changes an
    element. It either ignores the change, rejects it with an error, or stores
    the element's value under the element's key path. */
module Capture {
  import opened Wrappers
  import opened Text
  import opened Dom
  import opened ElementNames
  import NameIndex
  import ElementValue
  import opened KeyPath

  /** Input types whose changes are never synchronised. */
  const NO_CAPTURE_TYPES: seq<string> := ["button", "submit", "image", "reset", "file"]

  /** The longest escaped name the widget stores. */
  const MAX_NAME_LENGTH: nat := 128

  datatype CaptureError = NoName(tagName: string) | NameTooLong(tagName: string, name: string)

  /** What `_capture` does: nothing, emit an error, or `key.set` the value
      under the key path. */
  datatype Decision = Skip | Reject(error: CaptureError) | Store(path: string, value: ElementValue.Value)

  /** Changes the widget ignores whatever the name: inputs of a type that is
      never synchronised, and a radio button that is not checked. */
  predicate Ignored(el: Elem)
    reads el
  {
    (el.tagName == INPUT && el.elType in NO_CAPTURE_TYPES) || (el.elType == "radio" && !el.checked)
  }

  /** The element's name is not in the `include` list (when there is one). */
  predicate Excluded(name: string, included: Option<seq<string>>) {
    included.Some? && name !in included.value
  }

  predicate IsRadio(el: Elem) {
    el.elType == "radio"
  }

  /** The identity the element is stored under: every radio button of a group
      shares the identity with index 0. */
  function CapturedIdentity(form: seq<Elem>, el: Elem): Identity {
    Identity(el.tagName, el.elType, Escape(el.name),
             IntToString(if IsRadio(el) then 0 else NameIndex.Get(form, el)))
  }

  /** The value stored: for a radio button the position of the checked one
      in its group, for everything else what the accessor reads. */
  function CapturedValue(form: seq<Elem>, el: Elem): ElementValue.Value
    reads el, el.options
  {
    if IsRadio(el) then ElementValue.VInt(NameIndex.Get(form, el)) else ElementValue.Get(el)
  }

  /** `_capture`'s checks, in the source's order. */
  function Decide(form: seq<Elem>, el: Elem, included: Option<seq<string>>): (r: Decision)
    reads el, el.options
    ensures r.Store? <==>
      !Ignored(el) && !Excluded(el.name, included) && el.name != "" && |Escape(el.name)| <= MAX_NAME_LENGTH
    ensures r == Skip <==> Ignored(el) || Excluded(el.name, included)
    ensures !Ignored(el) && !Excluded(el.name, included) && el.name != "" && |Escape(el.name)| > MAX_NAME_LENGTH ==>
      r == Reject(NameTooLong(el.tagName, el.name))
    ensures r.Reject? ==> (r.error == NoName(el.tagName) <==> el.name == "")
    ensures r.Reject? && r.error.NameTooLong? ==> |Escape(el.name)| > MAX_NAME_LENGTH
    ensures r.Store? ==> r.path == Keyify(CapturedIdentity(form, el)) && r.value == CapturedValue(form, el)
  {
    if Ignored(el) || Excluded(el.name, included) then Skip
    else if el.name == "" then Reject(NoName(el.tagName))
    else if |Escape(el.name)| > MAX_NAME_LENGTH then Reject(NameTooLong(el.tagName, el.name))
    else Store(Keyify(CapturedIdentity(form, el)), CapturedValue(form, el))
  }

  /** Neither tag, type nor name holds the path separator. */
  predicate SlashFree(el: Elem) {
    '/' !in el.tagName && '/' !in el.elType && '/' !in el.name
  }

  lemma EscapeSlashFree(s: string)
    requires '/' !in s
    ensures '/' !in Escape(s)
  {
    EscapeAddsOnly(s, '/');
  }

  /** A stored element's key path, under whatever prefix the platform gives
      it, decodes at the receiving end to the element's tag, type, name and
      index, as long as the name survives escaping. */
  lemma StoredPathDecodes(form: seq<Elem>, el: Elem, included: Option<seq<string>>, prefix: string)
    requires Decide(form, el, included).Store?
    requires SlashFree(el) && Unescape(Escape(el.name)) == el.name
    ensures Dekeyify(ReceivePath(prefix + "/" + Decide(form, el, included).path))
         == Ok(CapturedIdentity(form, el).(name := el.name))
  {
    var id := CapturedIdentity(form, el);
    EscapeSlashFree(el.name);
    assert '/' !in id.index by {
      var i := if IsRadio(el) then 0 else NameIndex.Get(form, el);
      IntToStringSlashFree(i);
    }
    ReceivePathPrefixed(prefix, id);
    DekeyifyKeyify(id);
  }

  lemma IntToStringSlashFree(i: int)
    ensures '/' !in IntToString(i)
  {
    if i >= 0 {
      NatToStringDigits(i);
    } else {
      NatToStringDigits(-i);
      assert IntToString(i) == "-" + NatToString(-i);
    }
  }

  lemma {:induction false} NatToStringDigits(n: nat)
    ensures forall c :: c in NatToString(n) ==> IsDigit(c)
    decreases n
  {
    if n >= 10 {
      NatToStringDigits(n / 10);
    }
  }

  /** The path of a name without brackets is the four parts joined: the
      unit test's first text input named `myname` is stored under
      `INPUT/text/myname/0`. */
  lemma TextInputPath(form: seq<Elem>, el: Elem, included: Option<seq<string>>)
    requires el.tagName == INPUT && el.elType == "text" && el.name != ""
    requires LEFT_BRACKET !in el.name && RIGHT_BRACKET !in el.name && |el.name| <= MAX_NAME_LENGTH
    requires NameIndex.Get(form, el) == 0 && !Excluded(el.name, included)
    ensures Decide(form, el, included) == Store("INPUT/text/" + el.name + "/0", ElementValue.Get(el))
  {
    assert !IsRadio(el);
    assert !Ignored(el) by {
      assert el.elType !in NO_CAPTURE_TYPES;
    }
    EscapePlain(el.name);
    assert CapturedIdentity(form, el) == Identity(INPUT, "text", el.name, "0") by {
      assert IntToString(0) == "0";
    }
    PathOf(INPUT, "text", el.name, "0");
    LiteralPath(INPUT + "/" + "text" + "/", "INPUT/text/", el.name);
  }

  /** Checking the second radio button of a group stores 1 under the
      group's shared path, whichever button it was. */
  lemma RadioStoresPosition(form: seq<Elem>, el: Elem, included: Option<seq<string>>)
    requires el.tagName == INPUT && el.elType == "radio" && el.checked && el.name != ""
    requires LEFT_BRACKET !in el.name && RIGHT_BRACKET !in el.name && |el.name| <= MAX_NAME_LENGTH
    requires NameIndex.Get(form, el) == 1 && !Excluded(el.name, included)
    ensures Decide(form, el, included) == Store("INPUT/radio/" + el.name + "/0", ElementValue.VInt(1))
  {
    assert IsRadio(el) && !Ignored(el);
    EscapePlain(el.name);
    assert CapturedIdentity(form, el) == Identity(INPUT, "radio", el.name, "0") by {
      assert IntToString(0) == "0";
    }
    assert CapturedValue(form, el) == ElementValue.VInt(1);
    PathOf(INPUT, "radio", el.name, "0");
    LiteralPath(INPUT + "/" + "radio" + "/", "INPUT/radio/", el.name);
  }

  lemma LiteralPath(front: string, literal: string, name: string)
    requires front == literal
    ensures front + name + "/" + "0" == literal + name + "/0"
  {
    AppendAssoc(front + name, "/", "0");
  }

  lemma PathOf(tagName: string, elType: string, name: string, index: string)
    ensures Keyify(Identity(tagName, elType, name, index)) == tagName + "/" + elType + "/" + name + "/" + index
  {
    var x := [tagName, elType, name, index];
    assert Join(x[3..], '/') == index;
    assert Join(x[2..], '/') == name + "/" + index;
    assert Join(x[1..], '/') == elType + "/" + name + "/" + index;
  }

  /** Nothing is stored for a change that is ignored, even when the element
      has no name; an element outside the `include` list is skipped before
      its missing name would be reported. */
  lemma SkipComesFirst(form: seq<Elem>, el: Elem, included: Option<seq<string>>)
    requires el.name == "" && !Ignored(el)
    ensures Decide(form, el, included) == if Excluded("", included) then Skip else Reject(NoName(el.tagName))
  {
  }
}
