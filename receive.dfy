/** The receiving end of `_setEl` (lib/form.js): the identity decoded from a
    key path, with the value that came with it, names the element to update
    and the value to give it. Together with `Capture` this gives the
    widget's addressing promise: what is captured on one page is applied to
    the same element of any page laid out alike. */
module Receive {
  import opened Wrappers
  import opened Text
  import opened Dom
  import opened ElementNames
  import opened NameIndex
  import opened ElementValue
  import opened KeyPath
  import opened Capture

  /** The radio reversal: a radio group's stored value is the position of
      the checked button, which becomes the index to find; the button found
      is then checked. */
  function Resolve(id: Identity, v: Value): (r: (Identity, Value))
    ensures r.0.tagName == id.tagName && r.0.elType == id.elType && r.0.name == id.name
    ensures id.elType == "radio" ==> r.0.index == ToStr(v) && r.1 == VBool(true)
    ensures id.elType != "radio" ==> r == (id, v)
  {
    if id.elType == "radio" then (id.(index := ToStr(v)), VBool(true)) else (id, v)
  }

  /** `find` with the identity's index as the property key of
      `elementsWithName[index]`: only a canonical array index names an
      element. */
  function Locate(form: seq<Elem>, id: Identity): (r: Option<Elem>)
    ensures r.Some? <==> ArrayIndex(id.index).Some? && ArrayIndex(id.index).value < |Named(form, id.tagName, id.name)|
    ensures r.Some? ==> r.value == Named(form, id.tagName, id.name)[ArrayIndex(id.index).value]
    ensures r.Some? ==> r.value in form && r.value.tagName == id.tagName && r.value.name == id.name
  {
    match ArrayIndex(id.index)
    case None => None
    case Some(n) => Find(form, id.tagName, id.name, n)
  }

  /** What `_receive` does with a full key and its value: the element to
      update and the value to set, or why there is none. */
  datatype Delivery = Located(el: Elem, value: Value) | Undecodable | NotFound(id: Identity)

  function Deliver(form: seq<Elem>, fullKey: string, v: Value): (r: Delivery)
    ensures r.Undecodable? <==> Dekeyify(ReceivePath(fullKey)).Err?
    ensures r.Located? ==> r.el in form
    ensures Dekeyify(ReceivePath(fullKey)).Ok? ==>
      var received := Resolve(Dekeyify(ReceivePath(fullKey)).value, v);
      && (r.NotFound? <==> Locate(form, received.0).None?)
      && (r.NotFound? ==> r.id == received.0)
      && (r.Located? ==> Locate(form, received.0) == Some(r.el) && r.value == received.1)
  {
    match Dekeyify(ReceivePath(fullKey))
    case Err(_) => Undecodable
    case Ok(id) =>
      var (id2, v2) := Resolve(id, v);
      match Locate(form, id2)
      case None => NotFound(id2)
      case Some(el) => Located(el, v2)
  }

  /** Laid out alike, the element at the same position has the same
      tag/name group, all of one type. */
  lemma UniformSameLayout(d1: seq<Elem>, d2: seq<Elem>, k: int)
    requires Shapes(d1) == Shapes(d2) && 0 <= k < |d1| && UniformType(d1, d1[k])
    ensures UniformType(d2, d2[k])
  {
    forall i | 0 <= i < |d2| && d2[i].tagName == d2[k].tagName && d2[i].name == d2[k].name
      ensures d2[i].elType == d2[k].elType
    {
      assert ShapeOf(d1[i]) == Shapes(d1)[i] == Shapes(d2)[i] == ShapeOf(d2[i]);
      assert ShapeOf(d1[k]) == Shapes(d1)[k] == Shapes(d2)[k] == ShapeOf(d2[k]);
    }
  }

  /** The widget's addressing promise. An element captured on one page is
      located, on any page with the same elements in the same order, at the
      same position, whatever prefix the platform puts before the path; for
      a radio button the value received is `true`. It needs the element's
      tag/name group to share one type, no `/` in tag, type or name, and a
      name that survives escaping. */
  lemma CaptureThenLocate(d1: seq<Elem>, d2: seq<Elem>, k: int, included: Option<seq<string>>, prefix: string)
    requires Distinct(d1) && Distinct(d2) && Shapes(d1) == Shapes(d2) && 0 <= k < |d1|
    requires UniformType(d1, d1[k]) && SlashFree(d1[k]) && Unescape(Escape(d1[k].name)) == d1[k].name
    requires Decide(d1, d1[k], included).Store?
    ensures Deliver(d2, prefix + "/" + Decide(d1, d1[k], included).path, Decide(d1, d1[k], included).value)
         == Located(d2[k], if IsRadio(d1[k]) then VBool(true) else ElementValue.Get(d1[k]))
  {
    var e1, e2 := d1[k], d2[k];
    var d := Decide(d1, e1, included);
    assert ShapeOf(e1) == Shapes(d1)[k] == Shapes(d2)[k] == ShapeOf(e2);
    StoredPathDecodes(d1, e1, included, prefix);
    var id := CapturedIdentity(d1, e1).(name := e1.name);
    assert Dekeyify(ReceivePath(prefix + "/" + d.path)) == Ok(id);
    GetSameLayout(d1, d2, k);
    UniformSameLayout(d1, d2, k);
    var g := NameIndex.Get(d1, e1);
    assert g >= 0;
    ArrayIndexOfInt(g);
    FindGet(d2, e2);
    ResolvedIndex(d1, e1);
    var r := Resolve(id, d.value);
    assert r.0 == Identity(e2.tagName, e1.elType, e2.name, IntToString(g));
    assert Locate(d2, r.0) == Find(d2, e2.tagName, e2.name, g);
  }

  /** For a captured identity with its name unescaped, the radio reversal
      turns a radio button's stored position back into the index that `get`
      gave it; any other element keeps its `get` index. */
  lemma ResolvedIndex(form: seq<Elem>, el: Elem)
    ensures Resolve(CapturedIdentity(form, el).(name := el.name), CapturedValue(form, el)).0
         == Identity(el.tagName, el.elType, el.name, IntToString(NameIndex.Get(form, el)))
  {
  }

  /** The value a captured element hands over reads back the same on an
      element of the same kind with as many options. */
  lemma CapturedValueMirrors(form: seq<Elem>, el: Elem, other: Elem, included: Option<seq<string>>)
    requires Decide(form, el, included).Store? && !IsRadio(el)
    requires KindOfElem(el) == KindOfElem(other) && el.options.Length == other.options.Length
    ensures Write(KindOfElem(other), SnapshotOf(other), Decide(form, el, included).value).1
    ensures Read(KindOfElem(other), Write(KindOfElem(other), SnapshotOf(other), Decide(form, el, included).value).0)
         == ElementValue.Get(el)
  {
    MirrorValue(KindOfElem(el), SnapshotOf(el), SnapshotOf(other));
  }

  /** The value a captured element hands over, as the receiving page
      sets it. */
  function Handed(el: Elem): Value
    reads el, el.options
  {
    if IsRadio(el) then VBool(true) else ElementValue.Get(el)
  }

  /** Capture on one page and receipt on a page laid out alike: the element
      at the same position is located, and setting what it receives makes it
      read back the captured value. */
  lemma CaptureThenSet(d1: seq<Elem>, d2: seq<Elem>, k: int, included: Option<seq<string>>, prefix: string)
    requires Distinct(d1) && Distinct(d2) && Shapes(d1) == Shapes(d2) && 0 <= k < |d1|
    requires UniformType(d1, d1[k]) && SlashFree(d1[k]) && Unescape(Escape(d1[k].name)) == d1[k].name
    requires Decide(d1, d1[k], included).Store?
    requires KindOfElem(d1[k]) == KindOfElem(d2[k]) && d1[k].options.Length == d2[k].options.Length
    ensures Deliver(d2, prefix + "/" + Decide(d1, d1[k], included).path, Decide(d1, d1[k], included).value)
         == Located(d2[k], Handed(d1[k]))
    ensures !IsRadio(d1[k]) ==> Write(KindOfElem(d2[k]), SnapshotOf(d2[k]), Handed(d1[k])).1
    ensures !IsRadio(d1[k]) ==>
      Read(KindOfElem(d2[k]), Write(KindOfElem(d2[k]), SnapshotOf(d2[k]), Handed(d1[k])).0) == ElementValue.Get(d1[k])
  {
    CaptureThenLocate(d1, d2, k, included, prefix);
    if !IsRadio(d1[k]) {
      MirrorValue(KindOfElem(d1[k]), SnapshotOf(d1[k]), SnapshotOf(d2[k]));
    }
  }

  /** A radio group's stored position i selects the i-th button of that name. */
  lemma RadioReceive(form: seq<Elem>, name: string, i: nat)
    ensures Resolve(Identity(INPUT, "radio", name, "0"), VInt(i)).1 == VBool(true)
    ensures Locate(form, Resolve(Identity(INPUT, "radio", name, "0"), VInt(i)).0) == Find(form, INPUT, name, i)
  {
    ArrayIndexOfInt(i);
  }

  /** A key path without a fourth segment leaves the index `undefined`, a
      property key that names no element. */
  lemma UndefinedIndexNotFound(form: seq<Elem>, tagName: string, elType: string, name: string)
    ensures Locate(form, Identity(tagName, elType, name, "undefined")) == None
  {
    assert !IsDigit('u');
  }

  /** The unit test's nested key: the last four segments of
      `nested/INPUT/text/something/1` address the second text input named
      `something`, whatever comes before them. */
  lemma NestedKeyDelivery(form: seq<Elem>, prefix: string, v: Value)
    requires |Named(form, INPUT, "something")| >= 2
    ensures Deliver(form, prefix + "/" + Keyify(Identity(INPUT, "text", "something", "1")), v)
         == Located(Named(form, INPUT, "something")[1], v)
  {
    NestedKeyExample(prefix);
    KeyOneIndex();
    DeliverDecoded(form, prefix + "/" + Keyify(Identity(INPUT, "text", "something", "1")),
                   Identity(INPUT, "text", "something", "1"), v);
  }

  lemma KeyOneIndex()
    ensures ArrayIndex("1") == Some(1)
  {
    ArrayIndexOfNat(1);
    assert NatToString(1) == "1";
  }

  /** A key that decodes to a non-radio identity delivers the value, as
      received, to the element that identity locates. */
  lemma DeliverDecoded(form: seq<Elem>, fullKey: string, id: Identity, v: Value)
    requires Dekeyify(ReceivePath(fullKey)) == Ok(id) && id.elType != "radio"
    requires ArrayIndex(id.index).Some? && ArrayIndex(id.index).value < |Named(form, id.tagName, id.name)|
    ensures Deliver(form, fullKey, v) == Located(Named(form, id.tagName, id.name)[ArrayIndex(id.index).value], v)
  {
  }
}
