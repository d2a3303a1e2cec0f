/** Addressing an element by its position among the elements that share its
    tag, type and name, and resolving such an address back to an element
    (lib/name_index.js). A form is the sequence of its elements in document
    order; both operations are functions, so neither changes the form. */
module NameIndex {
  import opened Wrappers
  import opened Dom

  /** `getElementsByTagName` followed by the filters on type and on name that
      `get` applies: the elements of the given shape, in document order. */
  function WithShape(form: seq<Elem>, s: Shape): (r: seq<Elem>)
    ensures forall i :: 0 <= i < |r| ==> r[i] in form && ShapeOf(r[i]) == s
    ensures forall i :: 0 <= i < |form| && ShapeOf(form[i]) == s ==> form[i] in r
    decreases |form|
  {
    if form == [] then []
    else (if ShapeOf(form[0]) == s then [form[0]] else []) + WithShape(form[1..], s)
  }

  /** `getElementsByTagName` followed by the one filter on name that `find`
      applies; the type is not looked at. */
  function Named(form: seq<Elem>, tagName: string, name: string): (r: seq<Elem>)
    ensures forall i :: 0 <= i < |r| ==> r[i] in form && r[i].tagName == tagName && r[i].name == name
    ensures forall i :: 0 <= i < |form| && form[i].tagName == tagName && form[i].name == name ==> form[i] in r
    decreases |form|
  {
    if form == [] then []
    else (if form[0].tagName == tagName && form[0].name == name then [form[0]] else [])
         + Named(form[1..], tagName, name)
  }

  /** `_.indexOf`: the position of the first occurrence of e, or -1. */
  function IndexOf(xs: seq<Elem>, e: Elem): (r: int)
    ensures -1 <= r < |xs|
    ensures r == -1 <==> e !in xs
    ensures r >= 0 ==> xs[r] == e && e !in xs[..r]
    decreases |xs|
  {
    if xs == [] then -1
    else if xs[0] == e then 0
    else
      var i := IndexOf(xs[1..], e);
      if i == -1 then -1
      else
        assert xs[1..][..i] == xs[1..i + 1];
        i + 1
  }

  /** `get(form, el)`: el's position among the elements with its tag, type and
      name, or -1 when el is not in the form. */
  function Get(form: seq<Elem>, el: Elem): (r: int)
    ensures -1 <= r < |WithShape(form, ShapeOf(el))|
    ensures r == -1 <==> el !in form
    ensures r >= 0 ==> WithShape(form, ShapeOf(el))[r] == el
  {
    IndexOf(WithShape(form, ShapeOf(el)), el)
  }

  /** `find(form, tagName, name, index)`: the index-th element with that tag
      and name, whatever its type; nothing when the index is out of range. */
  function Find(form: seq<Elem>, tagName: string, name: string, index: int): (r: Option<Elem>)
    ensures r.Some? <==> 0 <= index < |Named(form, tagName, name)|
    ensures r.Some? ==> r.value in form && r.value.tagName == tagName && r.value.name == name
    ensures r.Some? ==> r.value == Named(form, tagName, name)[index]
  {
    var named := Named(form, tagName, name);
    if 0 <= index < |named| then Some(named[index]) else None
  }

  lemma {:induction false} WithShapeConcat(a: seq<Elem>, b: seq<Elem>, s: Shape)
    ensures WithShape(a + b, s) == WithShape(a, s) + WithShape(b, s)
    decreases |a|
  {
    if a == [] {
      assert a + b == b;
    } else {
      assert (a + b)[1..] == a[1..] + b;
      WithShapeConcat(a[1..], b, s);
    }
  }

  lemma {:induction false} IndexOfConcat(a: seq<Elem>, e: Elem, b: seq<Elem>)
    requires e !in a
    ensures IndexOf(a + [e] + b, e) == |a|
    decreases |a|
  {
    if a == [] {
      assert a + [e] + b == [e] + b;
    } else {
      assert (a + [e] + b)[1..] == a[1..] + [e] + b;
      IndexOfConcat(a[1..], e, b);
    }
  }

  /** In a form that holds each node once, `get` is the number of elements of
      the same shape that come before el in document order. */
  lemma GetCountsPredecessors(form: seq<Elem>, k: int)
    requires Distinct(form) && 0 <= k < |form|
    ensures Get(form, form[k]) == |WithShape(form[..k], ShapeOf(form[k]))|
  {
    var e, s := form[k], ShapeOf(form[k]);
    assert form == form[..k] + [e] + form[k + 1..];
    WithShapeConcat(form[..k] + [e], form[k + 1..], s);
    WithShapeConcat(form[..k], [e], s);
    assert WithShape([e], s) == [e];
    assert e !in WithShape(form[..k], s);
    IndexOfConcat(WithShape(form[..k], s), e, WithShape(form[k + 1..], s));
  }

  /** How many elements a shape filter keeps depends only on the shapes. */
  lemma {:induction false} WithShapeSameLayout(a: seq<Elem>, b: seq<Elem>, s: Shape)
    requires Shapes(a) == Shapes(b)
    ensures |WithShape(a, s)| == |WithShape(b, s)|
    decreases |a|
  {
    if a != [] {
      assert ShapeOf(a[0]) == Shapes(a)[0] == Shapes(b)[0] == ShapeOf(b[0]);
      assert Shapes(a[1..]) == Shapes(a)[1..];
      assert Shapes(b[1..]) == Shapes(b)[1..];
      WithShapeSameLayout(a[1..], b[1..], s);
    }
  }

  /** Two forms laid out alike give the elements at the same position the
      same `get` result. */
  lemma GetSameLayout(d1: seq<Elem>, d2: seq<Elem>, k: int)
    requires Distinct(d1) && Distinct(d2) && Shapes(d1) == Shapes(d2) && 0 <= k < |d1|
    ensures Get(d1, d1[k]) == Get(d2, d2[k])
  {
    assert ShapeOf(d1[k]) == Shapes(d1)[k] == ShapeOf(d2[k]);
    assert Shapes(d1[..k]) == Shapes(d1)[..k];
    assert Shapes(d2[..k]) == Shapes(d2)[..k];
    WithShapeSameLayout(d1[..k], d2[..k], ShapeOf(d1[k]));
    GetCountsPredecessors(d1, k);
    GetCountsPredecessors(d2, k);
  }

  /** Every element with el's tag and name also has el's type. */
  predicate UniformType(form: seq<Elem>, el: Elem) {
    forall i :: 0 <= i < |form| && form[i].tagName == el.tagName && form[i].name == el.name ==>
      form[i].elType == el.elType
  }

  lemma {:induction false} NamedIsWithShape(form: seq<Elem>, el: Elem)
    requires UniformType(form, el)
    ensures Named(form, el.tagName, el.name) == WithShape(form, ShapeOf(el))
    decreases |form|
  {
    if form != [] {
      assert UniformType(form[1..], el) by {
        forall i | 0 <= i < |form[1..]| ensures form[1..][i] == form[i + 1] { }
      }
      NamedIsWithShape(form[1..], el);
    }
  }

  /** The addressing promise: when the elements sharing el's tag and name all
      share its type, `find` with el's tag, name and `get` index returns el. */
  lemma FindGet(form: seq<Elem>, el: Elem)
    requires el in form && UniformType(form, el)
    ensures Find(form, el.tagName, el.name, Get(form, el)) == Some(el)
  {
    NamedIsWithShape(form, el);
  }

  /** `find` ignores the type: a text input and a checkbox named alike are
      both counted by it, so the checkbox's `get` index 0 finds the text
      input that comes first. */
  lemma FindIgnoresType(text: Elem, box: Elem)
    requires text != box
    requires text.tagName == INPUT && text.elType == "text" && text.name == "a"
    requires box.tagName == INPUT && box.elType == "checkbox" && box.name == "a"
    ensures Get([text, box], box) == 0
    ensures Find([text, box], box.tagName, box.name, Get([text, box], box)) == Some(text)
  {
    var form := [text, box];
    assert form[1..] == [box] && [box][1..] == [];
    assert ShapeOf(text) != ShapeOf(box);
    assert WithShape([box], ShapeOf(box)) == [box] + WithShape([], ShapeOf(box));
    assert WithShape(form, ShapeOf(box)) == [] + WithShape([box], ShapeOf(box));
    assert Named([box], INPUT, "a") == [box] + Named([], INPUT, "a");
    assert Named(form, INPUT, "a") == [text] + Named([box], INPUT, "a");
  }

  /** The form of the unit tests: inputs `first`, `second` (another name),
      a textarea with the shared name, and `third`. */
  lemma UnitTestForm(first: Elem, second: Elem, otherTag: Elem, third: Elem)
    requires Distinct([first, second, otherTag, third])
    requires first.tagName == INPUT && first.elType == "text" && first.name == "a"
    requires second.tagName == INPUT && second.elType == "text" && second.name == "b"
    requires otherTag.tagName == TEXTAREA && otherTag.elType == "textarea" && otherTag.name == "a"
    requires third.tagName == INPUT && third.elType == "text" && third.name == "a"
    ensures Get([first, second, otherTag, third], third) == 1
    ensures Find([first, second, otherTag, third], INPUT, "a", 1) == Some(third)
    ensures Find([first, second, otherTag, third], INPUT, "a", 0) == Some(first)
    ensures Find([first, second, otherTag, third], INPUT, "a", 2) == None
    ensures otherTag !in Named([first, second, otherTag, third], INPUT, "a")
  {
    var form := [first, second, otherTag, third];
    GetCountsPredecessors(form, 3);
    assert form[..3] == [first, second, otherTag];
    assert [first, second, otherTag] == [first] + [second, otherTag];
    assert [second, otherTag] == [second] + [otherTag];
    WithShapeConcat([first], [second, otherTag], ShapeOf(third));
    WithShapeConcat([second], [otherTag], ShapeOf(third));
    assert WithShape([first], ShapeOf(third)) == [first];
    assert WithShape([second], ShapeOf(third)) == [];
    assert WithShape([otherTag], ShapeOf(third)) == [];
    var s3 := [otherTag, third];
    assert form[1..] == [second] + s3 && ([second] + s3)[1..] == s3;
    assert s3[1..] == [third] && [third][1..] == [];
    assert Named([third], INPUT, "a") == [third] + Named([], INPUT, "a");
    assert Named(s3, INPUT, "a") == [] + Named([third], INPUT, "a");
    assert Named([second] + s3, INPUT, "a") == [] + Named(s3, INPUT, "a");
    assert Named(form, INPUT, "a") == [first] + Named([second] + s3, INPUT, "a");
  }
}
