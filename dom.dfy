/** The part of the browser's DOM the widget touches: form elements with a
    tag, a type, a name and the state a user can change. */
module Dom {

  const INPUT: string := "INPUT"
  const SELECT: string := "SELECT"
  const TEXTAREA: string := "TEXTAREA"
  const FORM: string := "FORM"

  /** A form control. The identifying properties never change while the widget
      runs; what a user or a remote update changes is `checked`, `value` and
      the `selected` flag of each option. */
  class Elem {
    /** Upper-case tag name, as the DOM reports it for HTML elements. */
    const tagName: string
    /** The reflected `type` property. */
    const elType: string
    /** `getAttribute('type')`, with an absent attribute read as "". */
    const typeAttr: string
    const name: string
    const multiple: bool
    /** The `selected` flag of each `<option>` of a SELECT (empty otherwise). */
    const options: array<bool>
    var checked: bool
    var value: string

    constructor(tagName: string, elType: string, typeAttr: string, name: string,
                multiple: bool, selected: seq<bool>, checked: bool, value: string)
      ensures this.tagName == tagName && this.elType == elType && this.typeAttr == typeAttr
      ensures this.name == name && this.multiple == multiple
      ensures this.options[..] == selected && fresh(this.options)
      ensures this.checked == checked && this.value == value
    {
      this.tagName := tagName;
      this.elType := elType;
      this.typeAttr := typeAttr;
      this.name := name;
      this.multiple := multiple;
      this.options := new bool[|selected|](i requires 0 <= i < |selected| => selected[i]);
      this.checked := checked;
      this.value := value;
    }
  }

  /** A form's elements in document order hold each node once. */
  predicate Distinct(form: seq<Elem>) {
    forall i, j :: 0 <= i < j < |form| ==> form[i] != form[j]
  }

  /** Everything that a value update on the form's elements may change. */
  ghost function Footprint(form: seq<Elem>): set<object> {
    (set e | e in form :: e as object) + (set e | e in form :: e.options as object)
  }

  /** The identifying properties of an element, which are all that the
      addressing of elements looks at. */
  datatype Shape = Shape(tagName: string, elType: string, name: string)

  function ShapeOf(e: Elem): Shape {
    Shape(e.tagName, e.elType, e.name)
  }

  function Shapes(form: seq<Elem>): (r: seq<Shape>)
    ensures |r| == |form|
    ensures forall i :: 0 <= i < |form| ==> r[i] == ShapeOf(form[i])
  {
    seq(|form|, i requires 0 <= i < |form| => ShapeOf(form[i]))
  }
}
