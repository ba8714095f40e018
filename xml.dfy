/** The already-parsed XML tree the parser consumes: an element has a name,
    its attributes in document order and its child elements in document order.
    Text content and namespaces play no part in the format. */
module Xml {
  import opened Wrappers

  datatype Attr = Attr(name: string, value: string)

  datatype Element = Element(name: string, attributes: seq<Attr>, children: seq<Element>)

  /** The value of the attribute called `name`, or None when the element has
      no such attribute (a dom4j `attribute(name)` that returns null). */
  function AttributeValue(e: Element, name: string): (r: Option<string>)
    ensures r.None? <==> forall i :: 0 <= i < |e.attributes| ==> e.attributes[i].name != name
    ensures r.Some? ==> exists i :: 0 <= i < |e.attributes| && e.attributes[i] == Attr(name, r.value)
    decreases |e.attributes|
  {
    if e.attributes == [] then None
    else if e.attributes[0].name == name then Some(e.attributes[0].value)
    else
      var r := AttributeValue(Element(e.name, e.attributes[1..], e.children), name);
      assert forall i :: 1 <= i < |e.attributes| ==> e.attributes[i] == e.attributes[1..][i - 1];
      r
  }

  /** The elements among `es` called `name`, in document order. */
  function Named(es: seq<Element>, name: string): (r: seq<Element>)
    ensures |r| <= |es|
    ensures forall i :: 0 <= i < |r| ==> r[i].name == name
    decreases |es|
  {
    if es == [] then []
    else if es[|es| - 1].name == name then Named(es[..|es| - 1], name) + [es[|es| - 1]]
    else Named(es[..|es| - 1], name)
  }

  /** The relative path `outer/inner` below the children `cs`: the children
      called `inner` of the elements of `cs` called `outer`, in document order. */
  function Select(cs: seq<Element>, outer: string, inner: string): (r: seq<Element>)
    ensures forall i :: 0 <= i < |r| ==> r[i].name == inner
    decreases |cs|
  {
    if cs == [] then []
    else
      var c := cs[|cs| - 1];
      if c.name == outer then Select(cs[..|cs| - 1], outer, inner) + Named(c.children, inner)
      else Select(cs[..|cs| - 1], outer, inner)
  }
}
