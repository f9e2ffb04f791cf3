/**
 * The part of LINQ to XML the reply decoder navigates: namespaced element
 * names, elements with their text value and child elements, and
 * `XContainer.Element(name)`, which finds the first child of a given name.
 */
module Xml {
  import opened Wrappers

  /** `XName`: a namespace URI and a local name. */
  datatype XName = XName(namespace: string, localName: string)

  /** `XElement`: its name, its `Value` text and its child elements. */
  datatype XElement = XElement(name: XName, value: string, children: seq<XElement>)

  /** `XDocument` after a successful `Load`: it always has a root element. */
  datatype XDocument = XDocument(root: XElement)

  /** The first element of `cs` named `name`, or `None` when there is none. */
  function FirstNamed(cs: seq<XElement>, name: XName): (r: Option<XElement>)
    ensures r.None? <==> forall k :: 0 <= k < |cs| ==> cs[k].name != name
    ensures r.Some? ==>
      exists k :: 0 <= k < |cs| && cs[k] == r.value && r.value.name == name &&
        forall j :: 0 <= j < k ==> cs[j].name != name
  {
    if cs == [] then None
    else if cs[0].name == name then Some(cs[0])
    else
      var r := FirstNamed(cs[1..], name);
      FirstNamedTail(cs, name, r);
      r
  }

  /** A first match in the tail of `cs` is a first match in `cs` when `cs[0]` does not match. */
  lemma FirstNamedTail(cs: seq<XElement>, name: XName, r: Option<XElement>)
    requires cs != [] && cs[0].name != name
    requires r.Some? ==>
      exists k :: 0 <= k < |cs[1..]| && cs[1..][k] == r.value && r.value.name == name &&
        forall j :: 0 <= j < k ==> cs[1..][j].name != name
    ensures r.Some? ==>
      exists k :: 0 <= k < |cs| && cs[k] == r.value && r.value.name == name &&
        forall j :: 0 <= j < k ==> cs[j].name != name
  {
    if r.Some? {
      var k :| 0 <= k < |cs[1..]| && cs[1..][k] == r.value && r.value.name == name &&
        forall j :: 0 <= j < k ==> cs[1..][j].name != name;
      forall j | 0 <= j < k + 1 ensures cs[j].name != name {
        if j > 0 { assert cs[j] == cs[1..][j - 1]; }
      }
      assert cs[k + 1] == r.value;
    }
  }

  /** `e.Element(name)`: the first child of `e` named `name`, or null. */
  function Element(e: XElement, name: XName): (r: Option<XElement>)
    ensures r.Some? ==> r.value in e.children && r.value.name == name
    ensures r.None? <==> forall c :: c in e.children ==> c.name != name
  {
    FirstNamed(e.children, name)
  }
}
