/**
 * A recipe document as an ordered tree: elements with a name, an ordered
 * list of attributes and an ordered list of children that are elements or
 * text. Names are local names; namespaces are not modelled.
 */
module Xml {
  import opened Wrappers

  datatype Attr = Attr(name: string, value: string)

  datatype Node =
    | Element(name: string, attrs: seq<Attr>, children: seq<Node>)
    | Text(text: string)

  /** `XElement.Value` of each node in turn: the text nodes below them, in
      document order. */
  function TextOfAll(nodes: seq<Node>): string
    decreases nodes
  {
    if nodes == [] then ""
    else
      var first := match nodes[0]
        case Text(t) => t
        case Element(_, _, cs) => TextOfAll(cs);
      first + TextOfAll(nodes[1..])
  }

  /** `XElement.Value`. */
  function TextOf(n: Node): string {
    TextOfAll([n])
  }

  /** `Element(name)` on a container: the position of its first child
      element with exactly that name. */
  function FirstElement(nodes: seq<Node>, name: string): (k: Option<nat>)
    ensures k.Some? ==> k.value < |nodes| && nodes[k.value].Element? && nodes[k.value].name == name
    ensures k.Some? ==> forall j :: 0 <= j < k.value ==> !(nodes[j].Element? && nodes[j].name == name)
    ensures k.None? ==> forall j :: 0 <= j < |nodes| ==> !(nodes[j].Element? && nodes[j].name == name)
  {
    if nodes == [] then None
    else if nodes[0].Element? && nodes[0].name == name then Some(0)
    else match FirstElement(nodes[1..], name)
      case None => None
      case Some(k) => Some(k + 1)
  }

  /** `Add(child)` on the element at position `k`: `child` becomes its last
      child and every other node stays as it was. */
  function AppendChildAt(nodes: seq<Node>, k: nat, child: Node): (r: seq<Node>)
    requires k < |nodes| && nodes[k].Element?
    ensures |r| == |nodes|
    ensures r[k].Element? && r[k].name == nodes[k].name && r[k].attrs == nodes[k].attrs
    ensures r[k].children == nodes[k].children + [child]
    ensures forall j :: 0 <= j < |nodes| && j != k ==> r[j] == nodes[j]
  {
    nodes[k := nodes[k].(children := nodes[k].children + [child])]
  }

  /** The root element of a recipe, to which builder steps add their own. */
  const OrchardName: string := "Orchard"

  /** The recipe document that builder steps extend in place. */
  class RecipeDocument {
    var nodes: seq<Node>

    constructor (nodes: seq<Node>)
      ensures this.nodes == nodes
    {
      this.nodes := nodes;
    }
  }
}
