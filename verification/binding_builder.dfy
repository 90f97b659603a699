/**
 * The `QueryMemberBindings` recipe step on export: one `Binding` element per
 * member binding the provider declares, with the declaring type, member,
 * display name and description as attributes. The attribute names are
 * shared with the import side.
 */
module BindingBuilder {
  import opened Wrappers
  import opened Xml

  const DescriptionName: string := "Description"
  const DisplayNameName: string := "DisplayName"
  const BindingElementName: string := "Binding"
  const MemberName: string := "Member"
  const BindingStepName: string := "QueryMemberBindings"
  const TypeName: string := "Type"

  /**
   * A binding item as the provider's builder hands it out: the full name of
   * the declaring type of the bound property (`None` when the property has
   * no declaring type), the property's name, and the display name and
   * description given to it.
   */
  datatype BindingItem = BindingItem(declaringType: Option<string>, propertyName: string,
                                     displayName: string, description: string)

  /** The `Binding` element written for an item with declaring type `typeName`. */
  function BindingElement(typeName: string, item: BindingItem): Node {
    Element(BindingElementName,
            [Attr(TypeName, typeName), Attr(MemberName, item.propertyName),
             Attr(DisplayNameName, item.displayName), Attr(DescriptionName, item.description)],
            [])
  }

  /** The elements `AddBindings` adds, in the order of the items: one per
      item that has a declaring type. */
  function BindingElements(items: seq<BindingItem>): seq<Node> {
    if items == [] then []
    else
      var n := |items| - 1;
      BindingElements(items[..n])
        + (if items[n].declaringType.Some? then [BindingElement(items[n].declaringType.value, items[n])] else [])
  }

  /** What the written elements look like: at most one per item, each a
      childless `Binding` element carrying the four attributes in order,
      and none at all exactly when no item has a declaring type. */
  lemma {:induction false} BindingElementsShape(items: seq<BindingItem>)
    ensures var r := BindingElements(items);
            && |r| <= |items|
            && (r == [] <==> forall i :: 0 <= i < |items| ==> items[i].declaringType.None?)
            && forall e :: e in r ==> && e.Element? && e.name == BindingElementName && e.children == []
                                      && |e.attrs| == 4
                                      && e.attrs[0].name == TypeName && e.attrs[1].name == MemberName
                                      && e.attrs[2].name == DisplayNameName && e.attrs[3].name == DescriptionName
  {
    if items != [] {
      var n := |items| - 1;
      BindingElementsShape(items[..n]);
      assert forall i :: 0 <= i < n ==> items[..n][i] == items[i];
    }
  }

  /** The export step; `items` is what the member binding provider declares. */
  class BindingBuilderStep {
    const items: seq<BindingItem>

    constructor (items: seq<BindingItem>)
      ensures this.items == items
    {
      this.items := items;
    }

    /** `AddBindings`: one loop over the items, adding to `root` a `Binding`
        element for each that has a declaring type. */
    method AddBindings(root: Node) returns (result: Node)
      requires root.Element?
      ensures result == root.(children := root.children + BindingElements(items))
    {
      var added: seq<Node> := [];
      var i := 0;
      while i < |items|
        invariant 0 <= i <= |items|
        invariant added == BindingElements(items[..i])
      {
        var item := items[i];
        assert items[..i + 1][..i] == items[..i];
        if item.declaringType.Some? {
          added := added + [BindingElement(item.declaringType.value, item)];
        }
        i := i + 1;
      }
      assert items[..i] == items;
      result := root.(children := root.children + added);
    }

    /**
     * `Build`: without a top-level `Orchard` element, or when no item has a
     * declaring type, the document is left alone; otherwise a
     * `QueryMemberBindings` element holding the `Binding` elements is
     * appended to the `Orchard` element.
     */
    method Build(doc: RecipeDocument)
      modifies doc
      ensures FirstElement(old(doc.nodes), OrchardName).None? ==> doc.nodes == old(doc.nodes)
      ensures BindingElements(items) == [] ==> doc.nodes == old(doc.nodes)
      ensures FirstElement(old(doc.nodes), OrchardName).Some? && BindingElements(items) != [] ==>
                doc.nodes == AppendChildAt(old(doc.nodes), FirstElement(old(doc.nodes), OrchardName).value,
                                           Element(BindingStepName, [], BindingElements(items)))
    {
      var orchard := FirstElement(doc.nodes, OrchardName);
      if orchard.Some? {
        var root := AddBindings(Element(BindingStepName, [], []));
        assert root.children == BindingElements(items);
        if root.children != [] {
          doc.nodes := AppendChildAt(doc.nodes, orchard.value, root);
        }
      }
    }
  }
}
