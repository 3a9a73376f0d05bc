/**
 * The removeXMLNS pass (plugins/removeXMLNS.js): drops the `xmlns`
 * attribute of `svg` elements, for markup that is inlined into HTML.
 */
module RemoveXmlns {
  import opened Dom

  /** The attributes the pass leaves on an element named `elem`. */
  function Stripped(elem: string, attrs: map<string, Attribute>): (r: map<string, Attribute>)
    ensures elem == "svg" ==> "xmlns" !in r
    ensures elem != "svg" ==> r == attrs
    ensures forall n :: n != "xmlns" ==> (n in r <==> n in attrs)
    ensures forall n :: n in r ==> n in attrs && r[n] == attrs[n]
  {
    if elem == "svg" && AttrsHave(attrs, AttrNamed("xmlns")) then attrs - {"xmlns"} else attrs
  }

  /** Running the pass a second time changes nothing. */
  lemma StrippedIdempotent(elem: string, attrs: map<string, Attribute>)
    ensures Stripped(elem, Stripped(elem, attrs)) == Stripped(elem, attrs)
  {
  }

  /** The per-item function of the pass; it never filters the item out. */
  method Fn(item: Element)
    modifies item
    ensures item.attrs == Stripped(item.elem, old(item.attrs))
    ensures item.content == old(item.content) && item.classes == old(item.classes)
    ensures item.style == old(item.style) && item.parentNode == old(item.parentNode) && item.text == old(item.text)
  {
    if item.IsElem(Named("svg")) && item.HasAttr(AttrNamed("xmlns")) {
      var _ := item.RemoveAttr(AttrNamed("xmlns"));
    }
  }
}
