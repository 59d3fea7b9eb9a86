/** The slice of the host DOM the utilities touch: elements with an
    attribute map, an ordered child list and a parent link, and the
    six-coefficient matrix of SVG transforms. */
module Dom {
  import opened Js

  /** An SVGMatrix `[[a, c, e], [b, d, f], [0, 0, 1]]`. */
  datatype Matrix = Matrix(a: Number, b: Number, c: Number, d: Number, e: Number, f: Number)

  /** A DOM node. `localName` is the tag (`svg`, `g`, ...), `interfaceName`
      the name of its DOM interface (`SVGSVGElement`, `SVGGElement`, ...). */
  class Element {
    const localName: string
    const interfaceName: string
    var attributes: map<string, string>
    var children: seq<Element>
    var parent: Element?

    /** `document.createElementNS(..., localName)`: a detached element with
        no attributes and no children. */
    constructor (localName: string, interfaceName: string)
      ensures this.localName == localName && this.interfaceName == interfaceName
      ensures attributes == map[] && children == [] && parent == null
    {
      this.localName := localName;
      this.interfaceName := interfaceName;
      attributes := map[];
      children := [];
      parent := null;
    }
  }

  /** What `String(e)` yields for a host element: Object.prototype.toString
      prints the interface name, so it is the same for every element of one
      interface. A plain object indexed by an element uses this as the key. */
  function ToKey(e: Element): string
  {
    "[object " + e.interfaceName + "]"
  }

  /** Two elements share a key exactly when they share an interface,
      whether or not they are the same element. */
  lemma ToKeyCollision(x: Element, y: Element)
    ensures ToKey(x) == ToKey(y) <==> x.interfaceName == y.interfaceName
  {
    if ToKey(x) == ToKey(y) {
      var k := ToKey(x);
      assert x.interfaceName == k[8..|k| - 1];
      assert y.interfaceName == ToKey(y)[8..|ToKey(y)| - 1];
    }
  }
}
