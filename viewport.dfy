/** getOrCreateViewport: find the `g.viewport` group of an SVG root, or wrap
    all of the root's children in a fresh one. */
module Viewport {
  import opened Js
  import opened Dom

  const ViewportClass := "viewport"

  /** ASCII whitespace, which separates the tokens of a `class` attribute. */
  predicate IsSpace(c: char)
  {
    c == ' ' || c == '\t' || c == '\n' || c == '\U{000C}' || c == '\r'
  }

  /** `t` is one of the whitespace-separated tokens of `s`. */
  predicate HasToken(s: string, t: string)
  {
    exists i :: 0 <= i <= |s| && OccursAt(s, t, i)
      && (i == 0 || IsSpace(s[i - 1]))
      && (i + |t| == |s| || IsSpace(s[i + |t|]))
  }

  /** The selector `g.viewport`: a `g` element whose class list holds `viewport`. */
  predicate IsViewport(e: Element)
    reads e
  {
    e.localName == "g" && "class" in e.attributes && HasToken(e.attributes["class"], ViewportClass)
  }

  /** The position of the first node matching `g.viewport`, or `|nodes|`. */
  function ViewportIndex(nodes: seq<Element>): (i: nat)
    reads nodes
    ensures i <= |nodes|
    ensures forall j :: 0 <= j < i ==> !IsViewport(nodes[j])
    ensures i < |nodes| ==> IsViewport(nodes[i])
  {
    if |nodes| == 0 then 0
    else if IsViewport(nodes[0]) then 0
    else 1 + ViewportIndex(nodes[1..])
  }

  /** `svg.querySelector('g.viewport')`, searching the root's children. */
  function FindViewport(nodes: seq<Element>): Option<Element>
    reads nodes
  {
    var i := ViewportIndex(nodes);
    if i < |nodes| then Some(nodes[i]) else None
  }

  /** getOrCreateViewport. When no child matches, a fresh `g.viewport` takes
      over every child in order (one `appendChild` at a time, the do-while
      reading the first child before it tests the length, hence the
      precondition) and becomes the root's only child. */
  method GetOrCreateViewport(svg: Element) returns (viewport: Element)
    requires FindViewport(svg.children).None? ==> |svg.children| > 0
    requires svg !in svg.children
    modifies svg, svg.children
    ensures old(FindViewport(svg.children)).Some? ==>
      && viewport == old(FindViewport(svg.children)).value
      && unchanged(svg)
      && forall c :: c in old(svg.children) ==> unchanged(c)
    ensures old(FindViewport(svg.children)).None? ==>
      && fresh(viewport)
      && viewport.localName == "g"
      && viewport.attributes == map["class" := ViewportClass]
      && viewport.children == old(svg.children)
      && viewport.parent == svg
      && svg.children == [viewport]
      && svg.attributes == old(svg.attributes) && svg.parent == old(svg.parent)
      && forall c :: c in old(svg.children) ==>
           c.parent == viewport && c.attributes == old(c.attributes) && c.children == old(c.children)
    ensures FindViewport(svg.children) == Some(viewport)
  {
    var found := FindViewport(svg.children);
    if found.Some? {
      viewport := found.value;
    } else {
      viewport := new Element("g", "SVGGElement");
      viewport.attributes := viewport.attributes["class" := ViewportClass];
      ghost var original := svg.children;
      assert original == old(svg.children) && viewport !in original;
      while true
        invariant viewport.children + svg.children == original
        invariant |svg.children| > 0
        invariant forall c :: c in viewport.children ==> c.parent == viewport
        invariant svg.attributes == old(svg.attributes) && svg.parent == old(svg.parent)
        invariant viewport.attributes == map["class" := ViewportClass] && viewport.parent == null
        invariant forall c :: c in original ==> c.attributes == old(c.attributes) && c.children == old(c.children)
        decreases |svg.children|
      {
        var child := svg.children[0];
        assert child == original[|viewport.children|];
        svg.children := svg.children[1..];
        viewport.children := viewport.children + [child];
        child.parent := viewport;
        if |svg.children| == 0 {
          break;
        }
      }
      svg.children := svg.children + [viewport];
      viewport.parent := svg;
      assert OccursAt(ViewportClass, ViewportClass, 0);
      assert IsViewport(viewport);
    }
  }

  /** A second call finds the group the first call returned. */
  method SecondCallReusesViewport(svg: Element) returns (first: Element, second: Element)
    requires FindViewport(svg.children).None? ==> |svg.children| > 0
    requires svg !in svg.children
    modifies svg, svg.children
    ensures first == second
    ensures FindViewport(svg.children) == Some(first)
  {
    first := GetOrCreateViewport(svg);
    second := GetOrCreateViewport(svg);
  }
}
