/** getSvgDimensions: the width and height of an SVG root, taken from the
    first of four sources whose probe parses to a truthy number. */
module Dimensions {
  import opened Js

  /** Everything getSvgDimensions reads from the element. `clipWidth` and
      `clipHeight` are `svg.clip.width` and `svg.clip.height`; the two
      attributes are what `getAttribute` returns (`None` for null). */
  datatype SizeSources = SizeSources(
    clip: JsValue,
    clipWidth: JsValue,
    clipHeight: JsValue,
    pixelWidth: JsValue,
    styleWidth: JsValue,
    styleHeight: JsValue,
    widthAttribute: Option<string>,
    heightAttribute: Option<string>,
    boundingWidth: JsValue,
    boundingHeight: JsValue)

  datatype Size = Size(width: Number, height: Number)

  /** `getAttribute` yields a string or null. */
  function AttributeValue(a: Option<string>): JsValue
  {
    match a
    case Some(s) => Str(s)
    case None => Null
  }

  /** `!!parseFloat(v)`: the test each source must pass to be chosen. */
  predicate Selects(h: Host, v: JsValue)
  {
    NumberTruthy(ParseFloat(h, v))
  }

  /** One selected width or height: a falsy value becomes 0, a value whose
      text holds `%` becomes 0, any other value is parsed. */
  function ResolveLength(h: Host, v: JsValue): (n: Number)
    ensures !Truthy(v) ==> n == h.parseFloat("0")
    ensures Truthy(v) && Contains(ToString(h, v), "%") ==> n == Finite(0.0)
    ensures Truthy(v) && !Contains(ToString(h, v), "%") ==> n == h.parseFloat(ToString(h, v))
  {
    var value := if Truthy(v) then v else Num(Finite(0.0));
    IndexOfSpec(ToString(h, value), "%");
    assert !Truthy(v) ==> ToString(h, value) == "0";
    assert "0"[0..1] == "0";
    if IndexOf(ToString(h, value), "%") == -1 then ParseFloat(h, value) else Finite(0.0)
  }

  /** With a host whose `parseFloat("0")` is 0, as every conforming one is,
      a falsy selected value resolves to 0. */
  lemma FalsyLengthIsZero(h: Host, v: JsValue)
    requires h.parseFloat("0") == Finite(0.0)
    requires !Truthy(v)
    ensures ResolveLength(h, v) == Finite(0.0)
  {
  }

  /** getSvgDimensions. The bounding rectangle is read but plays no part. */
  function GetSvgDimensions(h: Host, svg: SizeSources): Size
  {
    var boundingWidth := ParseFloat(h, svg.boundingWidth);
    var boundingHeight := ParseFloat(h, svg.boundingHeight);
    var (width, height) :=
      if Selects(h, svg.clip) then (svg.clipWidth, svg.clipHeight)
      else if Selects(h, svg.pixelWidth) then (svg.pixelWidth, svg.pixelWidth)
      else if Selects(h, svg.styleWidth) then (svg.styleWidth, svg.styleHeight)
      else (AttributeValue(svg.widthAttribute), AttributeValue(svg.heightAttribute));
    Size(ResolveLength(h, width), ResolveLength(h, height))
  }

  /** The sources in priority order: each probe with the width and height it
      contributes when it is the first to pass. */
  function Probes(svg: SizeSources): seq<JsValue>
  {
    [svg.clip, svg.pixelWidth, svg.styleWidth]
  }

  function Candidates(svg: SizeSources): seq<(JsValue, JsValue)>
  {
    [(svg.clipWidth, svg.clipHeight),
     (svg.pixelWidth, svg.pixelWidth),
     (svg.styleWidth, svg.styleHeight),
     (AttributeValue(svg.widthAttribute), AttributeValue(svg.heightAttribute))]
  }

  /** The index of the first probe that passes, or `|probes|` when none does. */
  function FirstSelecting(h: Host, probes: seq<JsValue>): (i: nat)
    ensures i <= |probes|
    ensures forall j :: 0 <= j < i ==> !Selects(h, probes[j])
    ensures i < |probes| ==> Selects(h, probes[i])
  {
    if |probes| == 0 then 0
    else if Selects(h, probes[0]) then 0
    else 1 + FirstSelecting(h, probes[1..])
  }

  /** First match wins: the size comes from the first source, in the order
      clip, style.pixelWidth, style.width, attributes, whose probe passes. */
  lemma {:induction false} DimensionsFollowPriority(h: Host, svg: SizeSources)
    ensures var i := FirstSelecting(h, Probes(svg));
      GetSvgDimensions(h, svg)
        == Size(ResolveLength(h, Candidates(svg)[i].0), ResolveLength(h, Candidates(svg)[i].1))
  {
    var p := Probes(svg);
    var i := FirstSelecting(h, p);
    if i > 0 { assert !Selects(h, p[0]); }
    if i > 1 { assert !Selects(h, p[1]); }
    if i > 2 { assert !Selects(h, p[2]); }
  }

  /** A passing clip wins over every later source, including a CSS width. */
  lemma ClipWins(h: Host, svg: SizeSources)
    requires Selects(h, svg.clip)
    ensures GetSvgDimensions(h, svg) == Size(ResolveLength(h, svg.clipWidth), ResolveLength(h, svg.clipHeight))
  {
  }

  /** In the style.pixelWidth branch the height mirrors the width. */
  lemma PixelWidthMirrorsHeight(h: Host, svg: SizeSources)
    requires !Selects(h, svg.clip) && Selects(h, svg.pixelWidth)
    ensures GetSvgDimensions(h, svg).height == GetSvgDimensions(h, svg).width
    ensures GetSvgDimensions(h, svg).width == ResolveLength(h, svg.pixelWidth)
  {
  }

  /** The bounding rectangle never changes the result. */
  lemma IgnoresBoundingRect(h: Host, svg: SizeSources, width: JsValue, height: JsValue)
    ensures GetSvgDimensions(h, svg.(boundingWidth := width, boundingHeight := height))
         == GetSvgDimensions(h, svg)
  {
  }
}
