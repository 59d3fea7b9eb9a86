/** setupSvgAttributes and setCTM: the two writes the utilities make to an
    element's attributes. */
module Attributes {
  import opened Js
  import opened Dom

  const XLinkNamespace := "http://www.w3.org/1999/xlink"
  const XmlEventsNamespace := "http://www.w3.org/2001/xml-events"
  const OverflowPrefix := "overflow: hidden; "

  /** `svg.getAttribute('style') || ''`. */
  function StyleOf(attributes: map<string, string>): string
  {
    if "style" in attributes then attributes["style"] else ""
  }

  /** The case-insensitive test for an existing overflow declaration. */
  predicate DeclaresOverflow(style: string)
  {
    Contains(ToLower(style), "overflow")
  }

  /** The overflow test is case-insensitive: a style declares overflow
      exactly when `overflow` occurs in it in any mix of ASCII case. */
  lemma DeclaresOverflowIgnoresCase(style: string)
    ensures DeclaresOverflow(style) <==> exists i :: OccursAtIgnoringCase(style, "overflow", i)
  {
    LoweredSearchIgnoresCase(style, "overflow");
  }

  /** The attributes after setupSvgAttributes, given whether the root has a
      parent. The two namespaced writes are recorded under their local names. */
  function SetupAttributes(attributes: map<string, string>, attached: bool): map<string, string>
  {
    var namespaced := attributes["xmlns" := XLinkNamespace]["xlink" := XLinkNamespace]["ev" := XmlEventsNamespace];
    if attached && IndexOf(ToLower(StyleOf(namespaced)), "overflow") == -1
    then namespaced["style" := OverflowPrefix + StyleOf(namespaced)]
    else namespaced
  }

  /** What setupSvgAttributes promises: the three namespace declarations are
      set, an attached root without an overflow declaration gets the
      `overflow: hidden; ` prefix, and nothing else changes. */
  lemma SetupAttributesSpec(attributes: map<string, string>, attached: bool)
    ensures var r := SetupAttributes(attributes, attached);
      && r["xmlns"] == XLinkNamespace
      && r["xlink"] == XLinkNamespace
      && r["ev"] == XmlEventsNamespace
      && (attached && !DeclaresOverflow(StyleOf(attributes)) ==>
            r["style"] == OverflowPrefix + StyleOf(attributes))
      && (!attached || DeclaresOverflow(StyleOf(attributes)) ==>
            StyleOf(r) == StyleOf(attributes) && ("style" in r <==> "style" in attributes))
      && r.Keys - {"style"} == attributes.Keys - {"style"} + {"xmlns", "xlink", "ev"}
      && forall k :: k in attributes && k !in {"xmlns", "xlink", "ev", "style"} ==> r[k] == attributes[k]
  {
  }

  /** The prefixed style declares overflow itself. */
  lemma {:induction false} PrefixDeclaresOverflow(style: string)
    ensures DeclaresOverflow(OverflowPrefix + style)
  {
    var lowered := ToLower(OverflowPrefix + style);
    assert lowered[..8] == "overflow";
    assert OccursAt(lowered, "overflow", 0);
  }

  /** Running setupSvgAttributes a second time changes nothing further. */
  lemma {:induction false} SetupAttributesIdempotent(attributes: map<string, string>, attached: bool)
    ensures SetupAttributes(SetupAttributes(attributes, attached), attached) == SetupAttributes(attributes, attached)
  {
  }

  /** setupSvgAttributes. */
  method SetupSvgAttributes(svg: Element)
    modifies svg`attributes
    ensures svg.attributes == SetupAttributes(old(svg.attributes), svg.parent != null)
  {
    svg.attributes := svg.attributes["xmlns" := XLinkNamespace];
    svg.attributes := svg.attributes["xlink" := XLinkNamespace];
    svg.attributes := svg.attributes["ev" := XmlEventsNamespace];
    if svg.parent != null {
      var style := StyleOf(svg.attributes);
      if IndexOf(ToLower(style), "overflow") == -1 {
        svg.attributes := svg.attributes["style" := OverflowPrefix + style];
      }
    }
  }

  /** The text of one coefficient. */
  function Coefficient(h: Host, n: Number): string
  {
    ToString(h, Num(n))
  }

  /** The transform attribute value setCTM writes. */
  function MatrixText(h: Host, m: Matrix): string
  {
    "matrix(" + Coefficient(h, m.a) + "," + Coefficient(h, m.b) + "," + Coefficient(h, m.c) + ","
      + Coefficient(h, m.d) + "," + Coefficient(h, m.e) + "," + Coefficient(h, m.f) + ")"
  }

  /** setCTM: the transform attribute becomes the matrix text and no other
      attribute changes. */
  method SetCtm(element: Element, h: Host, m: Matrix)
    modifies element`attributes
    ensures element.attributes == old(element.attributes)["transform" := MatrixText(h, m)]
  {
    var s := MatrixText(h, m);
    element.attributes := element.attributes["transform" := s];
  }

  /** Splits `s` at every `sep`, as `s.split(sep)` does. */
  function Split(s: string, sep: char): (parts: seq<string>)
    ensures |parts| >= 1
  {
    if |s| == 0 then [""]
    else
      var rest := Split(s[1..], sep);
      if s[0] == sep then [""] + rest else [[s[0]] + rest[0]] + rest[1..]
  }

  /** Joins `parts` with `sep` between neighbours. */
  function Join(parts: seq<string>, sep: char): string
    requires |parts| >= 1
  {
    if |parts| == 1 then parts[0] else parts[0] + [sep] + Join(parts[1..], sep)
  }

  /** The six coefficient texts of a transform value `matrix(...)`, the
      inverse of MatrixText; `None` for any other shape. */
  function MatrixFields(s: string): Option<seq<string>>
  {
    if |s| >= 8 && s[..7] == "matrix(" && s[|s| - 1] == ')' then
      var fields := Split(s[7..|s| - 1], ',');
      if |fields| == 6 then Some(fields) else None
    else None
  }

  lemma {:induction false} SplitPrefix(p: string, sep: char, q: string)
    requires sep !in p
    ensures Split(p + [sep] + q, sep) == [p] + Split(q, sep)
    decreases |p|
  {
    if |p| == 0 {
      assert p + [sep] + q == [sep] + q;
      assert ([sep] + q)[1..] == q;
    } else {
      SplitPrefix(p[1..], sep, q);
      assert (p + [sep] + q)[1..] == p[1..] + [sep] + q;
      assert [p[0]] + p[1..] == p;
    }
  }

  lemma {:induction false} SplitNoSeparator(s: string, sep: char)
    requires sep !in s
    ensures Split(s, sep) == [s]
    decreases |s|
  {
    if |s| > 0 {
      SplitNoSeparator(s[1..], sep);
      assert [s[0]] + s[1..] == s;
    }
  }

  /** Splitting a join recovers the parts when no part holds the separator. */
  lemma {:induction false} SplitJoin(parts: seq<string>, sep: char)
    requires |parts| >= 1
    requires forall i :: 0 <= i < |parts| ==> sep !in parts[i]
    ensures Split(Join(parts, sep), sep) == parts
    decreases |parts|
  {
    if |parts| == 1 {
      SplitNoSeparator(parts[0], sep);
    } else {
      SplitJoin(parts[1..], sep);
      SplitPrefix(parts[0], sep, Join(parts[1..], sep));
      assert [parts[0]] + parts[1..] == parts;
    }
  }

  /** The six coefficient texts, in the order setCTM writes them. */
  function CoefficientTexts(h: Host, m: Matrix): seq<string>
  {
    [Coefficient(h, m.a), Coefficient(h, m.b), Coefficient(h, m.c),
     Coefficient(h, m.d), Coefficient(h, m.e), Coefficient(h, m.f)]
  }

  lemma JoinSix(p: seq<string>, sep: char)
    requires |p| == 6
    ensures Join(p, sep) == p[0] + [sep] + p[1] + [sep] + p[2] + [sep] + p[3] + [sep] + p[4] + [sep] + p[5]
  {
    assert p[4..][1..] == p[5..] == [p[5]];
    assert p[3..][1..] == p[4..];
    assert p[2..][1..] == p[3..];
    assert p[1..][1..] == p[2..];
    assert Join(p[4..], sep) == p[4] + [sep] + p[5];
    assert Join(p[3..], sep) == p[3] + [sep] + Join(p[4..], sep);
    assert Join(p[2..], sep) == p[2] + [sep] + Join(p[3..], sep);
    assert Join(p[1..], sep) == p[1] + [sep] + Join(p[2..], sep);
  }

  lemma CoefficientHasNoComma(h: Host, n: Number)
    requires forall x :: ',' !in h.finiteToString(x)
    ensures ',' !in Coefficient(h, n)
  {
  }

  /** Any six comma-free texts written in the `matrix(...)` shape read back. */
  lemma {:induction false} MatrixShapeRoundTrip(t: seq<string>)
    requires |t| == 6
    requires forall i :: 0 <= i < 6 ==> ',' !in t[i]
    ensures MatrixFields("matrix(" + t[0] + "," + t[1] + "," + t[2] + "," + t[3] + "," + t[4] + "," + t[5] + ")")
         == Some(t)
  {
    var joined := Join(t, ',');
    JoinSix(t, ',');
    var s := "matrix(" + t[0] + "," + t[1] + "," + t[2] + "," + t[3] + "," + t[4] + "," + t[5] + ")";
    assert s == "matrix(" + joined + ")";
    assert s[7..|s| - 1] == joined;
    SplitJoin(t, ',');
  }

  /** A number is never printed with a comma, so the value setCTM writes
      reads back as exactly its six coefficient texts. */
  lemma {:induction false} MatrixTextRoundTrip(h: Host, m: Matrix)
    requires forall x :: ',' !in h.finiteToString(x)
    ensures MatrixFields(MatrixText(h, m)) == Some(CoefficientTexts(h, m))
  {
    var texts := CoefficientTexts(h, m);
    CoefficientHasNoComma(h, m.a);
    CoefficientHasNoComma(h, m.b);
    CoefficientHasNoComma(h, m.c);
    CoefficientHasNoComma(h, m.d);
    CoefficientHasNoComma(h, m.e);
    CoefficientHasNoComma(h, m.f);
    MatrixShapeRoundTrip(texts);
  }

  /** setCTM with the matrix (1, 0, 0, 1, 10, 20) writes `matrix(1,0,0,1,10,20)`. */
  lemma TranslationExample(h: Host)
    requires h.finiteToString(1.0) == "1"
    requires h.finiteToString(10.0) == "10"
    requires h.finiteToString(20.0) == "20"
    ensures MatrixText(h, Matrix(Finite(1.0), Finite(0.0), Finite(0.0), Finite(1.0), Finite(10.0), Finite(20.0)))
         == "matrix(1,0,0,1,10,20)"
  {
  }
}
