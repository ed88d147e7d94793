/** The SVG output helpers (svg.h, svg.cpp): stroke enum names, colour text
    and the colour equality defined through it, XML entity escaping of text
    content, and the tag text of circles, polylines and texts.

    Coordinates are `real`s written by a caller-supplied `num`, which stands
    for `std::ostream`'s default formatting of a `double`; colours cover the
    `monostate`, string and `Rgb` alternatives of `svg::Color`. */
module Svg {
  import opened Wrappers
  import Decimal
  import CString

  // ---------------------------------------------------------- stroke enums

  datatype StrokeLineCap = Butt | RoundCap | Square

  datatype StrokeLineJoin = Arcs | Bevel | Miter | MiterClip | RoundJoin

  /** `operator<<(StrokeLineCap)`. */
  function LineCapName(cap: StrokeLineCap): (r: string)
    ensures |r| > 0
  {
    match cap
    case Butt => "butt"
    case RoundCap => "round"
    case Square => "square"
  }

  /** `operator<<(StrokeLineJoin)`. */
  function LineJoinName(join: StrokeLineJoin): (r: string)
    ensures |r| > 0
  {
    match join
    case Arcs => "arcs"
    case Bevel => "bevel"
    case Miter => "miter"
    case MiterClip => "miter-clip"
    case RoundJoin => "round"
  }

  /** Reading an SVG `stroke-linecap` value back. */
  function LineCapOfName(s: string): (r: Option<StrokeLineCap>)
    ensures r.Some? ==> LineCapName(r.value) == s
  {
    if s == "butt" then Some(Butt)
    else if s == "round" then Some(RoundCap)
    else if s == "square" then Some(Square)
    else None
  }

  /** Reading an SVG `stroke-linejoin` value back. */
  function LineJoinOfName(s: string): (r: Option<StrokeLineJoin>)
    ensures r.Some? ==> LineJoinName(r.value) == s
  {
    if s == "arcs" then Some(Arcs)
    else if s == "bevel" then Some(Bevel)
    else if s == "miter" then Some(Miter)
    else if s == "miter-clip" then Some(MiterClip)
    else if s == "round" then Some(RoundJoin)
    else None
  }

  /** Every cap and join is written under its own SVG keyword. */
  lemma StrokeNamesRoundTrip(cap: StrokeLineCap, join: StrokeLineJoin)
    ensures LineCapOfName(LineCapName(cap)) == Some(cap)
    ensures LineJoinOfName(LineJoinName(join)) == Some(join)
  {
  }

  // --------------------------------------------------------------- colours

  /** `uint8_t` colour components. */
  newtype uint8 = x: int | 0 <= x < 256

  /** `svg::Color` without its `Rgba` alternative; `NoneColor` is the
      `monostate`. */
  datatype Color = NoneColor | Named(name: string) | Rgb(red: uint8, green: uint8, blue: uint8)

  /** The text of a colour, as `ColorVisitorConverter` builds it for the
      comparison and `ColorVisitorPrinter` writes it into attributes; the two
      agree on these alternatives. */
  function ColorText(c: Color): (r: string)
    ensures r == "none" <==> c == NoneColor || c == Named("none")
    ensures c.Rgb? ==> |r| > 4 && r[..4] == "rgb(" && r[|r| - 1] == ')'
  {
    match c
    case NoneColor => "none"
    case Named(name) => name
    case Rgb(r, g, b) =>
      "rgb(" + Decimal.NatToString(r as nat) + "," + Decimal.NatToString(g as nat) + ","
        + Decimal.NatToString(b as nat) + ")"
  }

  /** `operator==` on colours: equal texts. */
  predicate ColorEq(a: Color, b: Color) {
    ColorText(a) == ColorText(b)
  }

  /** Comparing by text is an equivalence relation. */
  lemma ColorEqEquivalence(a: Color, b: Color, c: Color)
    ensures ColorEq(a, a)
    ensures ColorEq(a, b) ==> ColorEq(b, a)
    ensures ColorEq(a, b) && ColorEq(b, c) ==> ColorEq(a, c)
  {
  }

  /** The empty colour equals the colour named "none", and an `Rgb` colour
      equals the colour named by its `rgb(r,g,b)` text. */
  lemma ColorEqAcrossAlternatives(r: uint8, g: uint8, b: uint8)
    ensures ColorEq(NoneColor, Named("none"))
    ensures ColorEq(Rgb(r, g, b), Named("rgb(" + Decimal.NatToString(r as nat) + "," + Decimal.NatToString(g as nat) + ","
        + Decimal.NatToString(b as nat) + ")"))
    ensures !ColorEq(Rgb(r, g, b), NoneColor)
  {
    assert ColorText(Rgb(r, g, b))[0] == 'r';
  }

  /** No digit string holds a comma. */
  lemma DigitsNoComma(s: string)
    requires Decimal.AllDigits(s)
    ensures ',' !in s
  {
  }

  /** The joined text starts with `x` and has the comma right after it. */
  lemma CommaAt(x: string, y: string)
    ensures (x + "," + y)[|x|] == ','
    ensures forall i :: 0 <= i < |x| ==> (x + "," + y)[i] == x[i]
  {
  }

  /** A comma-free head is determined by the first comma. */
  lemma CommaSplit(x: string, y: string, x': string, y': string)
    requires ',' !in x && ',' !in x'
    requires x + "," + y == x' + "," + y'
    ensures x == x' && y == y'
  {
    var s := x + "," + y;
    CommaAt(x, y);
    CommaAt(x', y');
    if |x| < |x'| {
      assert false;
    } else if |x'| < |x| {
      assert false;
    }
    assert x == s[..|x|];
    assert x' == (x' + "," + y')[..|x'|];
    assert y == s[|x| + 1..];
    assert y' == (x' + "," + y')[|x'| + 1..];
  }

  lemma NatToStringInjective(a: nat, b: nat)
    requires Decimal.NatToString(a) == Decimal.NatToString(b)
    ensures a == b
  {
    Decimal.DigitsValueOfNatToString(a);
    Decimal.DigitsValueOfNatToString(b);
  }

  /** Two `Rgb` colours are equal exactly when their components are: the
      decimal text with commas between parts is unambiguous. */
  lemma {:induction false} RgbEqIff(a: Color, b: Color)
    requires a.Rgb? && b.Rgb?
    ensures ColorEq(a, b) <==> a == b
  {
    if ColorEq(a, b) {
      var ra, ga, ba := Decimal.NatToString(a.red as nat), Decimal.NatToString(a.green as nat), Decimal.NatToString(a.blue as nat);
      var rb, gb, bb := Decimal.NatToString(b.red as nat), Decimal.NatToString(b.green as nat), Decimal.NatToString(b.blue as nat);
      DigitsNoComma(ra);
      DigitsNoComma(rb);
      DigitsNoComma(ga);
      DigitsNoComma(gb);
      RgbTextSplit(ra, ga, ba, rb, gb, bb);
      NatToStringInjective(a.red as nat, b.red as nat);
      NatToStringInjective(a.green as nat, b.green as nat);
      NatToStringInjective(a.blue as nat, b.blue as nat);
    }
  }

  /** `rgb(r,g,b)` with comma-free `r` and `g` determines its three parts. */
  lemma RgbTextSplit(ra: string, ga: string, ba: string, rb: string, gb: string, bb: string)
    requires ',' !in ra && ',' !in ga && ',' !in rb && ',' !in gb
    requires "rgb(" + ra + "," + ga + "," + ba + ")" == "rgb(" + rb + "," + gb + "," + bb + ")"
    ensures ra == rb && ga == gb && ba == bb
  {
    var ta := ra + "," + (ga + "," + (ba + ")"));
    var tb := rb + "," + (gb + "," + (bb + ")"));
    assert "rgb(" + ra + "," + ga + "," + ba + ")" == "rgb(" + ta;
    assert "rgb(" + rb + "," + gb + "," + bb + ")" == "rgb(" + tb;
    assert ta == ("rgb(" + ta)[4..] && tb == ("rgb(" + tb)[4..];
    CommaSplit(ra, ga + "," + (ba + ")"), rb, gb + "," + (bb + ")"));
    CommaSplit(ga, ba + ")", gb, bb + ")");
    assert ba == (ba + ")")[..|ba + ")"| - 1];
    assert bb == (bb + ")")[..|bb + ")"| - 1];
  }

  // --------------------------------------------------------- text escaping

  /** The five characters `ShieldDataString` replaces by entities. */
  predicate Special(c: char) {
    c == '"' || c == '\'' || c == '<' || c == '>' || c == '&'
  }

  /** The characters that never appear bare in escaped text. */
  predicate Markup(c: char) {
    c == '"' || c == '\'' || c == '<' || c == '>'
  }

  /** How `ShieldDataString` writes one character. */
  function ShieldChar(c: char): (r: string)
    ensures |r| >= 1
    ensures forall i :: 0 <= i < |r| ==> !Markup(r[i])
  {
    if c == '"' then "&quot;"
    else if c == '\'' then "&apos;"
    else if c == '<' then "&lt;"
    else if c == '>' then "&gt;"
    else if c == '&' then "&amp;"
    else [c]
  }

  /** `Text::ShieldDataString`: each character in order, the five specials
      as XML entities. The result is at least as long as the input and
      holds no bare quote, apostrophe or angle bracket. */
  function Shield(s: string): (r: string)
    ensures |r| >= |s|
    ensures forall i :: 0 <= i < |r| ==> !Markup(r[i])
  {
    if |s| == 0 then ""
    else
      var e := ShieldChar(s[0]);
      var rest := Shield(s[1..]);
      assert forall i :: |e| <= i < |e + rest| ==> (e + rest)[i] == rest[i - |e|];
      e + rest
  }

  /** Text without specials is written as is. */
  lemma {:induction false} ShieldPlain(s: string)
    requires forall i :: 0 <= i < |s| ==> !Special(s[i])
    ensures Shield(s) == s
  {
    if |s| > 0 {
      ShieldPlain(s[1..]);
      assert s == [s[0]] + s[1..];
    }
  }

  /** Reference reading of escaped text: the five entities back to their
      characters, everything else as is. */
  function Unshield(s: string): string
    decreases |s|
  {
    if |s| == 0 then ""
    else if CString.OccursAt(s, "&quot;", 0) then "\"" + Unshield(s[6..])
    else if CString.OccursAt(s, "&apos;", 0) then "'" + Unshield(s[6..])
    else if CString.OccursAt(s, "&lt;", 0) then "<" + Unshield(s[4..])
    else if CString.OccursAt(s, "&gt;", 0) then ">" + Unshield(s[4..])
    else if CString.OccursAt(s, "&amp;", 0) then "&" + Unshield(s[5..])
    else [s[0]] + Unshield(s[1..])
  }

  /** The first characters of `e + rest` are those of `e`. */
  lemma PrefixChars(e: string, rest: string, k: nat)
    requires k <= |e|
    ensures (e + rest)[..k] == e[..k]
  {
  }

  lemma {:induction false} UnshieldChar(c: char, rest: string)
    ensures Unshield(ShieldChar(c) + rest) == [c] + Unshield(rest)
  {
    var e := ShieldChar(c);
    var s := e + rest;
    assert s[..|e|] == e;
    assert s[|e|..] == rest;
    if !Special(c) {
      assert s[0] == c;
      assert !CString.OccursAt(s, "&quot;", 0) && !CString.OccursAt(s, "&apos;", 0) by {
        if |s| >= 6 { assert s[..6][0] == c; }
      }
      assert !CString.OccursAt(s, "&lt;", 0) && !CString.OccursAt(s, "&gt;", 0) by {
        if |s| >= 4 { assert s[..4][0] == c; }
      }
      assert !CString.OccursAt(s, "&amp;", 0) by {
        if |s| >= 5 { assert s[..5][0] == c; }
      }
    } else if c == '\'' {
      assert s[1] == 'a';
      assert !CString.OccursAt(s, "&quot;", 0) by { assert s[..6][1] == 'a'; }
    } else if c == '<' {
      assert s[1] == 'l';
      assert !CString.OccursAt(s, "&quot;", 0) && !CString.OccursAt(s, "&apos;", 0) by {
        if |s| >= 6 { assert s[..6][1] == 'l'; }
      }
    } else if c == '>' {
      assert s[1] == 'g';
      assert !CString.OccursAt(s, "&quot;", 0) && !CString.OccursAt(s, "&apos;", 0) by {
        if |s| >= 6 { assert s[..6][1] == 'g'; }
      }
      assert !CString.OccursAt(s, "&lt;", 0) by { assert s[..4][1] == 'g'; }
    } else if c == '&' {
      assert s[1] == 'a' && s[2] == 'm';
      assert !CString.OccursAt(s, "&quot;", 0) && !CString.OccursAt(s, "&apos;", 0) by {
        if |s| >= 6 { assert s[..6][1] == 'a' && s[..6][2] == 'm'; }
      }
      assert !CString.OccursAt(s, "&lt;", 0) && !CString.OccursAt(s, "&gt;", 0) by {
        assert s[..4][1] == 'a';
      }
    }
  }

  /** Escaping loses nothing: reading the entities back gives the text. */
  lemma {:induction false} UnshieldShield(s: string)
    ensures Unshield(Shield(s)) == s
  {
    if |s| > 0 {
      UnshieldChar(s[0], Shield(s[1..]));
      UnshieldShield(s[1..]);
      assert s == [s[0]] + s[1..];
    }
  }

  // ------------------------------------------------------------- attributes

  datatype Point = Point(x: real, y: real)

  /** The optional attributes of `PathProps`, each written only when set. */
  datatype PathProps = PathProps(
    fill: Option<Color>,
    stroke: Option<Color>,
    strokeWidth: Option<real>,
    lineCap: Option<StrokeLineCap>,
    lineJoin: Option<StrokeLineJoin>)

  const NoProps: PathProps := PathProps(None, None, None, None, None)

  /** ` name="value"`. */
  function Attr(name: string, value: string): string {
    " " + name + "=\"" + value + "\""
  }

  /** `PathProps::RenderAttrs`: the set attributes, in declaration order. */
  function RenderAttrs(p: PathProps, num: real -> string): (r: string)
    ensures r == "" <==> p == NoProps
    ensures r != "" ==> r[0] == ' '
  {
    (if p.fill.Some? then Attr("fill", ColorText(p.fill.value)) else "") + StrokeAttrs(p, num)
  }

  /** The attributes after the fill. */
  function StrokeAttrs(p: PathProps, num: real -> string): (r: string)
    ensures r == "" <==> p.stroke.None? && p.strokeWidth.None? && p.lineCap.None? && p.lineJoin.None?
    ensures r != "" ==> r[0] == ' '
  {
    (if p.stroke.Some? then Attr("stroke", ColorText(p.stroke.value)) else "")
    + (if p.strokeWidth.Some? then Attr("stroke-width", num(p.strokeWidth.value)) else "")
    + (if p.lineCap.Some? then Attr("stroke-linecap", LineCapName(p.lineCap.value)) else "")
    + (if p.lineJoin.Some? then Attr("stroke-linejoin", LineJoinName(p.lineJoin.value)) else "")
  }

  /** Setting one attribute adds exactly its text, at its place. */
  lemma FillAttrAdded(p: PathProps, c: Color, num: real -> string)
    requires p.fill.None?
    ensures RenderAttrs(p.(fill := Some(c)), num) == Attr("fill", ColorText(c)) + RenderAttrs(p, num)
  {
    assert StrokeAttrs(p.(fill := Some(c)), num) == StrokeAttrs(p, num);
    assert "" + StrokeAttrs(p, num) == StrokeAttrs(p, num);
  }

  // ------------------------------------------------------------- polylines

  function PointText(p: Point, num: real -> string): (r: string)
    ensures ',' in r
  {
    var r := num(p.x) + "," + num(p.y);
    assert r[|num(p.x)|] == ',';
    r
  }

  /** The `points` value of `Polyline::RenderObject`: a point followed by a
      blank while more than one point is left, the last one alone. */
  function PointsText(points: seq<Point>, num: real -> string): (r: string)
    ensures r == "" <==> |points| == 0
  {
    if |points| == 0 then ""
    else if |points| == 1 then PointText(points[0], num)
    else PointText(points[0], num) + " " + PointsText(points[1..], num)
  }

  /** Reference reading of a blank-separated list: the pieces between
      blanks, one more than there are blanks. */
  function Pieces(s: string): (r: seq<string>)
    ensures |r| > 0
    decreases |s|
  {
    var k := CString.BlankAt(s);
    if k == |s| then [s] else [s[..k]] + Pieces(s[k + 1..])
  }

  lemma BlankFreePoint(p: Point, num: real -> string)
    requires ' ' !in num(p.x) && ' ' !in num(p.y)
    ensures ' ' !in PointText(p, num)
  {
    var a, b := num(p.x), num(p.y);
    assert forall i :: 0 <= i < |a| ==> (a + "," + b)[i] == a[i];
    assert forall i :: |a| < i < |a + "," + b| ==> (a + "," + b)[i] == b[i - |a| - 1];
  }

  /** With blank-free number text, the points value splits at its blanks
      into exactly the points' `x,y` texts: single separators and nothing
      after the last point. */
  lemma {:induction false} PointsTextPieces(points: seq<Point>, num: real -> string)
    requires |points| > 0
    requires forall v :: ' ' !in num(v)
    ensures Pieces(PointsText(points, num)) == seq(|points|, k requires 0 <= k < |points| => PointText(points[k], num))
  {
    var p := PointText(points[0], num);
    BlankFreePoint(points[0], num);
    if |points| == 1 {
      assert CString.BlankAt(p) == |p|;
    } else {
      PiecesCons(p, PointsText(points[1..], num));
      PointsTextPieces(points[1..], num);
      PointTextsCons(points, num);
    }
  }

  lemma PointTextsCons(points: seq<Point>, num: real -> string)
    requires |points| > 1
    ensures seq(|points|, k requires 0 <= k < |points| => PointText(points[k], num))
         == [PointText(points[0], num)] + seq(|points| - 1, k requires 0 <= k < |points| - 1 => PointText(points[1..][k], num))
  {
  }

  /** A blank-free piece before a blank is the first piece. */
  lemma PiecesCons(p: string, rest: string)
    requires ' ' !in p
    ensures Pieces(p + " " + rest) == [p] + Pieces(rest)
  {
    var s := p + " " + rest;
    assert forall i :: 0 <= i < |p| ==> s[i] == p[i];
    assert s[|p|] == ' ';
    assert CString.BlankAt(s) == |p|;
    assert s[..|p|] == p && s[|p| + 1..] == rest;
  }

  // ------------------------------------------------------------------ tags

  /** `Circle::RenderObject`. */
  function CircleTag(center: Point, radius: real, props: PathProps, num: real -> string): (r: string)
    ensures |r| >= 14 && r[..12] == "<circle cx=\"" && r[|r| - 2..] == "/>"
  {
    "<circle cx=\"" + num(center.x) + "\" cy=\"" + num(center.y) + "\" r=\"" + num(radius) + "\""
      + RenderAttrs(props, num) + "/>"
  }

  /** `Polyline::RenderObject`. */
  function PolylineTag(points: seq<Point>, props: PathProps, num: real -> string): (r: string)
    ensures |r| >= 20 && r[..18] == "<polyline points=\"" && r[|r| - 2..] == "/>"
  {
    "<polyline points=\"" + PointsText(points, num) + "\"" + RenderAttrs(props, num) + "/>"
  }

  /** The state of an `svg::Text`; `fontSize` is a `uint32_t`. */
  datatype Text = Text(
    pos: Point,
    offset: Point,
    fontSize: nat,
    fontFamily: string,
    fontWeight: string,
    data: string,
    props: PathProps)

  /** A default-constructed `Text`. */
  const DefaultText: Text := Text(Point(0.0, 0.0), Point(0.0, 0.0), 1, "", "", "", NoProps)

  /** A font attribute, left out when its value is empty. */
  function FontAttr(name: string, value: string): string {
    if value == "" then "" else Attr(name, value)
  }

  /** The fixed attributes of a text tag: position, offset and font size. */
  function TextHead(t: Text, num: real -> string): string {
    "<text x=\"" + num(t.pos.x) + "\" y=\"" + num(t.pos.y) + "\" dx=\"" + num(t.offset.x)
      + "\" dy=\"" + num(t.offset.y) + "\" font-size=\"" + Decimal.NatToString(t.fontSize) + "\""
  }

  /** `Text::RenderObject`: the content goes through `ShieldDataString`,
      the font names do not. */
  function TextTag(t: Text, num: real -> string): (r: string)
    ensures |r| >= 16 && r[..9] == "<text x=\"" && r[|r| - 7..] == "</text>"
  {
    TextHead(t, num) + FontAttr("font-family", t.fontFamily) + FontAttr("font-weight", t.fontWeight)
      + TextTail(t, num)
  }

  /** `s` with `x` inserted at index `i`. */
  function InsertAt(s: string, i: nat, x: string): string
    requires i <= |s|
  {
    s[..i] + x + s[i..]
  }

  /** Inserting right after a prefix. */
  lemma InsertAtJoin(head: string, x: string, tail: string)
    ensures InsertAt(head + tail, |head|, x) == head + x + tail
  {
    assert (head + tail)[..|head|] == head;
    assert (head + tail)[|head|..] == tail;
  }

  /** The tag text regrouped around its font attributes. */
  lemma TextTagParts(t: Text, num: real -> string)
    ensures TextTag(t, num) == TextHead(t, num) + FontAttr("font-family", t.fontFamily)
      + (FontAttr("font-weight", t.fontWeight) + TextTail(t, num))
  {
  }

  /** What follows the font attributes. */
  function TextTail(t: Text, num: real -> string): string {
    RenderAttrs(t.props, num) + ">" + Shield(t.data) + "</text>"
  }

  /** An empty font family is omitted; a non-empty one adds exactly its
      attribute, right after the font size. */
  lemma FontFamilyOmitted(t: Text, family: string, num: real -> string)
    requires family != ""
    ensures var base := TextTag(t.(fontFamily := ""), num);
      |TextHead(t, num)| <= |base|
      && TextTag(t.(fontFamily := family), num) == InsertAt(base, |TextHead(t, num)|, Attr("font-family", family))
  {
    var t0, t1 := t.(fontFamily := ""), t.(fontFamily := family);
    TextTagParts(t0, num);
    TextTagParts(t1, num);
    assert TextHead(t0, num) == TextHead(t, num) && TextHead(t1, num) == TextHead(t, num);
    assert TextTail(t0, num) == TextTail(t, num) && TextTail(t1, num) == TextTail(t, num);
    var head := TextHead(t, num);
    var rest := FontAttr("font-weight", t.fontWeight) + TextTail(t, num);
    assert TextTag(t0, num) == head + FontAttr("font-family", "") + rest;
    assert TextTag(t1, num) == head + Attr("font-family", family) + rest;
    assert head + FontAttr("font-family", "") == head;
    InsertAtJoin(head, Attr("font-family", family), rest);
  }

  /** An empty font weight is omitted; a non-empty one adds exactly its
      attribute, after the font family. */
  lemma FontWeightOmitted(t: Text, weight: string, num: real -> string)
    requires weight != ""
    ensures var base := TextTag(t.(fontWeight := ""), num);
      var at := |TextHead(t, num)| + |FontAttr("font-family", t.fontFamily)|;
      at <= |base| && TextTag(t.(fontWeight := weight), num) == InsertAt(base, at, Attr("font-weight", weight))
  {
    var t0, t1 := t.(fontWeight := ""), t.(fontWeight := weight);
    TextTagParts(t0, num);
    TextTagParts(t1, num);
    var head := TextHead(t, num) + FontAttr("font-family", t.fontFamily);
    assert TextHead(t0, num) == TextHead(t, num) && TextHead(t1, num) == TextHead(t, num);
    assert TextTail(t0, num) == TextTail(t, num) && TextTail(t1, num) == TextTail(t, num);
    InsertAtJoin(head, Attr("font-weight", weight), TextTail(t, num));
  }

  /** The part of `s` after its last `c` (all of `s` without one). */
  function AfterLast(s: string, c: char): (r: string)
    ensures c !in r
  {
    if |s| == 0 || s[|s| - 1] == c then ""
    else AfterLast(s[..|s| - 1], c) + [s[|s| - 1]]
  }

  lemma {:induction false} AfterLastOf(a: string, c: char, b: string)
    requires c !in b
    ensures AfterLast(a + [c] + b, c) == b
    decreases |b|
  {
    var s := a + [c] + b;
    if |b| > 0 {
      var b' := b[..|b| - 1];
      assert s[..|s| - 1] == a + [c] + b';
      AfterLastOf(a, c, b');
      assert b == b' + [b[|b| - 1]];
    }
  }

  /** Reference reading of a text tag's content: the escaped text between
      the last `>` and the closing `</text>`, with its entities read back. */
  function TextContent(tag: string): Option<string> {
    if |tag| < 7 || tag[|tag| - 7..] != "</text>" then None
    else Some(Unshield(AfterLast(tag[..|tag| - 7], '>')))
  }

  /** The content of a text tag gives back the text's data, whatever it
      holds: escaping keeps `>` out of it. */
  lemma TextContentRoundTrip(t: Text, num: real -> string)
    ensures TextContent(TextTag(t, num)) == Some(t.data)
  {
    var open := TextHead(t, num) + FontAttr("font-family", t.fontFamily) + FontAttr("font-weight", t.fontWeight)
      + RenderAttrs(t.props, num);
    var body := Shield(t.data);
    assert TextTag(t, num) == open + ">" + body + "</text>";
    ClosedContent(open, body);
    UnshieldShield(t.data);
  }

  /** The content read from a closed tag whose body holds no `>`. */
  lemma ClosedContent(open: string, body: string)
    requires '>' !in body
    ensures TextContent(open + ">" + body + "</text>") == Some(Unshield(body))
  {
    var tag := open + ">" + body + "</text>";
    assert tag[..|tag| - 7] == open + ['>'] + body;
    assert tag[|tag| - 7..] == "</text>";
    AfterLastOf(open, '>', body);
  }
}
