/**
 * Watermark placement and colour policy (src/photodate_wm/render.py).
 *
 * Pillow stays outside: a colour string arrives already parsed by
 * `ImageColor.getcolor` (None when that raised), the text box arrives
 * already measured by `textbbox`, and images are described by their size
 * and mode. What is modelled is the arithmetic and the decisions around
 * those calls: the alpha rule of `_parse_rgba`, the anchor geometry of
 * `_compute_anchor_xy`, the draw plan of `draw_text_watermark`, and the
 * size, alpha and placement rules of `draw_image_watermark`.
 */
module Render {
  import opened Wrappers
  import opened Strings

  type Channel = x: int | 0 <= x < 256

  datatype Rgba = Rgba(r: Channel, g: Channel, b: Channel, a: Channel)

  datatype RenderError =
    | InvalidPosition(position: string)  // ValueError from _compute_anchor_xy
    | InvalidColor                       // ValueError from ImageColor.getcolor
    | ZeroDivision                       // watermark of width 0

  /** What the core knows of a Pillow image: its size and its mode. */
  datatype ImageInfo = ImageInfo(width: nat, height: nat, mode: string)

  function Max(a: int, b: int): int { if a >= b then a else b }
  function Min(a: int, b: int): int { if a <= b then a else b }

  // ---------------------------------------------------------------------
  // Colour

  /** Python's `round` on a number: the nearest integer, ties to even. */
  function RoundHalfEven(x: real): (n: int)
    ensures x - 0.5 <= n as real <= x + 0.5
    ensures (n as real == x - 0.5 || n as real == x + 0.5) ==> n % 2 == 0
  {
    var f := x.Floor;
    var d := x - f as real;
    if d < 0.5 then f
    else if d > 0.5 then f + 1
    else if f % 2 == 0 then f
    else f + 1
  }

  /** The two properties of `RoundHalfEven` determine it. */
  lemma RoundHalfEvenUnique(x: real, m: int)
    requires x - 0.5 <= m as real <= x + 0.5
    requires (m as real == x - 0.5 || m as real == x + 0.5) ==> m % 2 == 0
    ensures m == RoundHalfEven(x)
  {
  }

  /** The alpha an opacity stands for: `max(0, min(255, round(opacity * 255)))`. */
  function OpacityAlpha(opacity: real): (a: Channel)
    ensures 0.0 <= opacity <= 1.0 ==> opacity * 255.0 - 0.5 <= a as real <= opacity * 255.0 + 0.5
    ensures opacity <= 0.0 ==> a == 0
    ensures opacity >= 1.0 ==> a == 255
  {
    Max(0, Min(255, RoundHalfEven(opacity * 255.0)))
  }

  /** `_parse_rgba(color, opacity)`, where `color` is what
      `ImageColor.getcolor(color, "RGBA")` returned (None when it raised).
      Red, green and blue pass through; an alpha of 255 (no explicit alpha)
      is replaced by the opacity's alpha, any other alpha is kept. */
  function ParseRgba(color: Option<Rgba>, opacity: real): (r: Result<Rgba, RenderError>)
    ensures color.None? <==> r == Err(InvalidColor)
    ensures color.Some? ==> r.Ok? && r.value.r == color.value.r && r.value.g == color.value.g
                                  && r.value.b == color.value.b
    ensures color.Some? && color.value.a == 255 ==> r.Ok? && r.value.a == OpacityAlpha(opacity)
    ensures color.Some? && color.value.a != 255 ==> r.Ok? && r.value.a == color.value.a
  {
    match color
    case None => Err(InvalidColor)
    case Some(c) =>
      if c.a == 255 then Ok(Rgba(c.r, c.g, c.b, OpacityAlpha(opacity)))
      else Ok(c)
  }

  /** Explicit partial alpha wins over the opacity argument. */
  lemma ExplicitAlphaWins(c: Rgba, o1: real, o2: real)
    requires c.a != 255
    ensures ParseRgba(Some(c), o1) == ParseRgba(Some(c), o2) == Ok(c)
  {
  }

  /** "#FF0000" at opacity 0.5 resolves to (255, 0, 0, 128): 127.5 rounds to
      the even 128. "#FF000080" at opacity 1.0 keeps its alpha 128. */
  lemma ColourExamples()
    ensures ParseRgba(Some(Rgba(255, 0, 0, 255)), 0.5) == Ok(Rgba(255, 0, 0, 128))
    ensures ParseRgba(Some(Rgba(255, 0, 0, 128)), 1.0) == Ok(Rgba(255, 0, 0, 128))
  {
    assert RoundHalfEven(127.5) == 128;
  }

  // ---------------------------------------------------------------------
  // Anchor placement

  datatype Row = Top | Middle | Bottom
  datatype Column = Left | Center | Right
  datatype Anchor = Anchor(row: Row, column: Column)

  /** The nine accepted position codes, row letter then column letter. */
  const AnchorCodes: set<string> := {"tl", "tc", "tr", "cl", "cc", "cr", "bl", "bc", "br"}

  /** The code that names an anchor. */
  function CodeOf(a: Anchor): (code: string)
    ensures code in AnchorCodes
  {
    var r := match a.row case Top => 't' case Middle => 'c' case Bottom => 'b';
    var c := match a.column case Left => 'l' case Center => 'c' case Right => 'r';
    [r, c]
  }

  /** The position check and the letter dispatch of `_compute_anchor_xy`. */
  function ParsePosition(position: string): (r: Result<Anchor, RenderError>)
    ensures r.Ok? <==> Lower(position) in AnchorCodes
    ensures r.Ok? ==> CodeOf(r.value) == Lower(position)
    ensures r.Err? ==> r.error == InvalidPosition(position)
  {
    var pos := Lower(position);
    if pos !in AnchorCodes then Err(InvalidPosition(position))
    else
      var column := if pos[1] == 'l' then Left else if pos[1] == 'c' then Center else Right;
      var row := if pos[0] == 't' then Top else if pos[0] == 'c' then Middle else Bottom;
      Ok(Anchor(row, column))
  }

  /** Every anchor's code parses back to it, so the nine codes name nine
      distinct anchors. */
  lemma ParseCodeOf(a: Anchor)
    ensures ParsePosition(CodeOf(a)) == Ok(a)
  {
    LowerOfLower(CodeOf(a));
  }

  /** Letter case does not matter. */
  lemma PositionCaseInsensitive(position: string)
    ensures ParsePosition(position).Ok? <==> ParsePosition(Lower(position)).Ok?
    ensures ParsePosition(position).Ok? ==> ParsePosition(position) == ParsePosition(Lower(position))
  {
    LowerIdempotent(position);
  }

  lemma UpperCaseCodes()
    ensures ParsePosition("BR") == Ok(Anchor(Bottom, Right))
    ensures ParsePosition("Tl") == Ok(Anchor(Top, Left))
    ensures ParsePosition("top").Err?
    ensures ParsePosition("").Err?
  {
    assert Lower("BR") == "br";
    assert Lower("Tl") == "tl";
    assert Lower("top") == "top";
  }

  /** One axis of the placement rule: the near edge sits at the margin, the
      middle splits the slack with floor division, the far edge leaves the
      margin; the result is clamped at 0. */
  function AxisOffset(near: bool, middle: bool, container: int, payload: int, margin: int): (v: int)
    ensures v >= 0
    ensures near ==> v == Max(0, margin)
    ensures !near && middle ==> v == Max(0, (container - payload) / 2)
    ensures !near && middle && container >= payload ==>
      0 <= (container - payload - v) - v <= 1
    ensures !near && !middle && container - payload - margin >= 0 ==>
      container - (v + payload) == margin
    ensures !near && !middle && container - payload - margin < 0 ==> v == 0
  {
    var v := if near then margin else if middle then (container - payload) / 2
             else container - payload - margin;
    Max(0, v)
  }

  /** `_compute_anchor_xy`: the top-left corner of a `textW` x `textH` box
      for the given position, or the position error. */
  function ComputeAnchorXY(imgW: int, imgH: int, textW: int, textH: int, position: string,
                           marginX: int, marginY: int): (r: Result<(int, int), RenderError>)
    ensures r.Ok? <==> Lower(position) in AnchorCodes
    ensures r.Err? ==> r.error == InvalidPosition(position)
    ensures r.Ok? ==> r.value.0 >= 0 && r.value.1 >= 0
    ensures r.Ok? ==> var a := ParsePosition(position).value;
      && r.value.0 == AxisOffset(a.column == Left, a.column == Center, imgW, textW, marginX)
      && r.value.1 == AxisOffset(a.row == Top, a.row == Middle, imgH, textH, marginY)
  {
    match ParsePosition(position)
    case Err(e) => Err(e)
    case Ok(a) =>
      var x := AxisOffset(a.column == Left, a.column == Center, imgW, textW, marginX);
      var y := AxisOffset(a.row == Top, a.row == Middle, imgH, textH, marginY);
      Ok((x, y))
  }

  /** Containment: with non-negative margins and a box that fits inside the
      image together with its margin, every one of the nine anchors puts
      the whole box inside the image. */
  lemma AnchorContained(imgW: int, imgH: int, textW: int, textH: int, position: string,
                        marginX: int, marginY: int)
    requires Lower(position) in AnchorCodes
    requires marginX >= 0 && marginY >= 0 && textW >= 0 && textH >= 0
    requires textW + marginX <= imgW && textH + marginY <= imgH
    ensures var xy := ComputeAnchorXY(imgW, imgH, textW, textH, position, marginX, marginY).value;
      0 <= xy.0 && xy.0 + textW <= imgW && 0 <= xy.1 && xy.1 + textH <= imgH
  {
  }

  /** The canvas and margins of tests/test_render.py:7-9, with a 100x20
      box that fits; a box wider than the canvas is clamped to x = 0. */
  lemma BottomRightExample()
    ensures ComputeAnchorXY(200, 100, 100, 20, "br", 10, 10) == Ok((90, 70))
    ensures ComputeAnchorXY(200, 100, 100, 20, "cc", 10, 10) == Ok((50, 40))
    ensures ComputeAnchorXY(200, 100, 300, 20, "cc", 10, 10) == Ok((0, 40))
  {
    assert Lower("br") == "br";
    assert Lower("cc") == "cc";
  }

  // ---------------------------------------------------------------------
  // Images returned by both draw functions

  /** The result image: the input's size, RGBA when the input was RGBA and
      RGB otherwise. */
  function ResultImage(image: ImageInfo): (r: ImageInfo)
    ensures r.width == image.width && r.height == image.height
    ensures r.mode == "RGBA" <==> image.mode == "RGBA"
    ensures r.mode == "RGB" || r.mode == "RGBA"
  {
    ImageInfo(image.width, image.height, if image.mode == "RGBA" then "RGBA" else "RGB")
  }

  /** Watermarking a result again keeps its size and mode. */
  lemma ResultImageIdempotent(image: ImageInfo)
    ensures ResultImage(ResultImage(image)) == ResultImage(image)
  {
  }

  // ---------------------------------------------------------------------
  // Text watermark draw plan

  /** One `draw.text` call on the overlay: where, with which fill, and with
      which stroke width and stroke fill (None: not passed). */
  datatype TextPass = TextPass(x: int, y: int, fill: Rgba, strokeWidth: int, strokeFill: Option<Rgba>)

  datatype TextPlan = TextPlan(passes: seq<TextPass>, result: ImageInfo)

  /** The main text pass: with a stroke in the stroke colour (resolved at
      opacity 1.0) when the stroke width is positive, plain otherwise. */
  function MainPass(x: int, y: int, fill: Rgba, strokeWidth: int, strokeColor: Option<Rgba>)
    : (r: Result<TextPass, RenderError>)
    ensures strokeWidth > 0 && strokeColor.None? <==> r.Err?
    ensures r.Ok? ==> r.value.x == x && r.value.y == y && r.value.fill == fill
    ensures r.Ok? && strokeWidth > 0 ==>
      r.value.strokeWidth == strokeWidth && r.value.strokeFill == Some(ParseRgba(strokeColor, 1.0).value)
    ensures r.Ok? && strokeWidth <= 0 ==> r.value.strokeWidth == 0 && r.value.strokeFill.None?
  {
    if strokeWidth > 0 then
      match ParseRgba(strokeColor, 1.0)
      case Err(e) => Err(e)
      case Ok(s) => Ok(TextPass(x, y, fill, strokeWidth, Some(s)))
    else Ok(TextPass(x, y, fill, 0, None))
  }

  /** `draw_text_watermark`, given the measured box `textW` x `textH`: the
      passes drawn on the overlay, in order, and the returned image. The
      errors come in the source's order: position, fill colour, shadow
      colour (only with a shadow), stroke colour (only with a stroke). */
  function DrawTextWatermark(image: ImageInfo, textW: int, textH: int,
                             color: Option<Rgba>, opacity: real, position: string,
                             marginX: int, marginY: int,
                             strokeWidth: int, strokeColor: Option<Rgba>,
                             shadowOffset: (int, int), shadowColor: Option<Rgba>, shadowOpacity: real)
    : (r: Result<TextPlan, RenderError>)
    ensures r.Ok? <==>
      && Lower(position) in AnchorCodes && color.Some?
      && (shadowOffset != (0, 0) ==> shadowColor.Some?)
      && (strokeWidth > 0 ==> strokeColor.Some?)
    ensures Lower(position) !in AnchorCodes ==> r == Err(InvalidPosition(position))
    ensures Lower(position) in AnchorCodes && r.Err? ==> r == Err(InvalidColor)
    ensures r.Ok? ==> r.value.result == ResultImage(image)
    ensures r.Ok? ==> |r.value.passes| == (if shadowOffset != (0, 0) then 2 else 1)
  {
    match ComputeAnchorXY(image.width, image.height, textW, textH, position, marginX, marginY)
    case Err(e) => Err(e)
    case Ok(xy) =>
      match ParseRgba(color, opacity)
      case Err(e) => Err(e)
      case Ok(fill) =>
        var shadow: Result<seq<TextPass>, RenderError> :=
          if shadowOffset != (0, 0) then
            match ParseRgba(shadowColor, shadowOpacity)
            case Err(e) => Err(e)
            case Ok(s) =>
              Ok([TextPass(xy.0 + shadowOffset.0, xy.1 + shadowOffset.1, s, strokeWidth, Some(s))])
          else Ok([]);
        match shadow
        case Err(e) => Err(e)
        case Ok(before) =>
          match MainPass(xy.0, xy.1, fill, strokeWidth, strokeColor)
          case Err(e) => Err(e)
          case Ok(main) => Ok(TextPlan(before + [main], ResultImage(image)))
  }

  /** The last pass is the main text at the anchor of the measured box, in
      the fill colour resolved at `opacity`, with the stroke rule of
      `MainPass`. */
  lemma MainPassLast(image: ImageInfo, textW: int, textH: int,
                     color: Option<Rgba>, opacity: real, position: string,
                     marginX: int, marginY: int,
                     strokeWidth: int, strokeColor: Option<Rgba>,
                     shadowOffset: (int, int), shadowColor: Option<Rgba>, shadowOpacity: real)
    requires DrawTextWatermark(image, textW, textH, color, opacity, position, marginX, marginY,
                               strokeWidth, strokeColor, shadowOffset, shadowColor, shadowOpacity).Ok?
    ensures var plan := DrawTextWatermark(image, textW, textH, color, opacity, position, marginX, marginY,
                                          strokeWidth, strokeColor, shadowOffset, shadowColor, shadowOpacity).value;
      var xy := ComputeAnchorXY(image.width, image.height, textW, textH, position, marginX, marginY).value;
      var main := plan.passes[|plan.passes| - 1];
      && main.x == xy.0 && main.y == xy.1
      && main.fill == ParseRgba(color, opacity).value
      && (strokeWidth > 0 ==> main.strokeWidth == strokeWidth
                              && main.strokeFill == Some(ParseRgba(strokeColor, 1.0).value))
      && (strokeWidth <= 0 ==> main.strokeWidth == 0 && main.strokeFill.None?)
  {
  }

  /** A shadow pass is drawn exactly when the offset is not (0, 0); it comes
      first, at the anchor moved by the offset, in the shadow colour
      resolved at `shadowOpacity`, with the same stroke width and the
      shadow colour as its stroke fill. */
  lemma ShadowPassFirst(image: ImageInfo, textW: int, textH: int,
                        color: Option<Rgba>, opacity: real, position: string,
                        marginX: int, marginY: int,
                        strokeWidth: int, strokeColor: Option<Rgba>,
                        shadowOffset: (int, int), shadowColor: Option<Rgba>, shadowOpacity: real)
    requires shadowOffset != (0, 0)
    requires DrawTextWatermark(image, textW, textH, color, opacity, position, marginX, marginY,
                               strokeWidth, strokeColor, shadowOffset, shadowColor, shadowOpacity).Ok?
    ensures var plan := DrawTextWatermark(image, textW, textH, color, opacity, position, marginX, marginY,
                                          strokeWidth, strokeColor, shadowOffset, shadowColor, shadowOpacity).value;
      var xy := ComputeAnchorXY(image.width, image.height, textW, textH, position, marginX, marginY).value;
      var s := ParseRgba(shadowColor, shadowOpacity).value;
      plan.passes[0] == TextPass(xy.0 + shadowOffset.0, xy.1 + shadowOffset.1, s, strokeWidth, Some(s))
  {
  }

  /** The shadow offset does not move the main text: two plans that differ
      only in the shadow end with the same main pass. */
  lemma ShadowDoesNotMoveText(image: ImageInfo, textW: int, textH: int,
                              color: Option<Rgba>, opacity: real, position: string,
                              marginX: int, marginY: int,
                              strokeWidth: int, strokeColor: Option<Rgba>,
                              off1: (int, int), col1: Option<Rgba>, op1: real,
                              off2: (int, int), col2: Option<Rgba>, op2: real)
    requires DrawTextWatermark(image, textW, textH, color, opacity, position, marginX, marginY,
                               strokeWidth, strokeColor, off1, col1, op1).Ok?
    requires DrawTextWatermark(image, textW, textH, color, opacity, position, marginX, marginY,
                               strokeWidth, strokeColor, off2, col2, op2).Ok?
    ensures var p1 := DrawTextWatermark(image, textW, textH, color, opacity, position, marginX, marginY,
                                        strokeWidth, strokeColor, off1, col1, op1).value.passes;
      var p2 := DrawTextWatermark(image, textW, textH, color, opacity, position, marginX, marginY,
                                  strokeWidth, strokeColor, off2, col2, op2).value.passes;
      p1[|p1| - 1] == p2[|p2| - 1]
  {
  }

  // ---------------------------------------------------------------------
  // Image watermark

  /** `max(1, min(1000, int(scale_percent)))` */
  function ClampPercent(scalePercent: int): (p: int)
    ensures 1 <= p <= 1000
    ensures 1 <= scalePercent <= 1000 ==> p == scalePercent
  {
    Max(1, Min(1000, scalePercent))
  }

  /** Floor of a non-negative quotient, as a characterisation. */
  predicate IsFloorDiv(q: int, num: int, den: int)
    requires den > 0
  {
    q * den <= num < (q + 1) * den
  }

  lemma MulMonotone(u: real, v: real, c: real)
    requires c >= 0.0 && u <= v
    ensures u * c <= v * c
  {
  }

  lemma DivTimes(b: real, c: real)
    requires c != 0.0
    ensures (b / c) * c == b
  {
  }

  lemma MulAssoc(a: real, b: real, c: real)
    ensures (a * b) * c == a * (b * c)
  {
  }

  lemma CastMul(m: int, n: int)
    ensures (m * n) as real == (m as real) * (n as real)
  {
  }

  lemma CancelFactor(y: real, z: real, c: real)
    requires c != 0.0 && y * c == z * c
    ensures y == z
  {
  }

  /** `a * (b / c)` is `a*b / c` in exact arithmetic. */
  lemma RealQuotient(a: nat, b: nat, c: nat)
    requires c > 0
    ensures (a as real) * ((b as real) / (c as real)) == ((a * b) as real) / (c as real)
  {
    var ar, br, cr := a as real, b as real, c as real;
    var y := ar * (br / cr);
    var z := ((a * b) as real) / cr;
    DivTimes(br, cr);
    MulAssoc(ar, br / cr, cr);
    CastMul(a, b);
    DivTimes((a * b) as real, cr);
    CancelFactor(y, z, cr);
  }

  lemma DivAdd(u: real, v: real, c: real)
    requires c != 0.0
    ensures (u + v) / c == u / c + v / c
  {
  }

  lemma DivCancel(k: real, c: real)
    requires c != 0.0
    ensures (k * c) / c == k
  {
  }

  lemma FractionBelowOne(r: real, c: real)
    requires 0.0 <= r < c
    ensures 0.0 <= r / c < 1.0
  {
  }

  /** The floor of an exact quotient of naturals is their integer quotient. */
  lemma FloorOfQuotient(n: nat, c: nat)
    requires c > 0
    ensures ((n as real) / (c as real)).Floor == n / c
  {
    var k, r := n / c, n % c;
    var cr := c as real;
    CastMul(k, c);
    assert n as real == (k as real) * cr + r as real;
    DivAdd((k as real) * cr, r as real, cr);
    DivCancel(k as real, cr);
    FractionBelowOne(r as real, cr);
    assert (n as real) / cr == k as real + (r as real) / cr;
  }

  /** `int(a * (b / c))` for non-negative operands is the floor of a*b/c. */
  lemma FloorOfRatio(a: nat, b: nat, c: nat)
    requires c > 0
    ensures ((a as real) * ((b as real) / (c as real))).Floor == (a * b) / c
  {
    RealQuotient(a, b, c);
    FloorOfQuotient(a * b, c);
  }

  lemma IntMulMonotone(x: int, y: int, d: int)
    requires d > 0 && x <= y
    ensures x * d <= y * d
  {
  }

  lemma FloorDivBounds(q: int, n: int, d: int)
    requires d > 0 && n >= 0 && IsFloorDiv(q, n, d)
    ensures n >= d ==> q >= 1
    ensures n < d ==> q == 0
  {
    if q <= 0 {
      IntMulMonotone(q + 1, 1, d);
    } else {
      IntMulMonotone(1, q, d);
    }
    if q < 0 {
      IntMulMonotone(q + 1, 0, d);
    }
  }

  /** `int(a * (b / c))` in exact arithmetic, for non-negative operands:
      the integer quotient of a*b by c. */
  function RatioFloor(a: nat, b: nat, c: nat): (q: int)
    requires c > 0
    ensures q == (a * b) / c
    ensures IsFloorDiv(q, a * b, c)
    ensures a * b >= c ==> q >= 1
    ensures a * b < c ==> q == 0
  {
    FloorOfRatio(a, b, c);
    var q := ((a as real) * ((b as real) / (c as real))).Floor;
    FloorDivBounds(q, a * b, c);
    q
  }

  /** `max(1, int(width * (percent / 100.0)))` */
  function ScaledWidth(imgW: nat, percent: int): (w: int)
    requires 1 <= percent <= 1000
    ensures w >= 1
    ensures if imgW * percent >= 100 then IsFloorDiv(w, imgW * percent, 100) else w == 1
  {
    Max(1, RatioFloor(imgW, percent, 100))
  }

  /** `max(1, int(new_w * ratio))` with `ratio = wm.height / wm.width` */
  function ScaledHeight(w: nat, wmW: nat, wmH: nat): (h: int)
    requires wmW > 0
    ensures h >= 1
    ensures if w * wmH >= wmW then IsFloorDiv(h, w * wmH, wmW) else h == 1
  {
    Max(1, RatioFloor(w, wmH, wmW))
  }

  /** The scaled watermark size of `draw_image_watermark`: the width is
      `scale` percent of the image width, the height keeps the watermark's
      aspect ratio, both floored and at least 1. A watermark of width 0
      fails the ratio with a division by zero. */
  function WatermarkSize(imgW: nat, scalePercent: int, wmW: nat, wmH: nat): (r: Result<(int, int), RenderError>)
    ensures wmW == 0 <==> r == Err(ZeroDivision)
    ensures r.Ok? ==> r.value.0 >= 1 && r.value.1 >= 1
    ensures r.Ok? ==> r.value.0 == ScaledWidth(imgW, ClampPercent(scalePercent))
    ensures r.Ok? ==> r.value.1 == ScaledHeight(r.value.0, wmW, wmH)
  {
    if wmW == 0 then Err(ZeroDivision)
    else
      var w := ScaledWidth(imgW, ClampPercent(scalePercent));
      Ok((w, ScaledHeight(w, wmW, wmH)))
  }

  /** 20 percent of a 1000-pixel-wide image with a 2:1 watermark gives a
      200 x 100 layer. */
  lemma ScaleExample()
    ensures WatermarkSize(1000, 20, 400, 200) == Ok((200, 100))
  {
    var r := WatermarkSize(1000, 20, 400, 200).value;
    assert r.0 == 200;
  }

  lemma ProductInRange(p: real, o: real)
    requires p >= 0.0 && 0.0 <= o <= 1.0
    ensures 0.0 <= p * o <= p
  {
    MulMonotone(0.0, o, p);
    MulMonotone(o, 1.0, p);
  }

  /** `max(0.0, min(1.0, opacity))` */
  function ClampUnit(opacity: real): (o: real)
    ensures 0.0 <= o <= 1.0
    ensures 0.0 <= opacity <= 1.0 ==> o == opacity
    ensures opacity <= 0.0 ==> o == 0.0
  {
    if opacity < 0.0 then 0.0 else if opacity > 1.0 then 1.0 else opacity
  }

  /** The floor of `p * o` for a factor in [0, 1] lies between 0 and `p`. */
  lemma FloorProductBounds(p: nat, o: real)
    requires 0.0 <= o <= 1.0
    ensures 0 <= (p as real * o).Floor <= p
  {
    ProductInRange(p as real, o);
  }

  /** The new alpha of one pixel: `int(p * max(0.0, min(1.0, opacity)))`
      when `opacity < 1.0`, and `p` itself otherwise. */
  function ScaledAlpha(p: Channel, opacity: real): (q: Channel)
    ensures q <= p
    ensures opacity >= 1.0 ==> q == p
    ensures opacity <= 0.0 ==> q == 0
    ensures 0.0 <= opacity < 1.0 ==> q as real <= p as real * opacity < q as real + 1.0
  {
    if opacity < 1.0 then
      FloorProductBounds(p, ClampUnit(opacity));
      (p as real * ClampUnit(opacity)).Floor
    else p
  }

  lemma FloorMonotone(x: real, y: real)
    requires x <= y
    ensures x.Floor <= y.Floor
  {
  }

  /** Scaling alpha keeps the order of alphas, so a gradient stays a gradient. */
  lemma ScaledAlphaMonotone(p: Channel, q: Channel, opacity: real)
    requires p <= q
    ensures ScaledAlpha(p, opacity) <= ScaledAlpha(q, opacity)
  {
    if opacity < 1.0 {
      var o := ClampUnit(opacity);
      MulMonotone(p as real, q as real, o);
      FloorMonotone(p as real * o, q as real * o);
    }
  }

  /** The alpha channel after the opacity step, pixel by pixel. */
  function ScaledAlphas(alphas: seq<Channel>, opacity: real): (r: seq<Channel>)
    ensures |r| == |alphas|
    ensures forall i :: 0 <= i < |r| ==> r[i] == ScaledAlpha(alphas[i], opacity)
  {
    seq(|alphas|, i requires 0 <= i < |alphas| => ScaledAlpha(alphas[i], opacity))
  }

  /** The opacity step of `draw_image_watermark` (`alpha.point(...)` then
      `wm.putalpha(alpha)`), rewriting the watermark's alpha channel in
      place; it leaves the channel alone when `opacity >= 1.0`. */
  method ApplyOpacity(alpha: array<Channel>, opacity: real)
    modifies alpha
    ensures alpha[..] == ScaledAlphas(old(alpha[..]), opacity)
    ensures opacity >= 1.0 ==> alpha[..] == old(alpha[..])
  {
    if opacity < 1.0 {
      var i := 0;
      while i < alpha.Length
        invariant 0 <= i <= alpha.Length
        invariant forall k :: 0 <= k < i ==> alpha[k] == ScaledAlpha(old(alpha[k]), opacity)
        invariant forall k :: i <= k < alpha.Length ==> alpha[k] == old(alpha[k])
      {
        alpha[i] := ScaledAlpha(alpha[i], opacity);
        i := i + 1;
      }
    }
  }

  /** What `draw_image_watermark` does with the watermark: the scaled layer
      size, where it is pasted, and the returned image. */
  datatype ImagePlan = ImagePlan(layerW: int, layerH: int, x: int, y: int, result: ImageInfo)

  /** `draw_image_watermark` for a watermark image of size `wmW` x `wmH`.
      The ratio is computed before placement, so a zero-width watermark
      fails before a bad position is noticed. */
  function DrawImageWatermark(image: ImageInfo, wmW: nat, wmH: nat, scalePercent: int,
                              position: string, marginX: int, marginY: int)
    : (r: Result<ImagePlan, RenderError>)
    ensures wmW == 0 ==> r == Err(ZeroDivision)
    ensures wmW > 0 ==> (r.Ok? <==> Lower(position) in AnchorCodes)
    ensures r.Ok? ==> r.value.result == ResultImage(image)
    ensures r.Ok? ==> Ok((r.value.layerW, r.value.layerH)) == WatermarkSize(image.width, scalePercent, wmW, wmH)
    ensures r.Ok? ==>
      Ok((r.value.x, r.value.y)) == ComputeAnchorXY(image.width, image.height, r.value.layerW, r.value.layerH, position, marginX, marginY)
  {
    match WatermarkSize(image.width, scalePercent, wmW, wmH)
    case Err(e) => Err(e)
    case Ok(size) =>
      match ComputeAnchorXY(image.width, image.height, size.0, size.1, position, marginX, marginY)
      case Err(e) => Err(e)
      case Ok(xy) => Ok(ImagePlan(size.0, size.1, xy.0, xy.1, ResultImage(image)))
  }

  /** A watermark no wider than the image allows, within its margins, is
      pasted wholly inside the image. */
  lemma ImageWatermarkContained(image: ImageInfo, wmW: nat, wmH: nat, scalePercent: int,
                                position: string, marginX: int, marginY: int)
    requires DrawImageWatermark(image, wmW, wmH, scalePercent, position, marginX, marginY).Ok?
    requires marginX >= 0 && marginY >= 0
    requires var p := DrawImageWatermark(image, wmW, wmH, scalePercent, position, marginX, marginY).value;
      p.layerW + marginX <= image.width && p.layerH + marginY <= image.height
    ensures var p := DrawImageWatermark(image, wmW, wmH, scalePercent, position, marginX, marginY).value;
      0 <= p.x && p.x + p.layerW <= image.width && 0 <= p.y && p.y + p.layerH <= image.height
  {
    var p := DrawImageWatermark(image, wmW, wmH, scalePercent, position, marginX, marginY).value;
    AnchorContained(image.width, image.height, p.layerW, p.layerH, position, marginX, marginY);
  }
}
