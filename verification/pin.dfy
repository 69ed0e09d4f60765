/** Pin descriptions (src/ui/pin.rs): what a viewer says about one pin, every
    part optional, and how the missing parts are resolved from the graph
    style. Painting the pin shape is not modelled; `Draw` returns only the
    wire information it resolves. */
module Pin {
  import opened Basics
  import Graph
  import opened WireUi
  import Style

  /** Either kind of pin id. */
  datatype AnyPin = Out(outId: Graph.OutPinId) | In(inId: Graph.InPinId)

  /** What a wire attached to the pin should look like. */
  datatype PinWireInfo = PinWireInfo(color: Color32, style: WireStyle)

  /** `PinInfo`: every field optional; `position` is a custom vertical offset. */
  datatype PinInfo = PinInfo(
    shape: Option<PinShape>,
    fill: Option<Color32>,
    stroke: Option<Stroke>,
    wireColor: Option<Color32>,
    wireStyle: Option<WireStyle>,
    position: Option<real>)

  /** `PinInfo::default`: nothing set. */
  const Default: PinInfo := PinInfo(None, None, None, None, None, None)

  function WithShape(p: PinInfo, shape: PinShape): (r: PinInfo)
    ensures r.shape == Some(shape)
    ensures r.fill == p.fill && r.stroke == p.stroke && r.wireColor == p.wireColor
    ensures r.wireStyle == p.wireStyle && r.position == p.position
  {
    p.(shape := Some(shape))
  }

  function WithFill(p: PinInfo, fill: Color32): (r: PinInfo)
    ensures r.fill == Some(fill)
    ensures r.shape == p.shape && r.stroke == p.stroke && r.wireColor == p.wireColor
    ensures r.wireStyle == p.wireStyle && r.position == p.position
  {
    p.(fill := Some(fill))
  }

  function WithStroke(p: PinInfo, stroke: Stroke): (r: PinInfo)
    ensures r.stroke == Some(stroke)
    ensures r.shape == p.shape && r.fill == p.fill && r.wireColor == p.wireColor
    ensures r.wireStyle == p.wireStyle && r.position == p.position
  {
    p.(stroke := Some(stroke))
  }

  function WithWireStyle(p: PinInfo, ws: WireStyle): (r: PinInfo)
    ensures r.wireStyle == Some(ws)
    ensures r.shape == p.shape && r.fill == p.fill && r.stroke == p.stroke
    ensures r.wireColor == p.wireColor && r.position == p.position
  {
    p.(wireStyle := Some(ws))
  }

  function WithWireColor(p: PinInfo, color: Color32): (r: PinInfo)
    ensures r.wireColor == Some(color)
    ensures r.shape == p.shape && r.fill == p.fill && r.stroke == p.stroke
    ensures r.wireStyle == p.wireStyle && r.position == p.position
  {
    p.(wireColor := Some(color))
  }

  /** `circle`, `triangle`, `square` and `star`: a default pin with only its
      shape set. */
  function OfShape(shape: PinShape): (r: PinInfo)
    ensures r == WithShape(Default, shape)
    ensures r.shape == Some(shape) && r.fill.None? && r.stroke.None?
    ensures r.wireColor.None? && r.wireStyle.None? && r.position.None?
  {
    PinInfo(Some(shape), None, None, None, None, None)
  }

  function Circle(): (r: PinInfo) ensures r == WithShape(Default, PinShape.Circle) { OfShape(PinShape.Circle) }
  function Triangle(): (r: PinInfo) ensures r == WithShape(Default, PinShape.Triangle) { OfShape(PinShape.Triangle) }
  function Square(): (r: PinInfo) ensures r == WithShape(Default, PinShape.Square) { OfShape(PinShape.Square) }
  function Star(): (r: PinInfo) ensures r == WithShape(Default, PinShape.Star) { OfShape(PinShape.Star) }

  /** `get_shape`: the pin's own shape, else the style's. */
  function GetShape(p: PinInfo, s: Style.SnarlStyle): (r: PinShape)
    ensures p.shape.Some? ==> r == p.shape.value
    ensures p.shape.None? ==> r == Style.GetPinShape(s)
  {
    Style.UnwrapOr(p.shape, Style.GetPinShape(s))
  }

  /** `get_fill`: the pin's own fill, else the style's. */
  function GetFill(p: PinInfo, s: Style.SnarlStyle, gui: Style.GuiStyle): (r: Color32)
    ensures p.fill.Some? ==> r == p.fill.value
    ensures p.fill.None? ==> r == Style.GetPinFill(s, gui)
  {
    Style.UnwrapOr(p.fill, Style.GetPinFill(s, gui))
  }

  /** `get_stroke`: the pin's own stroke, else the style's. */
  function GetStroke(p: PinInfo, s: Style.SnarlStyle, gui: Style.GuiStyle): (r: Stroke)
    ensures p.stroke.Some? ==> r == p.stroke.value
    ensures p.stroke.None? ==> r == Style.GetPinStroke(s, gui)
  {
    Style.UnwrapOr(p.stroke, Style.GetPinStroke(s, gui))
  }

  /** The wire information `draw` returns: the wire colour falls back to the
      resolved fill, the wire style to the graph style's wire style. */
  function Draw(p: PinInfo, s: Style.SnarlStyle, gui: Style.GuiStyle): (r: PinWireInfo)
    ensures p.wireColor.Some? ==> r.color == p.wireColor.value
    ensures p.wireColor.None? ==> r.color == GetFill(p, s, gui)
    ensures p.wireStyle.Some? ==> r.style == p.wireStyle.value
    ensures p.wireStyle.None? ==> r.style == Style.GetWireStyle(s)
  {
    PinWireInfo(Style.UnwrapOr(p.wireColor, GetFill(p, s, gui)),
                Style.UnwrapOr(p.wireStyle, Style.GetWireStyle(s)))
  }

  /** A pin with nothing set, under an unconfigured style, draws its wire in
      the toolkit's active fill colour with the default quintic Bezier style. */
  lemma DrawDefaults(gui: Style.GuiStyle)
    ensures Draw(Default, Style.New(), gui) == PinWireInfo(gui.activeBgFill, Bezier5)
    ensures GetShape(Default, Style.New()) == PinShape.Circle
  {
    Style.NewStyleDefaults(gui);
  }

  /** A fill set on the pin colours its wire unless a wire colour overrides
      it, whichever order the two builders are applied in. */
  lemma FillColoursWire(p: PinInfo, s: Style.SnarlStyle, gui: Style.GuiStyle, fill: Color32, wire: Color32)
    ensures p.wireColor.None? ==> Draw(WithFill(p, fill), s, gui).color == fill
    ensures Draw(WithFill(WithWireColor(p, wire), fill), s, gui).color == wire
    ensures Draw(WithWireColor(WithFill(p, fill), wire), s, gui).color == wire
  {
  }

  /** The default `pin_rect`: a `size` by `size` square centred horizontally
      on `x` and vertically between `y0` and `y1`. */
  function PinRect(x: real, y0: real, y1: real, size: real): (r: Rect)
    ensures r.Center() == Pos2(x, (y0 + y1) / 2.0)
    ensures r.max.x - r.min.x == size && r.max.y - r.min.y == size
  {
    FromCenterSize(Pos2(x, (y0 + y1) * 0.5), size, size)
  }

  /** For a non-negative size the pin rectangle contains its centre, and for
      `size` no larger than the row it stays between `y0` and `y1`. */
  lemma PinRectInRow(x: real, y0: real, y1: real, size: real)
    requires 0.0 <= size <= y1 - y0
    ensures PinRect(x, y0, y1, size).Contains(Pos2(x, (y0 + y1) / 2.0))
    ensures y0 <= PinRect(x, y0, y1, size).min.y && PinRect(x, y0, y1, size).max.y <= y1
  {
  }
}
