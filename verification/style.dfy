/** The graph style `SnarlStyle` (src/ui.rs): every setting is optional, and
    each getter falls back to a documented default, some of them derived from
    the GUI toolkit's own style. Frames, background pattern and the selection
    colours (which need colour arithmetic on the toolkit's palette) are not
    modelled. */
module Style {
  import opened Basics
  import opened Layout
  import opened WireUi

  /** Where pins sit relative to the node frame. */
  datatype PinPlacement = Inside | Edge | Outside(margin: real)

  /** Whether wires are painted behind or above the nodes. */
  datatype WireLayer = BehindNodes | AboveNodes

  /** The parts of the GUI toolkit's style that defaults are derived from. */
  datatype GuiStyle = GuiStyle(interactSizeY: real, activeBgFill: Color32, activeBgStroke: Stroke, iconWidth: real)

  datatype SnarlStyle = SnarlStyle(
    nodeLayout: Option<NodeLayout>,
    pinSize: Option<real>,
    pinFill: Option<Color32>,
    pinStroke: Option<Stroke>,
    pinShape: Option<PinShape>,
    pinPlacement: Option<PinPlacement>,
    wireWidth: Option<real>,
    wireFrameSize: Option<real>,
    downscaleWireFrame: Option<bool>,
    upscaleWireFrame: Option<bool>,
    wireStyle: Option<WireStyle>,
    wireLayer: Option<WireLayer>,
    headerDragSpace: Option<Vec2>,
    collapsible: Option<bool>,
    minScale: Option<real>,
    maxScale: Option<real>,
    centering: Option<bool>,
    selectRectContained: Option<bool>,
    crispMagnifiedText: Option<bool>,
    wireSmoothness: Option<real>)

  /** `SnarlStyle::new`: nothing set. */
  function New(): (s: SnarlStyle)
    ensures s.nodeLayout.None? && s.pinSize.None? && s.pinFill.None? && s.pinStroke.None?
    ensures s.pinShape.None? && s.pinPlacement.None? && s.wireWidth.None? && s.wireFrameSize.None?
    ensures s.downscaleWireFrame.None? && s.upscaleWireFrame.None? && s.wireStyle.None?
    ensures s.wireLayer.None? && s.headerDragSpace.None? && s.collapsible.None?
    ensures s.minScale.None? && s.maxScale.None? && s.centering.None?
    ensures s.selectRectContained.None? && s.crispMagnifiedText.None? && s.wireSmoothness.None?
  {
    SnarlStyle(None, None, None, None, None, None, None, None, None, None,
               None, None, None, None, None, None, None, None, None, None)
  }

  /** `Option::unwrap_or`. */
  function UnwrapOr<X>(o: Option<X>, d: X): (r: X)
    ensures o.Some? ==> r == o.value
    ensures o.None? ==> r == d
  {
    if o.Some? then o.value else d
  }

  function GetNodeLayout(s: SnarlStyle): NodeLayout { UnwrapOr(s.nodeLayout, DefaultLayout) }

  /** Pins default to 60% of the toolkit's interaction height. */
  function GetPinSize(s: SnarlStyle, gui: GuiStyle): real { UnwrapOr(s.pinSize, gui.interactSizeY * 0.6) }

  function GetPinFill(s: SnarlStyle, gui: GuiStyle): Color32 { UnwrapOr(s.pinFill, gui.activeBgFill) }

  function GetPinStroke(s: SnarlStyle, gui: GuiStyle): Stroke { UnwrapOr(s.pinStroke, gui.activeBgStroke) }

  function GetPinShape(s: SnarlStyle): PinShape { UnwrapOr(s.pinShape, Circle) }

  function GetPinPlacement(s: SnarlStyle): PinPlacement { UnwrapOr(s.pinPlacement, Inside) }

  /** Wires default to a tenth of the pin size. */
  function GetWireWidth(s: SnarlStyle, gui: GuiStyle): real { UnwrapOr(s.wireWidth, GetPinSize(s, gui) * 0.1) }

  /** The wire frame defaults to three pin sizes. */
  function GetWireFrameSize(s: SnarlStyle, gui: GuiStyle): real { UnwrapOr(s.wireFrameSize, GetPinSize(s, gui) * 3.0) }

  function GetDownscaleWireFrame(s: SnarlStyle): bool { UnwrapOr(s.downscaleWireFrame, true) }

  function GetUpscaleWireFrame(s: SnarlStyle): bool { UnwrapOr(s.upscaleWireFrame, false) }

  function GetWireStyle(s: SnarlStyle): WireStyle { UnwrapOr(s.wireStyle, Bezier5) }

  function GetWireLayer(s: SnarlStyle): WireLayer { UnwrapOr(s.wireLayer, BehindNodes) }

  function GetHeaderDragSpace(s: SnarlStyle, gui: GuiStyle): Vec2 {
    UnwrapOr(s.headerDragSpace, Vec2(gui.iconWidth, gui.iconWidth))
  }

  function GetCollapsible(s: SnarlStyle): bool { UnwrapOr(s.collapsible, true) }

  function GetMinScale(s: SnarlStyle): real { UnwrapOr(s.minScale, 0.2) }

  function GetMaxScale(s: SnarlStyle): real { UnwrapOr(s.maxScale, 2.0) }

  function GetCentering(s: SnarlStyle): bool { UnwrapOr(s.centering, true) }

  function GetSelectRectContained(s: SnarlStyle): bool { UnwrapOr(s.selectRectContained, false) }

  function GetCrispMagnifiedText(s: SnarlStyle): bool { UnwrapOr(s.crispMagnifiedText, false) }

  function GetWireSmoothness(s: SnarlStyle): real { UnwrapOr(s.wireSmoothness, 1.0) }

  /** The defaults of an unconfigured style. */
  lemma NewStyleDefaults(gui: GuiStyle)
    ensures GetNodeLayout(New()) == NodeLayout(Coil, 0.0, false)
    ensures GetPinSize(New(), gui) == gui.interactSizeY * 0.6
    ensures GetPinFill(New(), gui) == gui.activeBgFill
    ensures GetPinStroke(New(), gui) == gui.activeBgStroke
    ensures GetPinShape(New()) == Circle && GetPinPlacement(New()) == Inside
    ensures GetWireWidth(New(), gui) == gui.interactSizeY * 0.06
    ensures GetWireFrameSize(New(), gui) == gui.interactSizeY * 1.8
    ensures GetDownscaleWireFrame(New()) && !GetUpscaleWireFrame(New())
    ensures GetWireStyle(New()) == Bezier5 && GetWireLayer(New()) == BehindNodes
    ensures GetHeaderDragSpace(New(), gui) == Vec2(gui.iconWidth, gui.iconWidth)
    ensures GetCollapsible(New()) && GetCentering(New())
    ensures GetMinScale(New()) == 0.2 && GetMaxScale(New()) == 2.0
    ensures !GetSelectRectContained(New()) && !GetCrispMagnifiedText(New())
    ensures GetWireSmoothness(New()) == 1.0
  {
  }

  /** Unless set explicitly, wire width and wire frame follow the pin size,
      whether that size was set or defaulted. */
  lemma WireSizesFollowPinSize(s: SnarlStyle, gui: GuiStyle)
    requires s.wireWidth.None? && s.wireFrameSize.None?
    ensures GetWireWidth(s, gui) == GetPinSize(s, gui) / 10.0
    ensures GetWireFrameSize(s, gui) == 30.0 * GetWireWidth(s, gui)
  {
  }

  /** A value that is set always wins over the default. */
  lemma SetValuesWin(s: SnarlStyle, gui: GuiStyle, size: real, shape: PinShape, ws: WireStyle)
    ensures GetPinSize(s.(pinSize := Some(size)), gui) == size
    ensures GetPinShape(s.(pinShape := Some(shape))) == shape
    ensures GetWireStyle(s.(wireStyle := Some(ws))) == ws
  {
  }
}
