/** The per-frame rules of the graph widget (src/ui.rs `show_snarl`,
    `draw_inputs`, `draw_outputs`, `draw_node`) lifted out of the GUI calls:
    what a pin press, a hover or a release does to the interaction state and
    the graph, which wires are drawn, how dragged nodes move, and how a
    rectangle selection ends. The viewer is the default one, so its edits
    are those of `Viewer`. The GUI's input (clicks, drags, modifiers, hovered
    items, recorded pin positions) arrives as parameters. A panic of the
    source is an outcome `None`. */
module Frame {
  import opened Basics
  import opened Seqs
  import opened Graph
  import opened State
  import Pin
  import Viewer
  import WireUi
  import Layout

  /** Keyboard modifiers held this frame. */
  datatype Modifiers = Modifiers(command: bool, shift: bool)

  // ---------------------------------------------------------------- release

  /** The `viewer.connect` calls a release makes: an input bundle dropped on
      an output pin connects that pin to each bundled input, in bundle order;
      an output bundle dropped on an input pin connects each bundled output
      to it; anything else connects nothing. */
  function DropConnects(bundle: Option<NewWires>, hovered: Option<Pin.AnyPin>): (r: seq<Wire>)
    ensures bundle.Some? && bundle.value.In? && hovered.Some? && hovered.value.Out? ==> (
      |r| == |bundle.value.ins|
      && forall k :: 0 <= k < |r| ==> r[k] == Wire(hovered.value.outId, bundle.value.ins[k]))
    ensures bundle.Some? && bundle.value.Out? && hovered.Some? && hovered.value.In? ==> (
      |r| == |bundle.value.outs|
      && forall k :: 0 <= k < |r| ==> r[k] == Wire(bundle.value.outs[k], hovered.value.inId))
    ensures bundle.None? || hovered.None? || (bundle.value.In? == hovered.value.In?) ==> r == []
  {
    if bundle.Some? && hovered.Some? then
      match bundle.value
      case In(ins) =>
        if hovered.value.Out? then seq(|ins|, k requires 0 <= k < |ins| => Wire(hovered.value.outId, ins[k]))
        else []
      case Out(outs) =>
        if hovered.value.In? then seq(|outs|, k requires 0 <= k < |outs| => Wire(outs[k], hovered.value.inId))
        else []
    else []
  }

  /** The release of a drag (`drag_released`): takes the bundle, returns the
      connections to propose, and, when it was dropped on empty graph space
      and the viewer has a dropped-wire menu, hands the bundle to the menu. */
  function ReleaseDrag(st: SnarlState, hovered: Option<Pin.AnyPin>, snarlHovered: bool, hasMenu: bool)
    : (r: (SnarlState, seq<Wire>))
    ensures !HasNewWires(st) ==> r == (st, [])
    ensures HasNewWires(st) ==> r.1 == DropConnects(st.newWires, hovered)
    ensures HasNewWires(st) ==> (r.0.dirty
      && r.0.newWires == (if hovered.None? && snarlHovered && hasMenu then st.newWires else None)
      && r.0.newWiresMenu == (r.0.newWires.Some? || st.newWiresMenu))
    ensures !HasNewWires(r.0)
    ensures r.0.drawOrder == st.drawOrder && r.0.selectedNodes == st.selectedNodes
  {
    var (st1, taken) := TakeNewWires(st);
    var connects := DropConnects(taken, hovered);
    if taken.Some? && hovered.None? && snarlHovered && hasMenu then
      (SetNewWiresMenu(st1, taken.value), connects)
    else (st1, connects)
  }

  /** Every wire in the list names live nodes. */
  ghost predicate Connectable<T>(g: Snarl<T>, ws: seq<Wire>) {
    forall k :: 0 <= k < |ws| ==> ws[k].outPin.node in g.nodes && ws[k].inPin.node in g.nodes
  }

  /** The proposed connections passed, in order, to the default viewer. */
  function ApplyConnects<T>(g: Snarl<T>, ws: seq<Wire>): (r: Snarl<T>)
    requires Connectable(g, ws)
    ensures r.nodes == g.nodes
    ensures forall w :: w in r.wires <==> w in g.wires || w in ws
    decreases |ws|
  {
    if |ws| == 0 then g
    else
      var g1 := Viewer.Connect(g, OutPinNew(g, ws[0].outPin), InPinNew(g, ws[0].inPin));
      var r := ApplyConnects(g1, ws[1..]);
      assert forall w :: w in ws <==> w == ws[0] || w in ws[1..];
      r
  }

  /** An input bundle dropped on an output pin wires that pin to every
      bundled input, and nothing else changes. */
  lemma DropInBundleOnOutput<T>(st: SnarlState, g: Snarl<T>, o: OutPinId, snarlHovered: bool, hasMenu: bool)
    requires HasNewWiresIn(st)
    requires o.node in g.nodes && forall i :: i in st.newWires.value.ins ==> i.node in g.nodes
    ensures var (st1, ws) := ReleaseDrag(st, Some(Pin.AnyPin.Out(o)), snarlHovered, hasMenu);
      Connectable(g, ws) && st1.newWires.None?
      && forall w :: w in ApplyConnects(g, ws).wires <==>
        w in g.wires || (w.outPin == o && w.inPin in st.newWires.value.ins)
  {
    var (st1, ws) := ReleaseDrag(st, Some(Pin.AnyPin.Out(o)), snarlHovered, hasMenu);
    var ins := st.newWires.value.ins;
    assert forall w :: w in ws <==> w.outPin == o && w.inPin in ins by {
      forall w ensures w in ws <==> w.outPin == o && w.inPin in ins {
        if w.outPin == o && w.inPin in ins {
          var k :| 0 <= k < |ins| && ins[k] == w.inPin;
          assert ws[k] == w;
        }
      }
    }
  }

  /** An output bundle dropped on an input pin wires every bundled output to
      that pin, and nothing else changes. */
  lemma DropOutBundleOnInput<T>(st: SnarlState, g: Snarl<T>, i: InPinId, snarlHovered: bool, hasMenu: bool)
    requires HasNewWiresOut(st)
    requires i.node in g.nodes && forall o :: o in st.newWires.value.outs ==> o.node in g.nodes
    ensures var (st1, ws) := ReleaseDrag(st, Some(Pin.AnyPin.In(i)), snarlHovered, hasMenu);
      Connectable(g, ws) && st1.newWires.None?
      && forall w :: w in ApplyConnects(g, ws).wires <==>
        w in g.wires || (w.inPin == i && w.outPin in st.newWires.value.outs)
  {
    var (st1, ws) := ReleaseDrag(st, Some(Pin.AnyPin.In(i)), snarlHovered, hasMenu);
    var outs := st.newWires.value.outs;
    assert forall w :: w in ws <==> w.inPin == i && w.outPin in outs by {
      forall w ensures w in ws <==> w.inPin == i && w.outPin in outs {
        if w.inPin == i && w.outPin in outs {
          var k :| 0 <= k < |outs| && outs[k] == w.outPin;
          assert ws[k] == w;
        }
      }
    }
  }

  // ---------------------------------------------------------------- input pins

  /** What one pin's handling leaves behind: state, graph, whether a drag
      ended on it, and whether it is hovered. */
  datatype PinFrame<T> = PinFrame(st: SnarlState, g: Snarl<T>, dragReleased: bool, hovered: bool)

  /** The pin's response this frame. */
  datatype PinEvents = PinEvents(secondaryClick: bool, dragStarted: bool, dragStopped: bool, hovered: bool)

  /** A secondary click on an input pin: while dragging, the pin leaves the
      bundle (`remove_new_wire_in` panics on an output bundle); otherwise the
      viewer drops the pin's wires. */
  function InputClick<T>(st: SnarlState, g: Snarl<T>, pin: InPinId): (r: Option<(SnarlState, Snarl<T>)>)
    requires pin.node in g.nodes
    ensures r.None? <==> HasNewWiresOut(st)
    ensures HasNewWiresIn(st) ==> (r.Some? && r.value.1 == g && HasNewWiresIn(r.value.0)
      && (NoDup(st.newWires.value.ins) ==> forall p :: p in r.value.0.newWires.value.ins <==>
        p in st.newWires.value.ins && p != pin))
    ensures !HasNewWires(st) ==> (r.Some? && r.value.0 == st && r.value.1.nodes == g.nodes
      && forall w :: w in r.value.1.wires <==> w in g.wires && w.inPin != pin)
  {
    if HasNewWires(st) then
      if HasNewWiresIn(st) then Some((RemoveNewWireIn(st, pin), g)) else None
    else Some((st, Viewer.DropInputs(g, InPinNew(g, pin))))
  }

  /** A primary drag starting on an input pin. With command it "yanks" the
      pin's wires: a new output bundle from the pin's remotes (the list
      collected when the node was laid out) and, unless shift is held too,
      the pin's wires are dropped right away. Otherwise a new input bundle
      starts from the pin. */
  function InputDragStart<T>(st: SnarlState, g: Snarl<T>, pin: InPinId, mods: Modifiers,
                             remotes: seq<OutPinId>): (r: (SnarlState, Snarl<T>))
    requires pin.node in g.nodes
    ensures mods.command ==> NewWiresView(r.0) == Some(Out(remotes)) && r.0.dirty
    ensures mods.command && !mods.shift ==> (r.1.nodes == g.nodes
      && forall w :: w in r.1.wires <==> w in g.wires && w.inPin != pin)
    ensures mods.command && mods.shift ==> r.1 == g
    ensures !mods.command ==> NewWiresView(r.0) == Some(In([pin])) && r.0.dirty && r.1 == g
    ensures r.0.drawOrder == st.drawOrder && r.0.selectedNodes == st.selectedNodes
  {
    if mods.command then
      var st1 := StartNewWiresOut(st, remotes);
      if !mods.shift then (st1, Graph.DropInputs(g, pin).0) else (st1, g)
    else (StartNewWireIn(st, pin), g)
  }

  /** Hovering an input pin during an input-bundle drag: shift alone adds
      it, command alone removes it. */
  function InputHover(st: SnarlState, pin: InPinId, mods: Modifiers): (r: SnarlState)
    ensures !HasNewWiresIn(st) || mods.shift == mods.command ==> r == st
    ensures HasNewWiresIn(r) <==> HasNewWiresIn(st)
    ensures HasNewWiresIn(st) && mods.shift && !mods.command ==> (
      pin in r.newWires.value.ins
      && forall p :: p in r.newWires.value.ins <==> p in st.newWires.value.ins || p == pin)
    ensures HasNewWiresIn(st) && !mods.shift && mods.command && NoDup(st.newWires.value.ins) ==> (
      forall p :: p in r.newWires.value.ins <==> p in st.newWires.value.ins && p != pin)
  {
    if HasNewWiresIn(st) then
      if mods.shift && !mods.command then AddNewWireIn(st, pin)
      else if !mods.shift && mods.command then RemoveNewWireIn(st, pin)
      else st
    else st
  }

  /** One input pin's handling, in the source's order: secondary click, drag
      start, drag end, hover. */
  function InputPin<T>(st: SnarlState, g: Snarl<T>, pin: InPinId, ev: PinEvents, mods: Modifiers,
                       remotes: seq<OutPinId>): (r: Option<PinFrame<T>>)
    requires pin.node in g.nodes
    ensures r.None? <==> ev.secondaryClick && HasNewWiresOut(st)
    ensures r.Some? ==> (r.value.dragReleased == ev.dragStopped && r.value.hovered == ev.hovered
      && r.value.g.nodes == g.nodes && r.value.g.wires <= g.wires)
    ensures !ev.secondaryClick && !ev.dragStarted && !ev.hovered ==> r == Some(PinFrame(st, g, ev.dragStopped, false))
  {
    var clicked := if ev.secondaryClick then InputClick(st, g, pin) else Some((st, g));
    if clicked.None? then None
    else
      var (st1, g1) := clicked.value;
      var (st2, g2) := if ev.dragStarted then InputDragStart(st1, g1, pin, mods, remotes) else (st1, g1);
      var st3 := if ev.hovered then InputHover(st2, pin, mods) else st2;
      Some(PinFrame(st3, g2, ev.dragStopped, ev.hovered))
  }

  /** A yank followed by a release back onto the same input pin puts every
      wire back: the bundle holds the pin's former remotes, and the release
      reconnects each of them. */
  lemma YankAndReleaseRestores<T>(st: SnarlState, g: Snarl<T>, pin: InPinId, remotes: seq<OutPinId>,
                                  snarlHovered: bool, hasMenu: bool)
    requires Valid(g) && pin.node in g.nodes
    requires forall o :: o in remotes <==> Wire(o, pin) in g.wires
    ensures var (st1, g1) := InputDragStart(st, g, pin, Modifiers(true, false), remotes);
      var (st2, ws) := ReleaseDrag(st1, Some(Pin.AnyPin.In(pin)), snarlHovered, hasMenu);
      Connectable(g1, ws) && ApplyConnects(g1, ws) == g && st2.newWires.None?
  {
    var (st1, g1) := InputDragStart(st, g, pin, Modifiers(true, false), remotes);
    var (st2, ws) := ReleaseDrag(st1, Some(Pin.AnyPin.In(pin)), snarlHovered, hasMenu);
    assert HasNewWiresOut(st1);
    assert forall k :: 0 <= k < |ws| ==> ws[k] == Wire(remotes[k], pin);
    assert Connectable(g1, ws) by {
      forall k | 0 <= k < |ws| ensures ws[k].outPin.node in g1.nodes {
        assert remotes[k] in remotes;
        assert Wire(remotes[k], pin) in g.wires;
      }
    }
    var r := ApplyConnects(g1, ws);
    forall w ensures w in r.wires <==> w in g.wires {
      if w in g.wires && w.inPin == pin {
        var k :| 0 <= k < |remotes| && remotes[k] == w.outPin;
        assert ws[k] == w;
      }
    }
  }

  // ---------------------------------------------------------------- output pins

  /** A secondary click on an output pin, the twin of `InputClick`. */
  function OutputClick<T>(st: SnarlState, g: Snarl<T>, pin: OutPinId): (r: Option<(SnarlState, Snarl<T>)>)
    requires pin.node in g.nodes
    ensures r.None? <==> HasNewWiresIn(st)
    ensures HasNewWiresOut(st) ==> (r.Some? && r.value.1 == g && HasNewWiresOut(r.value.0)
      && (NoDup(st.newWires.value.outs) ==> forall p :: p in r.value.0.newWires.value.outs <==>
        p in st.newWires.value.outs && p != pin))
    ensures !HasNewWires(st) ==> (r.Some? && r.value.0 == st && r.value.1.nodes == g.nodes
      && forall w :: w in r.value.1.wires <==> w in g.wires && w.outPin != pin)
  {
    if HasNewWires(st) then
      if HasNewWiresOut(st) then Some((RemoveNewWireOut(st, pin), g)) else None
    else Some((st, Viewer.DropOutputs(g, OutPinNew(g, pin))))
  }

  /** A primary drag starting on an output pin, the twin of `InputDragStart`. */
  function OutputDragStart<T>(st: SnarlState, g: Snarl<T>, pin: OutPinId, mods: Modifiers,
                              remotes: seq<InPinId>): (r: (SnarlState, Snarl<T>))
    requires pin.node in g.nodes
    ensures mods.command ==> NewWiresView(r.0) == Some(In(remotes)) && r.0.dirty
    ensures mods.command && !mods.shift ==> (r.1.nodes == g.nodes
      && forall w :: w in r.1.wires <==> w in g.wires && w.outPin != pin)
    ensures mods.command && mods.shift ==> r.1 == g
    ensures !mods.command ==> NewWiresView(r.0) == Some(Out([pin])) && r.0.dirty && r.1 == g
    ensures r.0.drawOrder == st.drawOrder && r.0.selectedNodes == st.selectedNodes
  {
    if mods.command then
      var st1 := StartNewWiresIn(st, remotes);
      if !mods.shift then (st1, Graph.DropOutputs(g, pin).0) else (st1, g)
    else (StartNewWireOut(st, pin), g)
  }

  /** Hovering an output pin during an output-bundle drag, the twin of `InputHover`. */
  function OutputHover(st: SnarlState, pin: OutPinId, mods: Modifiers): (r: SnarlState)
    ensures !HasNewWiresOut(st) || mods.shift == mods.command ==> r == st
    ensures HasNewWiresOut(r) <==> HasNewWiresOut(st)
    ensures HasNewWiresOut(st) && mods.shift && !mods.command ==> (
      pin in r.newWires.value.outs
      && forall p :: p in r.newWires.value.outs <==> p in st.newWires.value.outs || p == pin)
    ensures HasNewWiresOut(st) && !mods.shift && mods.command && NoDup(st.newWires.value.outs) ==> (
      forall p :: p in r.newWires.value.outs <==> p in st.newWires.value.outs && p != pin)
  {
    if HasNewWiresOut(st) then
      if mods.shift && !mods.command then AddNewWireOut(st, pin)
      else if !mods.shift && mods.command then RemoveNewWireOut(st, pin)
      else st
    else st
  }

  /** One output pin's handling, the twin of `InputPin`. */
  function OutputPin<T>(st: SnarlState, g: Snarl<T>, pin: OutPinId, ev: PinEvents, mods: Modifiers,
                        remotes: seq<InPinId>): (r: Option<PinFrame<T>>)
    requires pin.node in g.nodes
    ensures r.None? <==> ev.secondaryClick && HasNewWiresIn(st)
    ensures r.Some? ==> (r.value.dragReleased == ev.dragStopped && r.value.hovered == ev.hovered
      && r.value.g.nodes == g.nodes && r.value.g.wires <= g.wires)
    ensures !ev.secondaryClick && !ev.dragStarted && !ev.hovered ==> r == Some(PinFrame(st, g, ev.dragStopped, false))
  {
    var clicked := if ev.secondaryClick then OutputClick(st, g, pin) else Some((st, g));
    if clicked.None? then None
    else
      var (st1, g1) := clicked.value;
      var (st2, g2) := if ev.dragStarted then OutputDragStart(st1, g1, pin, mods, remotes) else (st1, g1);
      var st3 := if ev.hovered then OutputHover(st2, pin, mods) else st2;
      Some(PinFrame(st3, g2, ev.dragStopped, ev.hovered))
  }

  /** A yank from an output pin released back onto it puts every wire back. */
  lemma OutputYankAndReleaseRestores<T>(st: SnarlState, g: Snarl<T>, pin: OutPinId, remotes: seq<InPinId>,
                                        snarlHovered: bool, hasMenu: bool)
    requires Valid(g) && pin.node in g.nodes
    requires forall i :: i in remotes <==> Wire(pin, i) in g.wires
    ensures var (st1, g1) := OutputDragStart(st, g, pin, Modifiers(true, false), remotes);
      var (st2, ws) := ReleaseDrag(st1, Some(Pin.AnyPin.Out(pin)), snarlHovered, hasMenu);
      Connectable(g1, ws) && ApplyConnects(g1, ws) == g && st2.newWires.None?
  {
    var (st1, g1) := OutputDragStart(st, g, pin, Modifiers(true, false), remotes);
    var (st2, ws) := ReleaseDrag(st1, Some(Pin.AnyPin.Out(pin)), snarlHovered, hasMenu);
    assert HasNewWiresIn(st1);
    assert forall k :: 0 <= k < |ws| ==> ws[k] == Wire(pin, remotes[k]);
    assert Connectable(g1, ws) by {
      forall k | 0 <= k < |ws| ensures ws[k].inPin.node in g1.nodes {
        assert remotes[k] in remotes;
        assert Wire(pin, remotes[k]) in g.wires;
      }
    }
    var r := ApplyConnects(g1, ws);
    forall w ensures w in r.wires <==> w in g.wires {
      if w in g.wires && w.outPin == pin {
        var k :| 0 <= k < |remotes| && remotes[k] == w.inPin;
        assert ws[k] == w;
      }
    }
  }

  // ---------------------------------------------------------------- wires

  /** Where a pin was drawn this frame and how its wires want to look. */
  datatype PinResponse = PinResponse(pos: Pos2, wireColor: Color32, wireStyle: WireUi.WireStyle)

  /** The wires drawn and hit-tested: those whose two pins were both drawn
      this frame. The others are skipped, not removed. */
  function DrawnWires(wires: set<Wire>, outputInfo: map<OutPinId, PinResponse>,
                      inputInfo: map<InPinId, PinResponse>): (r: set<Wire>)
    ensures forall w :: w in r <==> w in wires && w.outPin in outputInfo && w.inPin in inputInfo
  {
    set w | w in wires && w.outPin in outputInfo && w.inPin in inputInfo
  }

  /** A drawn wire's colour mixes its ends' colours and its style merges
      their styles. */
  function WireLook(from: PinResponse, to: PinResponse): (r: (Color32, WireUi.WireStyle))
    ensures r.0 == Layout.MixColors(from.wireColor, to.wireColor)
    ensures r.1 == WireUi.PickWireStyle(from.wireStyle, to.wireStyle)
  {
    (Layout.MixColors(from.wireColor, to.wireColor), WireUi.PickWireStyle(from.wireStyle, to.wireStyle))
  }

  /** A wire looks the same whichever end is taken as its start, and a wire
      between two pins asking for the same look gets exactly that look. */
  lemma WireLookSymmetric(a: PinResponse, b: PinResponse)
    ensures WireLook(a, b) == WireLook(b, a)
    ensures a.wireColor == b.wireColor && a.wireStyle == b.wireStyle ==> WireLook(a, b) == (a.wireColor, a.wireStyle)
  {
    Layout.MixColorsLaws(a.wireColor, b.wireColor);
    WireUi.PickCommutativeIdempotent(a.wireStyle, b.wireStyle);
  }

  /** A hovered wire clicked this frame is proposed for disconnection. */
  function HoveredWireClick<T>(g: Snarl<T>, hovered: Option<Wire>, clicked: bool): (r: Snarl<T>)
    requires Valid(g) && (hovered.Some? ==> hovered.value in g.wires)
    ensures clicked && hovered.Some? ==> r.nodes == g.nodes && r.wires == g.wires - {hovered.value}
    ensures !(clicked && hovered.Some?) ==> r == g
  {
    if clicked && hovered.Some? then
      var w := hovered.value;
      Viewer.Disconnect(g, OutPinNew(g, w.outPin), InPinNew(g, w.inPin))
    else g
  }

  /** The end positions of the wires being dragged, as the source computes
      them: each bundled pin's recorded position is looked up by indexing,
      which panics (`None`) for a pin not drawn this frame. */
  function NewWireEndsAsWritten(bundle: NewWires, outputInfo: map<OutPinId, PinResponse>,
                                inputInfo: map<InPinId, PinResponse>): (r: Option<seq<Pos2>>)
    ensures r.None? <==> ((bundle.In? && exists p :: p in bundle.ins && p !in inputInfo)
                         || (bundle.Out? && exists p :: p in bundle.outs && p !in outputInfo))
    ensures r.Some? && bundle.In? ==> (|r.value| == |bundle.ins|
      && forall k :: 0 <= k < |r.value| ==> r.value[k] == inputInfo[bundle.ins[k]].pos)
    ensures r.Some? && bundle.Out? ==> (|r.value| == |bundle.outs|
      && forall k :: 0 <= k < |r.value| ==> r.value[k] == outputInfo[bundle.outs[k]].pos)
  {
    match bundle
    case In(ins) =>
      if forall p :: p in ins ==> p in inputInfo then
        Some(seq(|ins|, k requires 0 <= k < |ins| => inputInfo[ins[k]].pos))
      else None
    case Out(outs) =>
      if forall p :: p in outs ==> p in outputInfo then
        Some(seq(|outs|, k requires 0 <= k < |outs| => outputInfo[outs[k]].pos))
      else None
  }

  /** A yank from an input pin whose wire comes from an output the node no
      longer draws (or from a node not drawn this frame) puts an unrecorded
      pin in the bundle, and drawing the bundle then panics. */
  lemma NewWireEndsPanic(pin: OutPinId)
    ensures NewWireEndsAsWritten(Out([pin]), map[], map[]).None?
  {
    assert pin in [pin];
  }

  /** The end positions of the wires being dragged, skipping pins without a
      recorded position as the wire loop does. */
  function NewWireEnds(bundle: NewWires, outputInfo: map<OutPinId, PinResponse>,
                       inputInfo: map<InPinId, PinResponse>): (r: seq<Pos2>)
    ensures bundle.In? ==> r == RecordedIn(bundle.ins, inputInfo)
    ensures bundle.Out? ==> r == RecordedOut(bundle.outs, outputInfo)
  {
    match bundle
    case In(ins) => RecordedIn(ins, inputInfo)
    case Out(outs) => RecordedOut(outs, outputInfo)
  }

  /** The recorded positions of the input pins that have one, in the pins' order (see `RecordedInAppend`). */
  function RecordedIn(pins: seq<InPinId>, info: map<InPinId, PinResponse>): (r: seq<Pos2>)
    ensures |r| <= |pins|
    ensures forall p :: p in pins && p in info ==> info[p].pos in r
    ensures forall q :: q in r ==> exists p :: p in pins && p in info && info[p].pos == q
    ensures (forall p :: p in pins ==> p in info) ==> |r| == |pins|
  {
    if |pins| == 0 then []
    else
      var rest := RecordedIn(pins[1..], info);
      assert forall p :: p in pins <==> p == pins[0] || p in pins[1..];
      if pins[0] in info then [info[pins[0]].pos] + rest else rest
  }

  /** The recorded positions of the output pins that have one, in the pins' order (see `RecordedOutAppend`). */
  function RecordedOut(pins: seq<OutPinId>, info: map<OutPinId, PinResponse>): (r: seq<Pos2>)
    ensures |r| <= |pins|
    ensures forall p :: p in pins && p in info ==> info[p].pos in r
    ensures forall q :: q in r ==> exists p :: p in pins && p in info && info[p].pos == q
    ensures (forall p :: p in pins ==> p in info) ==> |r| == |pins|
  {
    if |pins| == 0 then []
    else
      var rest := RecordedOut(pins[1..], info);
      assert forall p :: p in pins <==> p == pins[0] || p in pins[1..];
      if pins[0] in info then [info[pins[0]].pos] + rest else rest
  }

  /** The positions keep the pins' order: recording a concatenation is
      concatenating the recordings. */
  lemma {:induction false} RecordedInAppend(a: seq<InPinId>, b: seq<InPinId>, info: map<InPinId, PinResponse>)
    ensures RecordedIn(a + b, info) == RecordedIn(a, info) + RecordedIn(b, info)
    decreases |a|
  {
    if |a| > 0 {
      assert (a + b)[0] == a[0] && (a + b)[1..] == a[1..] + b;
      RecordedInAppend(a[1..], b, info);
    } else {
      assert a + b == b;
    }
  }

  /** `RecordedInAppend` for output pins. */
  lemma {:induction false} RecordedOutAppend(a: seq<OutPinId>, b: seq<OutPinId>, info: map<OutPinId, PinResponse>)
    ensures RecordedOut(a + b, info) == RecordedOut(a, info) + RecordedOut(b, info)
    decreases |a|
  {
    if |a| > 0 {
      assert (a + b)[0] == a[0] && (a + b)[1..] == a[1..] + b;
      RecordedOutAppend(a[1..], b, info);
    } else {
      assert a + b == b;
    }
  }

  /** Where every bundled pin was drawn, the corrected drawing agrees with
      the source's. */
  lemma {:induction false} NewWireEndsAgree(bundle: NewWires, outputInfo: map<OutPinId, PinResponse>,
                                            inputInfo: map<InPinId, PinResponse>)
    requires NewWireEndsAsWritten(bundle, outputInfo, inputInfo).Some?
    ensures NewWireEndsAsWritten(bundle, outputInfo, inputInfo).value == NewWireEnds(bundle, outputInfo, inputInfo)
  {
    match bundle
    case In(ins) => RecordedInAll(ins, inputInfo);
    case Out(outs) => RecordedOutAll(outs, outputInfo);
  }

  lemma {:induction false} RecordedInAll(pins: seq<InPinId>, info: map<InPinId, PinResponse>)
    requires forall p :: p in pins ==> p in info
    ensures forall k :: 0 <= k < |pins| ==> RecordedIn(pins, info)[k] == info[pins[k]].pos
  {
    if |pins| > 0 {
      RecordedInAll(pins[1..], info);
      assert forall k :: 1 <= k < |pins| ==> pins[k] == pins[1..][k - 1];
    }
  }

  lemma {:induction false} RecordedOutAll(pins: seq<OutPinId>, info: map<OutPinId, PinResponse>)
    requires forall p :: p in pins ==> p in info
    ensures forall k :: 0 <= k < |pins| ==> RecordedOut(pins, info)[k] == info[pins[k]].pos
  {
    if |pins| > 0 {
      RecordedOutAll(pins[1..], info);
      assert forall k :: 1 <= k < |pins| ==> pins[k] == pins[1..][k - 1];
    }
  }

  // ---------------------------------------------------------------- nodes

  /** `node.pos += delta` for each listed node, in order; indexing a vacant
      slot panics (`None`). */
  function MoveAll<T>(nodes: map<NodeId, Node<T>>, ids: seq<NodeId>, delta: Vec2): (r: Option<map<NodeId, Node<T>>>)
    ensures r.Some? <==> forall k :: 0 <= k < |ids| ==> ids[k] in nodes
    ensures r.Some? ==> r.value.Keys == nodes.Keys
    ensures r.Some? && NoDup(ids) ==> forall n :: n in nodes ==>
      r.value[n] == (if n in ids then nodes[n].(pos := Add(nodes[n].pos, delta)) else nodes[n])
    decreases |ids|
  {
    if |ids| == 0 then Some(nodes)
    else if ids[0] !in nodes then None
    else
      var n0 := ids[0];
      var moved := nodes[n0 := nodes[n0].(pos := Add(nodes[n0].pos, delta))];
      var r := MoveAll(moved, ids[1..], delta);
      assert forall k :: 1 <= k < |ids| ==> ids[k] == ids[1..][k - 1];
      assert forall k :: 0 <= k < |ids[1..]| ==> ids[1..][k] == ids[k + 1];
      assert forall n :: n in ids <==> n == n0 || n in ids[1..];
      assert NoDup(ids) ==> n0 !in ids[1..];
      r
  }

  /** The end of a node drag: if the dragged node is still live, every
      selected node moves when it is selected, else just it; a dead node
      moves nothing. */
  function MoveNode<T>(g: Snarl<T>, selected: seq<NodeId>, node: NodeId, delta: Vec2): (r: Option<Snarl<T>>)
    ensures node !in g.nodes ==> r == Some(g)
    ensures r.None? <==> node in g.nodes && node in selected && exists k :: 0 <= k < |selected| && selected[k] !in g.nodes
    ensures r.Some? ==> r.value.wires == g.wires && r.value.nodes.Keys == g.nodes.Keys
    ensures node in g.nodes && node !in selected ==> (
      r == Some(g.(nodes := g.nodes[node := g.nodes[node].(pos := Add(g.nodes[node].pos, delta))])))
    ensures node in g.nodes && node in selected && NoDup(selected) && r.Some? ==> (
      forall n :: n in g.nodes ==> r.value.nodes[n].pos == (if n in selected then Add(g.nodes[n].pos, delta) else g.nodes[n].pos))
  {
    if node !in g.nodes then Some(g)
    else if node in selected then
      match MoveAll(g.nodes, selected, delta)
      case None => None
      case Some(nodes) => Some(g.(nodes := nodes))
    else Some(g.(nodes := g.nodes[node := g.nodes[node].(pos := Add(g.nodes[node].pos, delta))]))
  }

  /** The selection loaded at the start of a frame holds only live nodes,
      so a drag at the end of a frame that removed no node cannot panic. */
  lemma MoveAfterLoad<T>(m: Memory, g: Snarl<T>, initial: TSTransform, node: NodeId, delta: Vec2)
    ensures MoveNode(g, Load(m, g, initial).selectedNodes, node, delta).Some?
  {
    var sel := Load(m, g, initial).selectedNodes;
    assert forall k :: 0 <= k < |sel| ==> sel[k] in sel;
  }

  /** A node is raised to the top only while it is live. */
  function RaiseIfLive<T>(st: SnarlState, g: Snarl<T>, node: NodeId): (r: SnarlState)
    ensures node !in g.nodes ==> r == st
    ensures node in g.nodes && node in st.drawOrder ==> (|r.drawOrder| == |st.drawOrder|
      && r.drawOrder[|r.drawOrder| - 1] == node
      && multiset(r.drawOrder) == multiset(st.drawOrder))
    ensures r.selectedNodes == st.selectedNodes
  {
    if node in g.nodes then NodeToTop(st, node) else st
  }

  /** A primary click or drag on a node frame: with shift the node is added
      to the selection (with command too, it becomes the whole selection),
      with command alone it is deselected. */
  function NodePress(st: SnarlState, node: NodeId, mods: Modifiers): (r: SnarlState)
    ensures mods.shift && mods.command ==> r.selectedNodes == [node]
    ensures mods.shift && !mods.command ==> (node in r.selectedNodes
      && forall n :: n in r.selectedNodes <==> n in st.selectedNodes || n == node)
    ensures !mods.shift && mods.command && NoDup(st.selectedNodes) ==> (node !in r.selectedNodes
      && r.selectedNodes == KeepOut(st.selectedNodes, {node}))
    ensures !mods.shift && !mods.command ==> r == st
  {
    if mods.shift then SelectOneNode(st, mods.command, node)
    else if mods.command then DeselectOneNode(st, node)
    else st
  }

  // ---------------------------------------------------------------- selection

  /** Whether a node's rectangle is caught by the selection rectangle:
      contained in it, or (by default) just touching it. */
  predicate Caught(selectRect: Rect, nodeRect: Rect, contained: bool) {
    if contained then selectRect.ContainsRect(nodeRect) else selectRect.Intersects(nodeRect)
  }

  /** On a well-formed node rectangle, the `contained` mode catches only
      what the default touching mode catches too. */
  lemma CaughtContainedIsTouching(selectRect: Rect, nodeRect: Rect)
    requires nodeRect.min.x <= nodeRect.max.x && nodeRect.min.y <= nodeRect.max.y
    ensures Caught(selectRect, nodeRect, true) ==> Caught(selectRect, nodeRect, false)
  {
  }

  /** The ids of the nodes caught, in drawing order (see `CaughtNodesAppend`). */
  function CaughtNodes(rects: seq<(NodeId, Rect)>, selectRect: Rect, contained: bool): (r: seq<NodeId>)
    ensures forall n :: n in r <==> exists k :: 0 <= k < |rects| && rects[k].0 == n && Caught(selectRect, rects[k].1, contained)
    ensures |r| <= |rects|
  {
    if |rects| == 0 then []
    else
      var rest := CaughtNodes(rects[1..], selectRect, contained);
      assert forall k :: 1 <= k < |rects| ==> rects[k] == rects[1..][k - 1];
      assert forall k :: 0 <= k < |rects[1..]| ==> rects[1..][k] == rects[k + 1];
      if Caught(selectRect, rects[0].1, contained) then [rects[0].0] + rest else rest
  }

  /** The caught ids keep the drawing order: catching in a concatenation is
      concatenating the catches. */
  lemma {:induction false} CaughtNodesAppend(a: seq<(NodeId, Rect)>, b: seq<(NodeId, Rect)>, selectRect: Rect,
                                             contained: bool)
    ensures CaughtNodes(a + b, selectRect, contained)
      == CaughtNodes(a, selectRect, contained) + CaughtNodes(b, selectRect, contained)
    decreases |a|
  {
    if |a| > 0 {
      assert (a + b)[0] == a[0] && (a + b)[1..] == a[1..] + b;
      CaughtNodesAppend(a[1..], b, selectRect, contained);
    } else {
      assert a + b == b;
    }
  }

  /** The end of a rectangle selection: with command the caught nodes are
      deselected; with shift they are added; otherwise they replace the
      selection. */
  function SelectEnd(st: SnarlState, rects: seq<(NodeId, Rect)>, selectRect: Rect, contained: bool, mods: Modifiers)
    : (r: SnarlState)
    ensures !mods.command && !mods.shift ==> r.selectedNodes == CaughtNodes(rects, selectRect, contained)
    ensures !mods.command && mods.shift ==> forall n :: n in r.selectedNodes <==>
      n in st.selectedNodes || n in CaughtNodes(rects, selectRect, contained)
    ensures mods.command && NoDup(st.selectedNodes) ==> forall n :: n in r.selectedNodes <==>
      n in st.selectedNodes && n !in CaughtNodes(rects, selectRect, contained)
    ensures r.drawOrder == st.drawOrder && r.newWires == st.newWires
  {
    var caught := CaughtNodes(rects, selectRect, contained);
    if mods.command then
      var r := DeselectManyNodes(st, caught);
      assert NoDup(st.selectedNodes) ==> r.selectedNodes == KeepOut(st.selectedNodes, Elems(caught)) by {
        if NoDup(st.selectedNodes) { DeselectManyFilters(st, caught); }
      }
      r
    else SelectManyNodes(st, !mods.shift, caught)
  }

  /** A secondary button held while dragging wires cancels the drag and
      swallows this frame's click; otherwise a command-click on empty space
      clears the selection. */
  function CancelAndClear(st: SnarlState, secondaryDown: bool, commandClick: bool): (r: SnarlState)
    ensures secondaryDown ==> !HasNewWires(r)
    ensures !secondaryDown || !HasNewWires(st) ==> r.newWires == st.newWires
    ensures commandClick && !(secondaryDown && HasNewWires(st)) ==> r.selectedNodes == []
    ensures !commandClick || (secondaryDown && HasNewWires(st)) ==> r.selectedNodes == st.selectedNodes
    ensures r.drawOrder == st.drawOrder
  {
    var cancelled := HasNewWires(st) && secondaryDown;
    var st1 := if cancelled then TakeNewWires(st).0 else st;
    if commandClick && !cancelled then DeselectAllNodes(st1) else st1
  }
}
