/** The default method bodies of the viewer interface (src/ui/viewer.rs):
    a viewer that overrides nothing lets every proposed edit through to the
    graph unchanged, shows no optional parts and keeps the style's frames
    and layout. Frames are a type parameter: their contents do not matter
    here. */
module Viewer {
  import opened Graph
  import Layout

  /** The optional parts a viewer may announce: body, footer, hover popup,
      wire widget, graph menu, dropped-wire menu and node menu. */
  datatype Part = Body | Footer | OnHoverPopup | WireWidget | GraphMenu | DroppedWireMenu | NodeMenu

  /** The default `has_*` answers: none of the optional parts is shown. */
  function HasPart(part: Part): (r: bool)
    ensures !r
  {
    false
  }

  /** The default `node_frame`. */
  function NodeFrame<F, T>(default: F, node: NodeId, inputs: seq<InPin>, outputs: seq<OutPin>, g: Snarl<T>): (r: F)
    ensures r == default
  {
    default
  }

  /** The default `header_frame`. */
  function HeaderFrame<F, T>(default: F, node: NodeId, inputs: seq<InPin>, outputs: seq<OutPin>, g: Snarl<T>): (r: F)
    ensures r == default
  {
    default
  }

  /** The default `node_layout`. */
  function NodeLayout<T>(default: Layout.NodeLayout, node: NodeId, inputs: seq<InPin>, outputs: seq<OutPin>,
                         g: Snarl<T>): (r: Layout.NodeLayout)
    ensures r == default
  {
    default
  }

  /** The default `connect`: adds the wire. Both nodes must be live, as the
      graph's own `connect` asserts. */
  function Connect<T>(g: Snarl<T>, from: OutPin, to: InPin): (r: Snarl<T>)
    requires from.id.node in g.nodes && to.id.node in g.nodes
    ensures r.nodes == g.nodes
    ensures r.wires == g.wires + {Wire(from.id, to.id)}
  {
    Graph.Connect(g, from.id, to.id).0
  }

  /** The default `disconnect`: removes the wire. */
  function Disconnect<T>(g: Snarl<T>, from: OutPin, to: InPin): (r: Snarl<T>)
    requires from.id.node in g.nodes && to.id.node in g.nodes
    ensures r.nodes == g.nodes
    ensures r.wires == g.wires - {Wire(from.id, to.id)}
  {
    Graph.Disconnect(g, from.id, to.id).0
  }

  /** The default `drop_outputs`: removes every wire leaving the pin. */
  function DropOutputs<T>(g: Snarl<T>, pin: OutPin): (r: Snarl<T>)
    requires pin.id.node in g.nodes
    ensures r.nodes == g.nodes
    ensures forall w :: w in r.wires <==> w in g.wires && w.outPin != pin.id
  {
    Graph.DropOutputs(g, pin.id).0
  }

  /** The default `drop_inputs`: removes every wire entering the pin. */
  function DropInputs<T>(g: Snarl<T>, pin: InPin): (r: Snarl<T>)
    requires pin.id.node in g.nodes
    ensures r.nodes == g.nodes
    ensures forall w :: w in r.wires <==> w in g.wires && w.inPin != pin.id
  {
    Graph.DropInputs(g, pin.id).0
  }

  /** Dropping a pin's wires leaves it with no remotes, and removes exactly
      as many wires as the pin had remotes. */
  lemma DropClearsRemotes<T>(g: Snarl<T>, inPin: InPinId, outPin: OutPinId)
    requires inPin.node in g.nodes && outPin.node in g.nodes
    ensures InPinNew(DropInputs(g, InPinNew(g, inPin)), inPin).remotes == {}
    ensures OutPinNew(DropOutputs(g, OutPinNew(g, outPin)), outPin).remotes == {}
    ensures |g.wires| - |DropInputs(g, InPinNew(g, inPin)).wires| == |InPinNew(g, inPin).remotes|
  {
    DropInputsClearsPin(g, inPin, inPin);
    DropInputsCountsRemotes(g, inPin);
    var r := DropOutputs(g, OutPinNew(g, outPin));
    forall i ensures i !in OutPinNew(r, outPin).remotes {
      assert Wire(outPin, i) !in r.wires;
    }
  }

  /** Under the default policy a proposed connection followed by a proposed
      disconnection of the same pins restores a graph that lacked the wire. */
  lemma ConnectThenDisconnect<T>(g: Snarl<T>, from: OutPinId, to: InPinId)
    requires from.node in g.nodes && to.node in g.nodes
    requires Wire(from, to) !in g.wires
    ensures var g1 := Connect(g, OutPinNew(g, from), InPinNew(g, to));
      Disconnect(g1, OutPinNew(g1, from), InPinNew(g1, to)) == g
  {
    var g1 := Connect(g, OutPinNew(g, from), InPinNew(g, to));
    assert g1.wires - {Wire(from, to)} == g.wires;
  }
}
