/** The node-graph container `Snarl<T>` (src/lib.rs): nodes kept in a slab
    keyed by `NodeId`, and a set of wires, each joining one output pin to
    one input pin. Duplicate wires are impossible because wires form a set. */
module Graph {
  import opened Basics

  type NodeId = nat

  /** Output pin `output` of node `node`. */
  datatype OutPinId = OutPinId(node: NodeId, output: nat)

  /** Input pin `input` of node `node`. */
  datatype InPinId = InPinId(node: NodeId, input: nat)

  /** A connection from an output pin to an input pin. */
  datatype Wire = Wire(outPin: OutPinId, inPin: InPinId)

  /** A node: the user value, its top-left position, and whether it is open (not collapsed). */
  datatype Node<T> = Node(value: T, pos: Pos2, open: bool)

  /** The slab is modelled as a map from live ids to nodes. */
  datatype Snarl<T> = Snarl(nodes: map<NodeId, Node<T>>, wires: set<Wire>)

  /** An output pin together with the input pins wired to it. */
  datatype OutPin = OutPin(id: OutPinId, remotes: set<InPinId>)

  /** An input pin together with the output pins wired to it. */
  datatype InPin = InPin(id: InPinId, remotes: set<OutPinId>)

  /** Every wire joins two live nodes. Every operation below preserves this. */
  ghost predicate Valid<T>(g: Snarl<T>) {
    forall w :: w in g.wires ==> w.outPin.node in g.nodes && w.inPin.node in g.nodes
  }

  function Touches(w: Wire, n: NodeId): bool {
    w.outPin.node == n || w.inPin.node == n
  }

  /** `Snarl::new`. */
  function New<T>(): (g: Snarl<T>)
    ensures Valid(g)
    ensures forall n :: n !in g.nodes
  {
    Snarl(map[], {})
  }

  // ---------------------------------------------------------------- Wires

  /** `HashSet::retain` followed by `count - len`: the wires kept, and how many went. */
  function Retain(ws: set<Wire>, keep: Wire -> bool): (r: (set<Wire>, nat))
    ensures r.0 <= ws
    ensures forall w :: w in ws ==> (w in r.0 <==> keep(w))
    ensures r.1 == |ws - r.0| == |ws| - |r.0|
  {
    var kept := set w | w in ws && keep(w);
    assert ws == kept + (ws - kept);
    (kept, |ws| - |kept|)
  }

  /** `Wires::drop_node`: removes every wire with an end on `node`. */
  function WiresDropNode(ws: set<Wire>, node: NodeId): (r: (set<Wire>, nat))
    ensures forall w :: w in r.0 <==> w in ws && !Touches(w, node)
    ensures r.1 == |ws - r.0|
  {
    Retain(ws, (w: Wire) => !Touches(w, node))
  }

  /** `Wires::drop_inputs`: removes every wire ending at `pin`. */
  function WiresDropInputs(ws: set<Wire>, pin: InPinId): (r: (set<Wire>, nat))
    ensures forall w :: w in r.0 <==> w in ws && w.inPin != pin
    ensures r.1 == |ws - r.0|
  {
    Retain(ws, (w: Wire) => w.inPin != pin)
  }

  /** `Wires::drop_outputs`: removes every wire starting at `pin`. */
  function WiresDropOutputs(ws: set<Wire>, pin: OutPinId): (r: (set<Wire>, nat))
    ensures forall w :: w in r.0 <==> w in ws && w.outPin != pin
    ensures r.1 == |ws - r.0|
  {
    Retain(ws, (w: Wire) => w.outPin != pin)
  }

  /** `Wires::wired_inputs`: the input pins wired to `pin`. */
  function WiredInputs(ws: set<Wire>, pin: OutPinId): (r: set<InPinId>)
    ensures forall i :: i in r <==> Wire(pin, i) in ws
  {
    set w | w in ws && w.outPin == pin :: w.inPin
  }

  /** `Wires::wired_outputs`: the output pins wired to `pin`. */
  function WiredOutputs(ws: set<Wire>, pin: InPinId): (r: set<OutPinId>)
    ensures forall o :: o in r <==> Wire(o, pin) in ws
  {
    set w | w in ws && w.inPin == pin :: w.outPin
  }

  // ---------------------------------------------------------------- Snarl

  /** The least id at or above `k` that is not in `keys`. */
  function VacantFrom(keys: set<nat>, k: nat): (r: nat)
    ensures k <= r && r !in keys
    ensures forall j: nat :: k <= j < r ==> j in keys
    decreases |keys|
  {
    if k in keys then
      var v := VacantFrom(keys - {k}, k + 1);
      assert forall j: nat :: k <= j < v ==> j in keys by {
        forall j: nat | k <= j < v ensures j in keys {
          if j > k { assert j in keys - {k}; }
        }
      }
      v
    else k
  }

  /** Slab insertion: stores `node` under some vacant key. */
  function InsertWith<T>(g: Snarl<T>, node: Node<T>): (r: (Snarl<T>, NodeId))
    ensures r.1 !in g.nodes
    ensures r.0.nodes.Keys == g.nodes.Keys + {r.1}
    ensures r.0.nodes[r.1] == node
    ensures forall n :: n in g.nodes ==> r.0.nodes[n] == g.nodes[n]
    ensures r.0.wires == g.wires
    ensures Valid(g) ==> Valid(r.0)
  {
    var id := VacantFrom(g.nodes.Keys, 0);
    (Snarl(g.nodes[id := node], g.wires), id)
  }

  /** `Snarl::insert_node`: a fresh, open node. */
  function InsertNode<T>(g: Snarl<T>, pos: Pos2, value: T): (r: (Snarl<T>, NodeId))
    ensures r.1 !in g.nodes && r.1 in r.0.nodes
    ensures r.0.nodes[r.1] == Node(value, pos, true)
    ensures r.0.nodes.Keys == g.nodes.Keys + {r.1}
    ensures forall n :: n in g.nodes ==> r.0.nodes[n] == g.nodes[n]
    ensures r.0.wires == g.wires
    ensures Valid(g) ==> Valid(r.0)
  {
    InsertWith(g, Node(value, pos, true))
  }

  /** `Snarl::insert_node_collapsed`: a fresh, collapsed node. */
  function InsertNodeCollapsed<T>(g: Snarl<T>, pos: Pos2, value: T): (r: (Snarl<T>, NodeId))
    ensures r.1 !in g.nodes && r.1 in r.0.nodes
    ensures r.0.nodes[r.1] == Node(value, pos, false)
    ensures r.0.nodes.Keys == g.nodes.Keys + {r.1}
    ensures forall n :: n in g.nodes ==> r.0.nodes[n] == g.nodes[n]
    ensures r.0.wires == g.wires
    ensures Valid(g) ==> Valid(r.0)
  {
    InsertWith(g, Node(value, pos, false))
  }

  /** `Snarl::open_node`; indexing the slab panics on a vacant id. */
  function OpenNode<T>(g: Snarl<T>, id: NodeId, open: bool): (r: Snarl<T>)
    requires id in g.nodes
    ensures r.nodes.Keys == g.nodes.Keys
    ensures r.nodes[id].open == open
    ensures r.nodes[id].value == g.nodes[id].value && r.nodes[id].pos == g.nodes[id].pos
    ensures forall n :: n in g.nodes && n != id ==> r.nodes[n] == g.nodes[n]
    ensures r.wires == g.wires
    ensures Valid(g) ==> Valid(r)
  {
    g.(nodes := g.nodes[id := g.nodes[id].(open := open)])
  }

  /** `Snarl::remove_node`: removes the node and every wire touching it, and
      hands back its value. The slab panics on a vacant id. */
  function RemoveNode<T>(g: Snarl<T>, id: NodeId): (r: (Snarl<T>, T))
    requires id in g.nodes
    ensures r.1 == g.nodes[id].value
    ensures r.0.nodes.Keys == g.nodes.Keys - {id}
    ensures forall n :: n in r.0.nodes ==> r.0.nodes[n] == g.nodes[n]
    ensures forall w :: w in r.0.wires <==> w in g.wires && !Touches(w, id)
    ensures Valid(g) ==> Valid(r.0)
  {
    var value := g.nodes[id].value;
    var (ws, _) := WiresDropNode(g.wires, id);
    (Snarl(g.nodes - {id}, ws), value)
  }

  /** `Snarl::connect`: adds the wire; true iff it was not there yet.
      Both nodes must be live (an `assert!` in the source). */
  function Connect<T>(g: Snarl<T>, from: OutPinId, to: InPinId): (r: (Snarl<T>, bool))
    requires from.node in g.nodes && to.node in g.nodes
    ensures r.0.nodes == g.nodes
    ensures r.0.wires == g.wires + {Wire(from, to)}
    ensures r.1 <==> Wire(from, to) !in g.wires
    ensures Valid(g) ==> Valid(r.0)
  {
    var w := Wire(from, to);
    (g.(wires := g.wires + {w}), w !in g.wires)
  }

  /** `Snarl::disconnect`: removes the wire; true iff it was there.
      Both nodes must be live (an `assert!` in the source). */
  function Disconnect<T>(g: Snarl<T>, from: OutPinId, to: InPinId): (r: (Snarl<T>, bool))
    requires from.node in g.nodes && to.node in g.nodes
    ensures r.0.nodes == g.nodes
    ensures r.0.wires == g.wires - {Wire(from, to)}
    ensures r.1 <==> Wire(from, to) in g.wires
    ensures Valid(g) ==> Valid(r.0)
  {
    var w := Wire(from, to);
    (g.(wires := g.wires - {w}), w in g.wires)
  }

  /** `Snarl::drop_inputs`: removes every wire into `pin`, returning how many. */
  function DropInputs<T>(g: Snarl<T>, pin: InPinId): (r: (Snarl<T>, nat))
    requires pin.node in g.nodes
    ensures r.0.nodes == g.nodes
    ensures forall w :: w in r.0.wires <==> w in g.wires && w.inPin != pin
    ensures r.1 == |g.wires| - |r.0.wires|
    ensures Valid(g) ==> Valid(r.0)
  {
    var (ws, n) := WiresDropInputs(g.wires, pin);
    (g.(wires := ws), n)
  }

  /** `Snarl::drop_outputs`: removes every wire out of `pin`, returning how many. */
  function DropOutputs<T>(g: Snarl<T>, pin: OutPinId): (r: (Snarl<T>, nat))
    requires pin.node in g.nodes
    ensures r.0.nodes == g.nodes
    ensures forall w :: w in r.0.wires <==> w in g.wires && w.outPin != pin
    ensures r.1 == |g.wires| - |r.0.wires|
    ensures Valid(g) ==> Valid(r.0)
  {
    var (ws, n) := WiresDropOutputs(g.wires, pin);
    (g.(wires := ws), n)
  }

  /** `Snarl::get_node`. */
  function GetNode<T>(g: Snarl<T>, id: NodeId): (r: Option<T>)
    ensures r.Some? <==> id in g.nodes
    ensures r.Some? ==> r.value == g.nodes[id].value
  {
    if id in g.nodes then Some(g.nodes[id].value) else None
  }

  /** `Snarl::get_node_info`. */
  function GetNodeInfo<T>(g: Snarl<T>, id: NodeId): (r: Option<Node<T>>)
    ensures r.Some? <==> id in g.nodes
    ensures r.Some? ==> r.value == g.nodes[id]
  {
    if id in g.nodes then Some(g.nodes[id]) else None
  }

  /** `OutPin::new` (also `Snarl::out_pin`). */
  function OutPinNew<T>(g: Snarl<T>, pin: OutPinId): (r: OutPin)
    ensures r.id == pin
    ensures forall i :: i in r.remotes <==> Wire(pin, i) in g.wires
  {
    OutPin(pin, WiredInputs(g.wires, pin))
  }

  /** `InPin::new` (also `Snarl::in_pin`). */
  function InPinNew<T>(g: Snarl<T>, pin: InPinId): (r: InPin)
    ensures r.id == pin
    ensures forall o :: o in r.remotes <==> Wire(o, pin) in g.wires
  {
    InPin(pin, WiredOutputs(g.wires, pin))
  }

  // ---------------------------------------------------------------- Laws

  /** Removing a freshly inserted node gives back the graph and the value. */
  lemma InsertRemoveRoundTrip<T>(g: Snarl<T>, pos: Pos2, value: T)
    requires Valid(g)
    ensures var (g1, id) := InsertNode(g, pos, value); RemoveNode(g1, id) == (g, value)
  {
    var (g1, id) := InsertNode(g, pos, value);
    var g2 := RemoveNode(g1, id).0;
    assert g2.nodes == g.nodes;
    assert g2.wires == g.wires by {
      forall w | w in g.wires ensures !Touches(w, id) {
        assert w.outPin.node in g.nodes && w.inPin.node in g.nodes;
      }
    }
  }

  /** A second identical `connect` changes nothing and reports false. */
  lemma ConnectIdempotent<T>(g: Snarl<T>, from: OutPinId, to: InPinId)
    requires from.node in g.nodes && to.node in g.nodes
    ensures var g1 := Connect(g, from, to).0; Connect(g1, from, to) == (g1, false)
  {
  }

  /** `disconnect` right after a fresh `connect` restores the graph. */
  lemma DisconnectUndoesConnect<T>(g: Snarl<T>, from: OutPinId, to: InPinId)
    requires from.node in g.nodes && to.node in g.nodes
    requires Wire(from, to) !in g.wires
    ensures var (g1, added) := Connect(g, from, to);
      added && Disconnect(g1, from, to) == (g, true)
  {
  }

  /** `connect` right after a successful `disconnect` restores the graph. */
  lemma ConnectUndoesDisconnect<T>(g: Snarl<T>, from: OutPinId, to: InPinId)
    requires from.node in g.nodes && to.node in g.nodes
    requires Wire(from, to) in g.wires
    ensures var (g1, removed) := Disconnect(g, from, to);
      removed && Connect(g1, from, to) == (g, true)
  {
    assert g.wires - {Wire(from, to)} + {Wire(from, to)} == g.wires;
  }

  /** A set and its image under a map that is injective on it have the same size. */
  lemma {:induction false} InjectiveImageCard<A, B>(s: set<A>, img: set<B>, f: A -> B)
    requires forall x :: x in s ==> f(x) in img
    requires forall y :: y in img ==> exists x :: x in s && f(x) == y
    requires forall x, y :: x in s && y in s && f(x) == f(y) ==> x == y
    ensures |img| == |s|
    decreases |s|
  {
    if s == {} {
      assert forall y :: y !in img;
      assert img == {};
    } else {
      var x :| x in s;
      InjectiveImageCard(s - {x}, img - {f(x)}, f);
    }
  }

  /** The count `drop_inputs` returns is the number of output pins the input was wired to. */
  lemma DropInputsCountsRemotes<T>(g: Snarl<T>, pin: InPinId)
    requires pin.node in g.nodes
    ensures DropInputs(g, pin).1 == |InPinNew(g, pin).remotes|
  {
    var into := set w | w in g.wires && w.inPin == pin;
    var (g1, n) := DropInputs(g, pin);
    assert g.wires == g1.wires + into;
    assert g1.wires !! into;
    var remotes := InPinNew(g, pin).remotes;
    forall o | o in remotes ensures exists w :: w in into && w.outPin == o {
      assert Wire(o, pin) in into;
    }
    InjectiveImageCard(into, remotes, (w: Wire) => w.outPin);
  }

  /** The count `drop_outputs` returns is the number of input pins the output was wired to. */
  lemma DropOutputsCountsRemotes<T>(g: Snarl<T>, pin: OutPinId)
    requires pin.node in g.nodes
    ensures DropOutputs(g, pin).1 == |OutPinNew(g, pin).remotes|
  {
    var from := set w | w in g.wires && w.outPin == pin;
    var (g1, n) := DropOutputs(g, pin);
    assert g.wires == g1.wires + from;
    assert g1.wires !! from;
    var remotes := OutPinNew(g, pin).remotes;
    forall i | i in remotes ensures exists w :: w in from && w.inPin == i {
      assert Wire(pin, i) in from;
    }
    InjectiveImageCard(from, remotes, (w: Wire) => w.inPin);
  }

  /** After `drop_inputs` the pin has no remotes left; other pins keep theirs. */
  lemma DropInputsClearsPin<T>(g: Snarl<T>, pin: InPinId, other: InPinId)
    requires pin.node in g.nodes
    ensures InPinNew(DropInputs(g, pin).0, pin).remotes == {}
    ensures other != pin ==>
      InPinNew(DropInputs(g, pin).0, other).remotes == InPinNew(g, other).remotes
  {
  }
}
