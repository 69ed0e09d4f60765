/** The host policy of the demo application (examples/demo.rs): the node
    kinds, their pin counts and pin-type bitmasks, the connection rule that
    keeps one wire per input, the variable collection of expressions, and
    the rewiring of an expression node's inputs after its text changes.
    Expression parsing and evaluation are not modelled; an expression is its
    syntax tree. */
module Demo {
  import opened Basics
  import opened Seqs
  import opened Graph

  datatype UnaryOp = Pos | Neg
  datatype BinaryOp = Add | Sub | Mul | Div

  datatype Expr =
    | Var(name: string)
    | Val(value: real)
    | UnOp(uop: UnaryOp, expr: Expr)
    | BinOp(lhs: Expr, bop: BinaryOp, rhs: Expr)

  /** An expression node: its text, the names bound to inputs 1, 2, ...,
      their last values, and the parsed expression. Input 0 takes the text. */
  datatype ExprNodeData = ExprNodeData(text: string, bindings: seq<string>, values: seq<real>, expr: Expr)

  datatype DemoNode =
    | Sink
    | Number(number: real)
    | String(str: string)
    | ShowImage(uri: string)
    | ExprNode(data: ExprNodeData)

  // ---------------------------------------------------------------- pins

  /** The number of input pins of each kind. */
  function Inputs(n: DemoNode): (r: nat)
    ensures n.ExprNode? ==> r == 1 + |n.data.bindings|
    ensures r == 0 <==> n.Number? || n.String?
    ensures n.Sink? || n.ShowImage? ==> r == 1
  {
    match n
    case Sink => 1
    case ShowImage(_) => 1
    case Number(_) => 0
    case String(_) => 0
    case ExprNode(d) => 1 + |d.bindings|
  }

  /** The number of output pins of each kind: one, except for the sink. */
  function Outputs(n: DemoNode): (r: nat)
    ensures r <= 1
    ensures r == 0 <==> n.Sink?
  {
    if n.Sink? then 0 else 1
  }

  /** Pin-type bitmasks: numbers, strings, images, and a sink taking all three. */
  type PinCompat = bv64
  const PinNum: PinCompat := 1
  const PinStr: PinCompat := 2
  const PinImg: PinCompat := 4
  const PinSink: PinCompat := PinNum | PinStr | PinImg

  /** The type a node's output carries. */
  function OutCompat(n: DemoNode): (r: PinCompat)
    ensures r == 0 <==> Outputs(n) == 0
  {
    match n
    case Sink => 0
    case String(_) => PinStr
    case ShowImage(_) => PinImg
    case Number(_) => PinNum
    case ExprNode(_) => PinNum
  }

  /** The types an input pin accepts: input 0 of an expression takes its
      text, the others take numbers. */
  function InCompat(n: DemoNode, pin: nat): (r: PinCompat)
    ensures r == 0 <==> Inputs(n) == 0
  {
    match n
    case Sink => PinSink
    case Number(_) => 0
    case String(_) => 0
    case ShowImage(_) => PinStr
    case ExprNode(_) => if pin == 0 then PinStr else PinNum
  }

  /** Two pins are compatible when their masks share a bit. */
  predicate Compatible(from: DemoNode, to: DemoNode, input: nat) {
    OutCompat(from) & InCompat(to, input) != 0
  }

  /** The sink accepts every type any output carries. */
  lemma SinkAcceptsAll(from: DemoNode, input: nat)
    ensures Outputs(from) > 0 ==> Compatible(from, Sink, input)
  {
  }

  // ---------------------------------------------------------------- connect

  /** What the demo viewer's `connect` decides for a pair of node kinds:
      accept, refuse silently, or panic because a pin cannot exist. */
  datatype Verdict = Accept | Reject | Unreachable

  function ConnectVerdict(from: DemoNode, to: DemoNode, input: nat): (r: Verdict)
    ensures r == Unreachable <==> from.Sink? || to.Number? || to.String?
    ensures r == Reject <==> (!from.Sink? && (
      (from.Number? && to.ShowImage?) || (from.ShowImage? && to.ShowImage?)
      || ((from.ExprNode? || from.Number?) && to.ExprNode? && input == 0)
      || (from.String? && to.ExprNode? && input > 0)
      || (from.ShowImage? && to.ExprNode?) || (from.ExprNode? && to.ShowImage?)))
  {
    if from.Sink? then Unreachable
    else if to.Sink? then Accept
    else if to.Number? || to.String? then Unreachable
    else if from.Number? && to.ShowImage? then Reject
    else if from.ShowImage? && to.ShowImage? then Reject
    else if from.String? && to.ShowImage? then Accept
    else if from.ExprNode? && to.ExprNode? && input == 0 then Reject
    else if from.ExprNode? && to.ExprNode? then Accept
    else if from.Number? && to.ExprNode? && input == 0 then Reject
    else if from.Number? && to.ExprNode? then Accept
    else if from.String? && to.ExprNode? && input == 0 then Accept
    else if from.String? && to.ExprNode? then Reject
    else if from.ShowImage? && to.ExprNode? then Reject
    else Reject
  }

  /** The connection table and the bitmasks the graph menu uses agree: a
      pair that can occur is accepted exactly when its masks share a bit. */
  lemma ConnectAcceptsIffCompatible(from: DemoNode, to: DemoNode, input: nat)
    requires ConnectVerdict(from, to, input) != Unreachable
    ensures ConnectVerdict(from, to, input) == Accept <==> Compatible(from, to, input)
  {
  }

  /** Disconnects `to` from each listed remote, in order. */
  function DisconnectAll<T>(g: Snarl<T>, remotes: seq<OutPinId>, to: InPinId): (r: Snarl<T>)
    requires to.node in g.nodes && forall k :: 0 <= k < |remotes| ==> remotes[k].node in g.nodes
    ensures r.nodes == g.nodes
    ensures forall w :: w in r.wires <==> w in g.wires && !(w.inPin == to && w.outPin in remotes)
    decreases |remotes|
  {
    if |remotes| == 0 then g
    else
      var g1 := Graph.Disconnect(g, remotes[0], to).0;
      assert forall o :: o in remotes <==> o == remotes[0] || o in remotes[1..];
      DisconnectAll(g1, remotes[1..], to)
  }

  /** `DemoViewer::connect`: checks the pair, then replaces every wire into
      `to` by the one from `from`. `remotes` lists `to`'s remotes in the
      order the hash set yields them. A panic is `None`. */
  function Connect(g: Snarl<DemoNode>, from: OutPinId, to: InPinId, remotes: seq<OutPinId>)
    : (r: Option<Snarl<DemoNode>>)
    requires Valid(g) && from.node in g.nodes && to.node in g.nodes
    requires forall o :: o in remotes <==> Wire(o, to) in g.wires
    ensures r.None? <==> ConnectVerdict(g.nodes[from.node].value, g.nodes[to.node].value, to.input) == Unreachable
    ensures r.Some? ==> r.value.nodes == g.nodes
    ensures ConnectVerdict(g.nodes[from.node].value, g.nodes[to.node].value, to.input) == Reject ==> r == Some(g)
    ensures ConnectVerdict(g.nodes[from.node].value, g.nodes[to.node].value, to.input) == Accept ==> (
      r.Some? && forall w :: w in r.value.wires <==> (w in g.wires && w.inPin != to) || w == Wire(from, to))
  {
    match ConnectVerdict(g.nodes[from.node].value, g.nodes[to.node].value, to.input)
    case Unreachable => None
    case Reject => Some(g)
    case Accept =>
      assert forall k :: 0 <= k < |remotes| ==> remotes[k].node in g.nodes by {
        forall k | 0 <= k < |remotes| ensures remotes[k].node in g.nodes {
          assert remotes[k] in remotes;
        }
      }
      var g1 := DisconnectAll(g, remotes, to);
      Some(Graph.Connect(g1, from, to).0)
  }

  /** After an accepted connection the input has exactly one incoming wire,
      the new one, and the graph stays free of dangling wires. */
  lemma OneWirePerInput(g: Snarl<DemoNode>, from: OutPinId, to: InPinId, remotes: seq<OutPinId>)
    requires Valid(g) && from.node in g.nodes && to.node in g.nodes
    requires forall o :: o in remotes <==> Wire(o, to) in g.wires
    requires ConnectVerdict(g.nodes[from.node].value, g.nodes[to.node].value, to.input) == Accept
    ensures InPinNew(Connect(g, from, to, remotes).value, to).remotes == {from}
    ensures Valid(Connect(g, from, to, remotes).value)
  {
    var r := Connect(g, from, to, remotes).value;
    assert Wire(from, to) in r.wires;
    assert forall o :: o in InPinNew(r, to).remotes <==> o == from;
  }

  // ---------------------------------------------------------------- bindings

  /** The variables of an expression, left to right, repeats included. */
  function VarSeq(e: Expr): (r: seq<string>)
    ensures forall x :: x in r <==> x in Vars(e)
  {
    match e
    case Var(name) => [name]
    case Val(_) => []
    case UnOp(_, inner) => VarSeq(inner)
    case BinOp(lhs, _, rhs) => VarSeq(lhs) + VarSeq(rhs)
  }

  /** The set of variable names occurring in an expression. */
  function Vars(e: Expr): set<string> {
    match e
    case Var(name) => {name}
    case Val(_) => {}
    case UnOp(_, inner) => Vars(inner)
    case BinOp(lhs, _, rhs) => Vars(lhs) + Vars(rhs)
  }

  /** Appends each name not yet present, in order. */
  function AddAll(b: seq<string>, names: seq<string>): (r: seq<string>)
    decreases |names|
  {
    if |names| == 0 then b
    else AddAll(if names[0] in b then b else b + [names[0]], names[1..])
  }

  /** `Expr::extend_bindings`: walks the expression left to right and
      appends every variable not bound yet. */
  function ExtendBindings(e: Expr, b: seq<string>): (r: seq<string>)
    ensures |b| <= |r| && r[..|b|] == b
    ensures NoDup(b) ==> NoDup(r)
    ensures forall x :: x in r <==> x in b || x in Vars(e)
  {
    match e
    case Var(name) => if name in b then b else b + [name]
    case Val(_) => b
    case UnOp(_, inner) => ExtendBindings(inner, b)
    case BinOp(lhs, _, rhs) =>
      var b1 := ExtendBindings(lhs, b);
      var r := ExtendBindings(rhs, b1);
      assert r[..|b|] == r[..|b1|][..|b|];
      r
  }

  /** The traversal is the same as adding the variables in reading order. */
  lemma {:induction false} ExtendBindingsAddsInOrder(e: Expr, b: seq<string>)
    ensures ExtendBindings(e, b) == AddAll(b, VarSeq(e))
  {
    match e
    case Var(name) =>
      assert VarSeq(e)[1..] == [];
    case Val(_) =>
    case UnOp(_, inner) =>
      ExtendBindingsAddsInOrder(inner, b);
    case BinOp(lhs, _, rhs) =>
      ExtendBindingsAddsInOrder(lhs, b);
      ExtendBindingsAddsInOrder(rhs, ExtendBindings(lhs, b));
      AddAllAppend(b, VarSeq(lhs), VarSeq(rhs));
  }

  lemma {:induction false} AddAllAppend(b: seq<string>, xs: seq<string>, ys: seq<string>)
    ensures AddAll(b, xs + ys) == AddAll(AddAll(b, xs), ys)
    decreases |xs|
  {
    if |xs| == 0 {
      assert xs + ys == ys;
    } else {
      assert (xs + ys)[0] == xs[0];
      assert (xs + ys)[1..] == xs[1..] + ys;
      AddAllAppend(if xs[0] in b then b else b + [xs[0]], xs[1..], ys);
    }
  }

  /** Re-collecting the bindings of an expression from scratch yields each of
      its variables exactly once. */
  lemma FreshBindings(e: Expr)
    ensures NoDup(ExtendBindings(e, [])) && forall x :: x in ExtendBindings(e, []) <==> x in Vars(e)
  {
  }

  // ---------------------------------------------------------------- rewiring

  /** The pin of binding `idx` in the source's own arithmetic: input `idx + 1`. */
  function BindingPin(node: NodeId, idx: nat): (r: InPinId)
    ensures r.node == node && r.input == idx + 1
  {
    InPinId(node, idx + 1)
  }

  /** The remotes of each old binding's pin, taken before any rewiring. */
  function Snapshot(ws: set<Wire>, node: NodeId, count: nat): (r: seq<set<OutPinId>>)
    ensures |r| == count
    ensures forall idx, o :: 0 <= idx < count ==> (o in r[idx] <==> Wire(o, BindingPin(node, idx)) in ws)
  {
    seq(count, idx requires 0 <= idx < count => WiredOutputs(ws, BindingPin(node, idx)))
  }

  /** For each remote, `disconnect(remote, from)` then `connect(remote, to)`.
      Each step only touches wires leaving that remote, so the order of the
      remotes does not matter. */
  function MoveRemotes(ws: set<Wire>, remotes: set<OutPinId>, from: InPinId, to: InPinId): (r: set<Wire>)
    ensures forall w :: w in r <==> ((w.outPin in remotes && w.inPin == to)
                               || (w in ws && !(w.outPin in remotes && w.inPin == from)))
  {
    (set w | w in ws && !(w.outPin in remotes && w.inPin == from)) + (set o | o in remotes :: Wire(o, to))
  }

  /** The loop over the remotes, one remote at a time. */
  function MoveEach(ws: set<Wire>, order: seq<OutPinId>, from: InPinId, to: InPinId): (r: set<Wire>)
    ensures forall w: Wire :: w.outPin !in order ==> (w in r <==> w in ws)
    decreases |order|
  {
    if |order| == 0 then ws
    else
      assert forall o :: o in order[1..] ==> o in order;
      MoveEach((ws - {Wire(order[0], from)}) + {Wire(order[0], to)}, order[1..], from, to)
  }

  /** Whatever order the hash set yields its remotes in, the loop moves them
      all as `MoveRemotes` says. */
  lemma {:induction false} MoveEachIsMoveRemotes(ws: set<Wire>, order: seq<OutPinId>, from: InPinId, to: InPinId)
    requires NoDup(order)
    ensures MoveEach(ws, order, from, to) == MoveRemotes(ws, Elems(order), from, to)
    decreases |order|
  {
    if |order| == 0 {
      assert MoveRemotes(ws, Elems(order), from, to) == ws;
    } else {
      var o := order[0];
      var ws1 := (ws - {Wire(o, from)}) + {Wire(o, to)};
      assert NoDup(order[1..]);
      MoveEachIsMoveRemotes(ws1, order[1..], from, to);
      ElemsCons(order);
      assert o !in order[1..];
      var lhs := MoveRemotes(ws1, Elems(order[1..]), from, to);
      var rhs := MoveRemotes(ws, Elems(order), from, to);
      forall w ensures w in lhs <==> w in rhs {
      }
    }
  }

  /** Step `i` of the loop takes wires off `pin`: the pin of old binding `i`,
      when its name vanished or moved. */
  predicate Clears(node: NodeId, oldB: seq<string>, newB: seq<string>, i: nat, pin: InPinId)
    requires i < |oldB|
  {
    IndexOf(newB, oldB[i]) != i && pin == BindingPin(node, i)
  }

  /** Step `i` of the loop puts `w` in: a remote snapshotted on old binding
      `i`'s pin, wired into the pin its moved name's new index selects. */
  predicate MovedBy(w: Wire, node: NodeId, oldB: seq<string>, newB: seq<string>,
                    snap: seq<set<OutPinId>>, i: nat, shift: nat)
    requires |snap| == |oldB| && i < |oldB|
  {
    var j := IndexOf(newB, oldB[i]);
    j >= 0 && j != i && w.outPin in snap[i] && w.inPin == InPinId(node, j + shift)
  }

  /** Step `i` of the loop takes `w` out: `w` ends at old binding `i`'s pin,
      and either the name vanished (every wire on the pin goes) or it moved
      and `w` starts at one of the remotes snapshotted on that pin. */
  predicate Drops(w: Wire, node: NodeId, oldB: seq<string>, newB: seq<string>,
                  snap: seq<set<OutPinId>>, i: nat)
    requires |snap| == |oldB| && i < |oldB|
  {
    var j := IndexOf(newB, oldB[i]);
    j != i && w.inPin == BindingPin(node, i) && (j == -1 || w.outPin in snap[i])
  }

  /** One step of the source's loop for old binding `idx`; `shift` is what is
      added to `new_idx` to name the target pin (0 as written). */
  function RebindStep(ws: set<Wire>, node: NodeId, oldB: seq<string>, newB: seq<string>,
                      snap: seq<set<OutPinId>>, idx: nat, shift: nat): (r: set<Wire>)
    requires |snap| == |oldB| && idx < |oldB|
    ensures IndexOf(newB, oldB[idx]) == -1 ==> forall w :: w in r <==> w in ws && w.inPin != BindingPin(node, idx)
    ensures IndexOf(newB, oldB[idx]) == idx ==> r == ws
    ensures var j := IndexOf(newB, oldB[idx]); j >= 0 && j != idx ==>
      forall w :: w in r <==> ((w.outPin in snap[idx] && w.inPin == InPinId(node, j + shift))
                               || (w in ws && !(w.outPin in snap[idx] && w.inPin == BindingPin(node, idx))))
  {
    var newIdx := IndexOf(newB, oldB[idx]);
    if newIdx == -1 then (set w | w in ws && w.inPin != BindingPin(node, idx))
    else if newIdx != idx then MoveRemotes(ws, snap[idx], BindingPin(node, idx), InPinId(node, newIdx + shift))
    else ws
  }

  /** The source's loop from old binding `idx` on. */
  function RebindFrom(ws: set<Wire>, node: NodeId, oldB: seq<string>, newB: seq<string>,
                      snap: seq<set<OutPinId>>, idx: nat, shift: nat): (r: set<Wire>)
    requires |snap| == |oldB| && idx <= |oldB|
    ensures forall w :: w in r && w.inPin.node != node ==> w in ws
    ensures forall w :: w in ws && w.inPin.node != node ==> w in r
    decreases |oldB| - idx
  {
    if idx == |oldB| then ws
    else RebindFrom(RebindStep(ws, node, oldB, newB, snap, idx, shift), node, oldB, newB, snap, idx + 1, shift)
  }

  /** A vanished binding's step is `drop_inputs` on its pin. */
  lemma RebindStepDropIsDropInputs(ws: set<Wire>, node: NodeId, oldB: seq<string>, newB: seq<string>,
                                   snap: seq<set<OutPinId>>, idx: nat, shift: nat)
    requires |snap| == |oldB| && idx < |oldB|
    requires IndexOf(newB, oldB[idx]) == -1
    ensures RebindStep(ws, node, oldB, newB, snap, idx, shift) == WiresDropInputs(ws, BindingPin(node, idx)).0
  {
  }

  /** A step only adds the wires it moves. */
  lemma RebindStepUpper(ws: set<Wire>, node: NodeId, oldB: seq<string>, newB: seq<string>,
                        snap: seq<set<OutPinId>>, idx: nat, shift: nat, w: Wire)
    requires |snap| == |oldB| && idx < |oldB|
    requires w in RebindStep(ws, node, oldB, newB, snap, idx, shift)
    ensures w in ws || MovedBy(w, node, oldB, newB, snap, idx, shift)
  {
  }

  /** A step keeps every wire whose pin it does not clear. */
  lemma RebindStepKeeps(ws: set<Wire>, node: NodeId, oldB: seq<string>, newB: seq<string>,
                        snap: seq<set<OutPinId>>, idx: nat, shift: nat, w: Wire)
    requires |snap| == |oldB| && idx < |oldB|
    requires w in ws && !Clears(node, oldB, newB, idx, w.inPin)
    ensures w in RebindStep(ws, node, oldB, newB, snap, idx, shift)
  {
  }

  /** A step adds every wire it moves. */
  lemma RebindStepMoves(ws: set<Wire>, node: NodeId, oldB: seq<string>, newB: seq<string>,
                        snap: seq<set<OutPinId>>, idx: nat, shift: nat, w: Wire)
    requires |snap| == |oldB| && idx < |oldB|
    requires MovedBy(w, node, oldB, newB, snap, idx, shift)
    ensures w in RebindStep(ws, node, oldB, newB, snap, idx, shift)
  {
  }

  /** A step removes the wires it takes out, unless it moves them back. */
  lemma RebindStepDrops(ws: set<Wire>, node: NodeId, oldB: seq<string>, newB: seq<string>,
                        snap: seq<set<OutPinId>>, idx: nat, shift: nat, w: Wire)
    requires |snap| == |oldB| && idx < |oldB|
    requires Drops(w, node, oldB, newB, snap, idx) && !MovedBy(w, node, oldB, newB, snap, idx, shift)
    ensures w !in RebindStep(ws, node, oldB, newB, snap, idx, shift)
  {
  }

  /** Every wire the loop from step `idx` on leaves was there before or
      was put in by one of those steps. */
  lemma {:induction false} RebindFromUpper(ws: set<Wire>, node: NodeId, oldB: seq<string>, newB: seq<string>,
                                           snap: seq<set<OutPinId>>, idx: nat, shift: nat)
    requires |snap| == |oldB| && idx <= |oldB|
    ensures forall w :: w in RebindFrom(ws, node, oldB, newB, snap, idx, shift) ==>
      w in ws || exists i :: idx <= i < |oldB| && MovedBy(w, node, oldB, newB, snap, i, shift)
    decreases |oldB| - idx
  {
    if idx < |oldB| {
      var ws1 := RebindStep(ws, node, oldB, newB, snap, idx, shift);
      RebindFromUpper(ws1, node, oldB, newB, snap, idx + 1, shift);
      forall w | w in RebindFrom(ws1, node, oldB, newB, snap, idx + 1, shift)
        ensures w in ws || exists i :: idx <= i < |oldB| && MovedBy(w, node, oldB, newB, snap, i, shift)
      {
        if w in ws1 {
          RebindStepUpper(ws, node, oldB, newB, snap, idx, shift, w);
        } else {
          var i :| idx + 1 <= i < |oldB| && MovedBy(w, node, oldB, newB, snap, i, shift);
        }
      }
    }
  }

  /** A wire no step from `idx` on clears survives the loop. */
  lemma {:induction false} RebindFromKeeps(ws: set<Wire>, node: NodeId, oldB: seq<string>, newB: seq<string>,
                                           snap: seq<set<OutPinId>>, idx: nat, shift: nat, w: Wire)
    requires |snap| == |oldB| && idx <= |oldB|
    requires w in ws && forall i :: idx <= i < |oldB| ==> !Clears(node, oldB, newB, i, w.inPin)
    ensures w in RebindFrom(ws, node, oldB, newB, snap, idx, shift)
    decreases |oldB| - idx
  {
    if idx < |oldB| {
      var ws1 := RebindStep(ws, node, oldB, newB, snap, idx, shift);
      assert RebindFrom(ws, node, oldB, newB, snap, idx, shift) == RebindFrom(ws1, node, oldB, newB, snap, idx + 1, shift);
      RebindStepKeeps(ws, node, oldB, newB, snap, idx, shift, w);
      RebindFromKeeps(ws1, node, oldB, newB, snap, idx + 1, shift, w);
    } else {
      assert RebindFrom(ws, node, oldB, newB, snap, idx, shift) == ws;
    }
  }

  /** A wire step `i` puts in survives the loop unless a later step clears
      its pin. */
  lemma {:induction false} RebindFromMoves(ws: set<Wire>, node: NodeId, oldB: seq<string>, newB: seq<string>,
                                           snap: seq<set<OutPinId>>, idx: nat, shift: nat, w: Wire, i: nat)
    requires |snap| == |oldB| && idx <= i < |oldB|
    requires MovedBy(w, node, oldB, newB, snap, i, shift)
    requires forall k :: i < k < |oldB| ==> !Clears(node, oldB, newB, k, w.inPin)
    ensures w in RebindFrom(ws, node, oldB, newB, snap, idx, shift)
    decreases |oldB| - idx
  {
    if idx == i {
      RebindMovesAt(ws, node, oldB, newB, snap, shift, w, i);
    } else {
      RebindFromMoves(RebindStep(ws, node, oldB, newB, snap, idx, shift), node, oldB, newB, snap, idx + 1, shift, w, i);
    }
  }

  /** `RebindFromMoves` from the moving step itself: the step puts `w` in and
      no later step clears its pin. */
  lemma RebindMovesAt(ws: set<Wire>, node: NodeId, oldB: seq<string>, newB: seq<string>,
                      snap: seq<set<OutPinId>>, shift: nat, w: Wire, i: nat)
    requires |snap| == |oldB| && i < |oldB|
    requires MovedBy(w, node, oldB, newB, snap, i, shift)
    requires forall k :: i < k < |oldB| ==> !Clears(node, oldB, newB, k, w.inPin)
    ensures w in RebindFrom(ws, node, oldB, newB, snap, i, shift)
  {
    var ws1 := RebindStep(ws, node, oldB, newB, snap, i, shift);
    RebindStepMoves(ws, node, oldB, newB, snap, i, shift, w);
    RebindFromKeeps(ws1, node, oldB, newB, snap, i + 1, shift, w);
  }

  /** A wire step `i` takes out is gone after the loop, unless that step or a
      later one moves it back in. */
  lemma {:induction false} RebindFromDrops(ws: set<Wire>, node: NodeId, oldB: seq<string>, newB: seq<string>,
                                           snap: seq<set<OutPinId>>, idx: nat, shift: nat, w: Wire, i: nat)
    requires |snap| == |oldB| && idx <= i < |oldB|
    requires Drops(w, node, oldB, newB, snap, i)
    requires forall k :: i <= k < |oldB| ==> !MovedBy(w, node, oldB, newB, snap, k, shift)
    ensures w !in RebindFrom(ws, node, oldB, newB, snap, idx, shift)
    decreases |oldB| - idx
  {
    if idx == i {
      RebindDropsAt(ws, node, oldB, newB, snap, shift, w, i);
    } else {
      var ws1 := RebindStep(ws, node, oldB, newB, snap, idx, shift);
      RebindFromDrops(ws1, node, oldB, newB, snap, idx + 1, shift, w, i);
    }
  }

  /** `RebindFromDrops` from the dropping step itself: the step takes `w`
      out and no later step puts it back. */
  lemma RebindDropsAt(ws: set<Wire>, node: NodeId, oldB: seq<string>, newB: seq<string>,
                      snap: seq<set<OutPinId>>, shift: nat, w: Wire, i: nat)
    requires |snap| == |oldB| && i < |oldB|
    requires Drops(w, node, oldB, newB, snap, i)
    requires forall k :: i <= k < |oldB| ==> !MovedBy(w, node, oldB, newB, snap, k, shift)
    ensures w !in RebindFrom(ws, node, oldB, newB, snap, i, shift)
  {
    var ws1 := RebindStep(ws, node, oldB, newB, snap, i, shift);
    RebindStepDrops(ws, node, oldB, newB, snap, i, shift, w);
    RebindFromUpper(ws1, node, oldB, newB, snap, i + 1, shift);
  }

  /** The rewiring after an expression node's bindings change from `oldB` to
      `newB`, as written: a vanished binding's pin is cleared, and the wires
      of a binding that moved from `idx` to `new_idx` go to input `new_idx`.
      The steps run in order, so a later step can clear what an earlier one
      moved. */
  function RebindAsWritten(ws: set<Wire>, node: NodeId, oldB: seq<string>, newB: seq<string>): (r: set<Wire>)
    ensures forall w: Wire :: w.inPin.node != node ==> (w in r <==> w in ws)
    ensures var snap := Snapshot(ws, node, |oldB|);
      forall w :: w in r ==> w in ws || exists i :: 0 <= i < |oldB| && MovedBy(w, node, oldB, newB, snap, i, 0)
    ensures forall w :: w in ws && (forall i :: 0 <= i < |oldB| ==> !Clears(node, oldB, newB, i, w.inPin)) ==> w in r
    ensures var snap := Snapshot(ws, node, |oldB|);
      forall w, i :: (0 <= i < |oldB| && MovedBy(w, node, oldB, newB, snap, i, 0)
        && forall k :: i < k < |oldB| ==> !Clears(node, oldB, newB, k, w.inPin)) ==> w in r
    ensures var snap := Snapshot(ws, node, |oldB|);
      forall w, i :: (0 <= i < |oldB| && Drops(w, node, oldB, newB, snap, i)
        && forall k :: i <= k < |oldB| ==> !MovedBy(w, node, oldB, newB, snap, k, 0)) ==> w !in r
  {
    var snap := Snapshot(ws, node, |oldB|);
    var r := RebindFrom(ws, node, oldB, newB, snap, 0, 0);
    RebindFromUpper(ws, node, oldB, newB, snap, 0, 0);
    assert forall w :: w in ws && (forall i :: 0 <= i < |oldB| ==> !Clears(node, oldB, newB, i, w.inPin)) ==> w in r by {
      forall w | w in ws && (forall i :: 0 <= i < |oldB| ==> !Clears(node, oldB, newB, i, w.inPin)) {
        RebindFromKeeps(ws, node, oldB, newB, snap, 0, 0, w);
      }
    }
    assert forall w, i :: (0 <= i < |oldB| && MovedBy(w, node, oldB, newB, snap, i, 0)
        && forall k :: i < k < |oldB| ==> !Clears(node, oldB, newB, k, w.inPin)) ==> w in r by {
      forall w, i | 0 <= i < |oldB| && MovedBy(w, node, oldB, newB, snap, i, 0)
        && forall k :: i < k < |oldB| ==> !Clears(node, oldB, newB, k, w.inPin) {
        RebindFromMoves(ws, node, oldB, newB, snap, 0, 0, w, i);
      }
    }
    assert forall w, i :: (0 <= i < |oldB| && Drops(w, node, oldB, newB, snap, i)
        && forall k :: i <= k < |oldB| ==> !MovedBy(w, node, oldB, newB, snap, k, 0)) ==> w !in r by {
      forall w, i | 0 <= i < |oldB| && Drops(w, node, oldB, newB, snap, i)
        && forall k :: i <= k < |oldB| ==> !MovedBy(w, node, oldB, newB, snap, k, 0) {
        RebindFromDrops(ws, node, oldB, newB, snap, 0, 0, w, i);
      }
    }
    r
  }

  /** Where a wire goes when the bindings change: a wire into binding
      `i`'s pin follows the name to its new pin, or is dropped when the name
      is gone; any other wire stays. */
  function Retarget(w: Wire, node: NodeId, oldB: seq<string>, newB: seq<string>): (r: Option<Wire>)
    ensures !(w.inPin.node == node && 1 <= w.inPin.input <= |oldB|) ==> r == Some(w)
    ensures r.Some? ==> r.value.outPin == w.outPin && r.value.inPin.node == w.inPin.node
  {
    if w.inPin.node == node && 1 <= w.inPin.input <= |oldB| then
      var j := IndexOf(newB, oldB[w.inPin.input - 1]);
      if j == -1 then None else Some(Wire(w.outPin, BindingPin(node, j)))
    else Some(w)
  }

  /** The rewiring as intended: every wire is retargeted at once. */
  function Rebind(ws: set<Wire>, node: NodeId, oldB: seq<string>, newB: seq<string>): (r: set<Wire>)
    ensures forall w :: w in ws && Retarget(w, node, oldB, newB).Some? ==> Retarget(w, node, oldB, newB).value in r
    ensures forall v :: v in r ==> exists w :: w in ws && Retarget(w, node, oldB, newB) == Some(v)
  {
    set w | w in ws && Retarget(w, node, oldB, newB).Some? :: Retarget(w, node, oldB, newB).value
  }

  /** What the intended rewiring achieves, for duplicate-free bindings and a
      graph whose wires into the node use only its old pins: a wire from `o`
      into a surviving name's old pin exists exactly when one into its new
      pin does afterwards; wires into the text pin and into other nodes stay;
      and no wire ends at a pin the new node lacks. */
  lemma RebindFollowsNames(ws: set<Wire>, node: NodeId, oldB: seq<string>, newB: seq<string>)
    requires NoDup(oldB) && NoDup(newB)
    requires forall w :: w in ws && w.inPin.node == node ==> w.inPin.input <= |oldB|
    ensures forall o, i, j :: 0 <= i < |oldB| && 0 <= j < |newB| && oldB[i] == newB[j] ==>
      (Wire(o, BindingPin(node, i)) in ws <==> Wire(o, BindingPin(node, j)) in Rebind(ws, node, oldB, newB))
    ensures forall w: Wire :: w.inPin.node != node || w.inPin.input == 0 ==>
      (w in ws <==> w in Rebind(ws, node, oldB, newB))
    ensures forall w :: w in Rebind(ws, node, oldB, newB) && w.inPin.node == node ==> w.inPin.input <= |newB|
  {
    var r := Rebind(ws, node, oldB, newB);
    forall o, i, j | 0 <= i < |oldB| && 0 <= j < |newB| && oldB[i] == newB[j]
      ensures Wire(o, BindingPin(node, i)) in ws <==> Wire(o, BindingPin(node, j)) in r
    {
      var target := Wire(o, BindingPin(node, j));
      var k := IndexOf(newB, oldB[i]);
      assert k == j;
      if Wire(o, BindingPin(node, i)) in ws {
        assert Retarget(Wire(o, BindingPin(node, i)), node, oldB, newB) == Some(target);
      }
      if target in r {
        var w :| w in ws && Retarget(w, node, oldB, newB) == Some(target);
        assert w.inPin.node == node && 1 <= w.inPin.input <= |oldB|;
        var i' := w.inPin.input - 1;
        assert newB[IndexOf(newB, oldB[i'])] == oldB[i'];
        assert oldB[i'] == oldB[i];
        assert w == Wire(o, BindingPin(node, i));
      }
    }
  }

  /** Finding: the moved wires land one pin too low. Renaming `a + b` to `b`
      must move the wire on `b` (input 2) to input 1; the loop as written
      connects it to input 0, the pin that takes the expression text. */
  lemma RebindOffByOne()
    ensures var o := OutPinId(0, 0);
      var ws := {Wire(o, InPinId(1, 2))};
      Wire(o, InPinId(1, 0)) in RebindAsWritten(ws, 1, ["a", "b"], ["b"])
      && Wire(o, InPinId(1, 1)) !in RebindAsWritten(ws, 1, ["a", "b"], ["b"])
      && Rebind(ws, 1, ["a", "b"], ["b"]) == {Wire(o, InPinId(1, 1))}
  {
    var o := OutPinId(0, 0);
    var ws := {Wire(o, InPinId(1, 2))};
    var oldB := ["a", "b"];
    var newB := ["b"];
    var snap := Snapshot(ws, 1, 2);
    assert o !in snap[0] && o in snap[1];
    assert IndexOf(newB, oldB[0]) == -1;
    assert IndexOf(newB, oldB[1]) == 0;
    var ws1 := RebindStep(ws, 1, oldB, newB, snap, 0, 0);
    assert ws1 == ws;
    var ws2 := RebindStep(ws1, 1, oldB, newB, snap, 1, 0);
    assert Wire(o, InPinId(1, 0)) in ws2 && Wire(o, InPinId(1, 1)) !in ws2;
    assert RebindAsWritten(ws, 1, oldB, newB) == ws2;
    var r := Rebind(ws, 1, oldB, newB);
    assert Retarget(Wire(o, InPinId(1, 2)), 1, oldB, newB) == Some(Wire(o, InPinId(1, 1)));
    assert r == {Wire(o, InPinId(1, 1))};
  }

  /** Finding: clearing the pin of a vanished binding happens after earlier
      bindings were moved onto it, so a moved wire can be lost. With bindings
      `a, x, y` becoming `d, e, a`, the wire on `a` is dropped both as
      written and with the target pin corrected, while the intended
      rewiring keeps it on input 3. */
  lemma RebindLosesMovedWire()
    ensures var o := OutPinId(0, 0);
      var ws := {Wire(o, InPinId(1, 1))};
      var oldB := ["a", "x", "y"];
      var newB := ["d", "e", "a"];
      RebindAsWritten(ws, 1, oldB, newB) == {}
      && RebindFrom(ws, 1, oldB, newB, Snapshot(ws, 1, 3), 0, 1) == {}
      && Rebind(ws, 1, oldB, newB) == {Wire(o, InPinId(1, 3))}
  {
    var o := OutPinId(0, 0);
    var ws := {Wire(o, InPinId(1, 1))};
    var oldB := ["a", "x", "y"];
    var newB := ["d", "e", "a"];
    LosesMovedWireSteps(0, {Wire(o, InPinId(1, 2))});
    LosesMovedWireSteps(1, {Wire(o, InPinId(1, 3))});
    LosesMovedWireIntended();
    assert |oldB| == 3;
  }

  /** The intended rewiring of `RebindLosesMovedWire`'s example keeps the
      wire, on input 3. */
  lemma LosesMovedWireIntended()
    ensures var o := OutPinId(0, 0);
      Rebind({Wire(o, InPinId(1, 1))}, 1, ["a", "x", "y"], ["d", "e", "a"]) == {Wire(o, InPinId(1, 3))}
  {
    var w := Wire(OutPinId(0, 0), InPinId(1, 1));
    assert IndexOf(["d", "e", "a"], "a") == 2;
    assert Retarget(w, 1, ["a", "x", "y"], ["d", "e", "a"]) == Some(Wire(OutPinId(0, 0), InPinId(1, 3)));
  }

  /** A moved binding's step disconnects only the remotes snapshotted on its
      pin, so a wire an earlier step moved onto that pin stays. With bindings
      `a, b` becoming `b, x, a`, the wire on `a` moves to input 2, `b`'s pin;
      `b`'s step moves `b`'s own (absent) remotes and leaves it there. */
  lemma RebindMoveKeepsForeignWire()
    ensures var o := OutPinId(0, 0);
      var ws := {Wire(o, InPinId(1, 1))};
      var oldB := ["a", "b"];
      var newB := ["b", "x", "a"];
      Clears(1, oldB, newB, 1, InPinId(1, 2))
      && RebindAsWritten(ws, 1, oldB, newB) == {Wire(o, InPinId(1, 2))}
  {
    var o := OutPinId(0, 0);
    var ws := {Wire(o, InPinId(1, 1))};
    var oldB := ["a", "b"];
    var newB := ["b", "x", "a"];
    var snap := Snapshot(ws, 1, 2);
    assert o in snap[0] && o !in snap[1];
    assert IndexOf(newB, oldB[0]) == 2;
    assert IndexOf(newB, oldB[1]) == 0;
    var s1 := RebindStep(ws, 1, oldB, newB, snap, 0, 0);
    assert s1 == {Wire(o, InPinId(1, 2))};
    var s2 := RebindStep(s1, 1, oldB, newB, snap, 1, 0);
    assert s2 == s1;
    assert |oldB| == 2;
    assert RebindAsWritten(ws, 1, oldB, newB) == RebindFrom(ws, 1, oldB, newB, snap, 0, 0);
  }

  /** The three steps of the loop in `RebindLosesMovedWire`'s example, with
      target shift 0 (as written) or 1 (corrected): `a` moves to input
      `2 + shift`, whose pin `x`'s or `y`'s step then clears. */
  lemma LosesMovedWireSteps(shift: nat, moved: set<Wire>)
    requires shift <= 1
    requires moved == {Wire(OutPinId(0, 0), InPinId(1, 2 + shift))}
    ensures var ws := {Wire(OutPinId(0, 0), InPinId(1, 1))};
      RebindFrom(ws, 1, ["a", "x", "y"], ["d", "e", "a"], Snapshot(ws, 1, 3), 0, shift) == {}
  {
    var o := OutPinId(0, 0);
    var ws := {Wire(o, InPinId(1, 1))};
    var oldB := ["a", "x", "y"];
    var newB := ["d", "e", "a"];
    var snap := Snapshot(ws, 1, 3);
    assert o in snap[0];
    assert IndexOf(newB, oldB[0]) == 2;
    assert IndexOf(newB, oldB[1]) == -1;
    assert IndexOf(newB, oldB[2]) == -1;
    var s1 := RebindStep(ws, 1, oldB, newB, snap, 0, shift);
    assert s1 == moved;
    var s2 := RebindStep(s1, 1, oldB, newB, snap, 1, shift);
    assert s2 == (if shift == 0 then {} else moved);
    var s3 := RebindStep(s2, 1, oldB, newB, snap, 2, shift);
    assert s3 == {};
  }
}
