/** Deferred graph edits (src/ui/effect.rs): a list of effects recorded by
    the viewer and applied to the graph in order, each guarded by the
    liveness of the nodes it names. The effects act on the graph extended
    with a draw order, which `apply_effect` appends newly inserted nodes to.
    The `Closure` effect, which runs arbitrary host code, is not modelled. */
module Effect {
  import opened Basics
  import opened Graph

  /** A graph together with its draw order. */
  datatype Scene<T> = Scene(snarl: Snarl<T>, drawOrder: seq<NodeId>)

  datatype Effect<T> =
    | InsertNode(pos: Pos2, node: T)
    | RemoveNode(id: NodeId)
    | OpenNode(id: NodeId, open: bool)
    | Connect(from: OutPinId, to: InPinId)
    | Disconnect(from: OutPinId, to: InPinId)
    | DropOutputs(outPin: OutPinId)
    | DropInputs(inPin: InPinId)

  /** `Effects`: the recorded list, oldest first. */
  type Effects<T> = seq<Effect<T>>

  /** `Effects::is_empty`. */
  predicate IsEmpty<T>(es: Effects<T>) {
    |es| == 0
  }

  /** Every builder pushes one effect at the end of the list. */
  function Push<T>(es: Effects<T>, e: Effect<T>): (r: Effects<T>)
    ensures |r| == |es| + 1 && r[..|es|] == es && r[|es|] == e
    ensures !IsEmpty(r)
  {
    es + [e]
  }

  function PushInsertNode<T>(es: Effects<T>, pos: Pos2, node: T): (r: Effects<T>)
    ensures |r| == |es| + 1 && r[..|es|] == es && r[|es|] == InsertNode(pos, node)
  {
    Push(es, InsertNode(pos, node))
  }

  function PushRemoveNode<T>(es: Effects<T>, id: NodeId): (r: Effects<T>)
    ensures |r| == |es| + 1 && r[..|es|] == es && r[|es|] == RemoveNode(id)
  {
    Push(es, RemoveNode(id))
  }

  function PushOpenNode<T>(es: Effects<T>, id: NodeId, open: bool): (r: Effects<T>)
    ensures |r| == |es| + 1 && r[..|es|] == es && r[|es|] == OpenNode(id, open)
  {
    Push(es, OpenNode(id, open))
  }

  function PushConnect<T>(es: Effects<T>, from: OutPinId, to: InPinId): (r: Effects<T>)
    ensures |r| == |es| + 1 && r[..|es|] == es && r[|es|] == Connect(from, to)
  {
    Push(es, Connect(from, to))
  }

  function PushDisconnect<T>(es: Effects<T>, from: OutPinId, to: InPinId): (r: Effects<T>)
    ensures |r| == |es| + 1 && r[..|es|] == es && r[|es|] == Disconnect(from, to)
  {
    Push(es, Disconnect(from, to))
  }

  function PushDropInputs<T>(es: Effects<T>, pin: InPinId): (r: Effects<T>)
    ensures |r| == |es| + 1 && r[..|es|] == es && r[|es|] == DropInputs(pin)
  {
    Push(es, DropInputs(pin))
  }

  function PushDropOutputs<T>(es: Effects<T>, pin: OutPinId): (r: Effects<T>)
    ensures |r| == |es| + 1 && r[..|es|] == es && r[|es|] == DropOutputs(pin)
  {
    Push(es, DropOutputs(pin))
  }

  /** `apply_effect`. */
  function ApplyEffect<T>(s: Scene<T>, e: Effect<T>): (r: Scene<T>)
    ensures e.InsertNode? ==> exists id :: (id !in s.snarl.nodes
      && r.snarl.nodes.Keys == s.snarl.nodes.Keys + {id}
      && r.snarl.nodes[id] == Node(e.node, e.pos, true)
      && r.drawOrder == s.drawOrder + [id]
      && r.snarl.wires == s.snarl.wires
      && forall n :: n in s.snarl.nodes ==> r.snarl.nodes[n] == s.snarl.nodes[n])
    ensures !e.InsertNode? ==> r.drawOrder == s.drawOrder
    ensures e.RemoveNode? ==> (e.id in s.snarl.nodes || r == s)
    ensures e.RemoveNode? && e.id in s.snarl.nodes ==>
      (r.snarl.nodes.Keys == s.snarl.nodes.Keys - {e.id}
      && (forall n :: n in r.snarl.nodes ==> r.snarl.nodes[n] == s.snarl.nodes[n])
      && forall w :: w in r.snarl.wires <==> (w in s.snarl.wires && !Touches(w, e.id)))
    ensures e.OpenNode? ==> r.snarl.wires == s.snarl.wires && r.snarl.nodes.Keys == s.snarl.nodes.Keys
    ensures e.OpenNode? && e.id in s.snarl.nodes ==>
      r.snarl.nodes == s.snarl.nodes[e.id := s.snarl.nodes[e.id].(open := e.open)]
    ensures e.OpenNode? && e.id !in s.snarl.nodes ==> r == s
    ensures (e.Connect? || e.Disconnect?) ==> r.snarl.nodes == s.snarl.nodes
    ensures e.Connect? ==> r.snarl.wires == (if e.from.node in s.snarl.nodes && e.to.node in s.snarl.nodes
      then s.snarl.wires + {Wire(e.from, e.to)} else s.snarl.wires)
    ensures e.Disconnect? ==> r.snarl.wires == (if e.from.node in s.snarl.nodes && e.to.node in s.snarl.nodes
      then s.snarl.wires - {Wire(e.from, e.to)} else s.snarl.wires)
    ensures e.DropOutputs? ==> (r.snarl.nodes == s.snarl.nodes
      && forall w :: w in r.snarl.wires <==>
        (w in s.snarl.wires && (w.outPin != e.outPin || e.outPin.node !in s.snarl.nodes)))
    ensures e.DropInputs? ==> (r.snarl.nodes == s.snarl.nodes
      && forall w :: w in r.snarl.wires <==>
        (w in s.snarl.wires && (w.inPin != e.inPin || e.inPin.node !in s.snarl.nodes)))
    ensures Valid(s.snarl) ==> Valid(r.snarl)
  {
    var g := s.snarl;
    match e
    case InsertNode(pos, node) =>
      var (g1, id) := Graph.InsertNode(g, pos, node);
      Scene(g1, s.drawOrder + [id])
    case RemoveNode(id) =>
      if id in g.nodes then s.(snarl := Graph.RemoveNode(g, id).0) else s
    case OpenNode(id, open) =>
      if id in g.nodes then s.(snarl := Graph.OpenNode(g, id, open)) else s
    case Connect(from, to) =>
      if from.node in g.nodes && to.node in g.nodes then s.(snarl := Graph.Connect(g, from, to).0) else s
    case Disconnect(from, to) =>
      if from.node in g.nodes && to.node in g.nodes then s.(snarl := Graph.Disconnect(g, from, to).0) else s
    case DropOutputs(pin) =>
      if pin.node in g.nodes then s.(snarl := Graph.DropOutputs(g, pin).0) else s
    case DropInputs(pin) =>
      if pin.node in g.nodes then s.(snarl := Graph.DropInputs(g, pin).0) else s
  }

  /** `apply_effects`: each effect in list order. */
  function ApplyEffects<T>(s: Scene<T>, es: Effects<T>): (r: Scene<T>)
    ensures IsEmpty(es) ==> r == s
    decreases |es|
  {
    if |es| == 0 then s else ApplyEffects(ApplyEffect(s, es[0]), es[1..])
  }

  /** Applying a list is a left fold: applying `a + b` is applying `a`,
      then `b`. In particular a pushed effect is applied last. */
  lemma {:induction false} ApplyEffectsAppend<T>(s: Scene<T>, a: Effects<T>, b: Effects<T>)
    ensures ApplyEffects(s, a + b) == ApplyEffects(ApplyEffects(s, a), b)
    decreases |a|
  {
    if |a| == 0 {
      assert a + b == b;
    } else {
      assert (a + b)[0] == a[0];
      assert (a + b)[1..] == a[1..] + b;
      ApplyEffectsAppend(ApplyEffect(s, a[0]), a[1..], b);
    }
  }

  /** The effect pushed last is applied after all the others. */
  lemma ApplyPushed<T>(s: Scene<T>, es: Effects<T>, e: Effect<T>)
    ensures ApplyEffects(s, Push(es, e)) == ApplyEffect(ApplyEffects(s, es), e)
  {
    ApplyEffectsAppend(s, es, [e]);
    assert [e][1..] == [];
  }

  /** No list of effects leaves a wire dangling in a graph without dangling
      wires. */
  lemma {:induction false} ApplyEffectsKeepsValid<T>(s: Scene<T>, es: Effects<T>)
    requires Valid(s.snarl)
    ensures Valid(ApplyEffects(s, es).snarl)
    decreases |es|
  {
    if |es| > 0 {
      ApplyEffectsKeepsValid(ApplyEffect(s, es[0]), es[1..]);
    }
  }

  /** Without insertions the draw order is left alone: only `InsertNode`
      touches it, and removal does not prune it. */
  lemma {:induction false} OnlyInsertGrowsOrder<T>(s: Scene<T>, es: Effects<T>)
    requires forall i :: 0 <= i < |es| ==> !es[i].InsertNode?
    ensures ApplyEffects(s, es).drawOrder == s.drawOrder
    decreases |es|
  {
    if |es| > 0 {
      OnlyInsertGrowsOrder(ApplyEffect(s, es[0]), es[1..]);
    }
  }

  /** A node inserted by an effect is live for the effects after it: the
      id it got is the last in the draw order, and a wire from it connects. */
  lemma ConnectAfterInsert<T>(s: Scene<T>, pos: Pos2, node: T, to: InPinId, output: nat)
    requires to.node in s.snarl.nodes
    ensures var s1 := ApplyEffect(s, InsertNode(pos, node));
      var id := s1.drawOrder[|s1.drawOrder| - 1];
      ApplyEffect(s1, Connect(OutPinId(id, output), to)).snarl.wires
        == s.snarl.wires + {Wire(OutPinId(id, output), to)}
  {
  }
}
