/** Per-widget interaction state (src/ui/state.rs): the bundle of wires being
    dragged, draw order, selection, rectangle selection, the dirty flag that
    decides whether the state is written back to the GUI context, and the
    per-node cached size. The GUI context's temporary storage for one widget
    id is modelled as a `Memory` value. */
module State {
  import opened Basics
  import opened Seqs
  import opened Graph

  /** Viewport transform to global space (scaling, then translation). */
  datatype TSTransform = TSTransform(scaling: real, translation: Vec2)

  /** Wires being dragged from one or more pins, all on the same side. */
  datatype NewWires = In(ins: seq<InPinId>) | Out(outs: seq<OutPinId>)

  /** An active rectangle selection: where the drag started and where it is now. */
  datatype RectSelect = RectSelect(origin: Pos2, current: Pos2)

  datatype SnarlState = SnarlState(
    toGlobal: TSTransform,
    newWires: Option<NewWires>,
    /** The bundle is owned by the dropped-wire menu. */
    newWiresMenu: bool,
    dirty: bool,
    rectSelection: Option<RectSelect>,
    drawOrder: seq<NodeId>,
    selectedNodes: seq<NodeId>)

  /** Everything but the lists, saved as one record. */
  datatype StateData = StateData(
    toGlobal: TSTransform,
    newWires: Option<NewWires>,
    newWiresMenu: bool,
    rectSelection: Option<RectSelect>)

  /** The GUI context's temporary storage for one widget id. An empty list is
      stored by removing its entry. */
  datatype Memory = Memory(
    data: Option<StateData>,
    drawOrder: Option<seq<NodeId>>,
    selected: Option<seq<NodeId>>)

  // ---------------------------------------------------------------- persistence

  /** `DrawOrder::save` / `SelectedNodes::save`: an empty list removes the entry. */
  function SaveList(s: seq<NodeId>): (r: Option<seq<NodeId>>)
    ensures r.None? <==> s == []
    ensures r.Some? ==> r.value == s
  {
    if s == [] then None else Some(s)
  }

  /** `unwrap_or_default` on a loaded list. */
  function LoadList(m: Option<seq<NodeId>>): (r: seq<NodeId>)
    ensures m.Some? ==> r == m.value
    ensures m.None? ==> r == []
  {
    if m.Some? then m.value else []
  }

  /** `prune_selected_nodes`: keeps the live ids, in order (it is `KeepIn`,
      see `KeepInAppend`), and reports whether the length changed. */
  function PruneSelectedNodes<T>(sel: seq<NodeId>, g: Snarl<T>): (r: (seq<NodeId>, bool))
    ensures forall n :: n in r.0 <==> n in sel && n in g.nodes
    ensures NoDup(sel) ==> NoDup(r.0)
    ensures r.1 <==> exists n :: n in sel && n !in g.nodes
  {
    var kept := KeepIn(sel, g.nodes.Keys);
    KeepInAll(sel, g.nodes.Keys);
    (kept, |sel| != |kept|)
  }

  /** `SnarlState::initial` with its float placement computed elsewhere. */
  function Initial(toGlobal: TSTransform): (st: SnarlState)
    ensures st.newWires.None? && !st.newWiresMenu && st.dirty
    ensures st.rectSelection.None? && st.drawOrder == [] && st.selectedNodes == []
  {
    SnarlState(toGlobal, None, false, true, None, [], [])
  }

  /** `SnarlState::load`: without saved data the state starts afresh (and is
      dirty); otherwise the saved parts are restored and the selection pruned,
      the state being dirty exactly when pruning dropped something. */
  function Load<T>(m: Memory, g: Snarl<T>, initial: TSTransform): (st: SnarlState)
    ensures m.data.None? ==> st == Initial(initial)
    ensures m.data.Some? ==>
      st.toGlobal == m.data.value.toGlobal && st.newWires == m.data.value.newWires
      && st.newWiresMenu == m.data.value.newWiresMenu
      && st.rectSelection == m.data.value.rectSelection
      && st.drawOrder == LoadList(m.drawOrder)
      && (forall n :: n in st.selectedNodes <==> n in LoadList(m.selected) && n in g.nodes)
      && (st.dirty <==> exists n :: n in LoadList(m.selected) && n !in g.nodes)
  {
    match m.data
    case None => Initial(initial)
    case Some(d) =>
      var (sel, dirty) := PruneSelectedNodes(LoadList(m.selected), g);
      SnarlState(d.toGlobal, d.newWires, d.newWiresMenu, dirty, d.rectSelection, LoadList(m.drawOrder), sel)
  }

  /** `SnarlState::store`: prunes the selection, and writes everything back
      only if the state is dirty. */
  function Store<T>(st: SnarlState, g: Snarl<T>, m: Memory): (r: Memory)
    ensures !st.dirty && (forall n :: n in st.selectedNodes ==> n in g.nodes) ==> r == m
    ensures st.dirty || (exists n :: n in st.selectedNodes && n !in g.nodes) ==>
      (r.data == Some(StateData(st.toGlobal, st.newWires, st.newWiresMenu, st.rectSelection))
      && r.drawOrder == SaveList(st.drawOrder)
      && r.selected == SaveList(KeepIn(st.selectedNodes, g.nodes.Keys)))
    ensures r != m ==> forall n :: n in LoadList(r.selected) ==> n in g.nodes
  {
    var (sel, pruned) := PruneSelectedNodes(st.selectedNodes, g);
    if st.dirty || pruned then
      Memory(Some(StateData(st.toGlobal, st.newWires, st.newWiresMenu, st.rectSelection)),
             SaveList(st.drawOrder), SaveList(sel))
    else m
  }

  /** Loading what `store` wrote gives back the state, pruned and clean. */
  lemma StoreLoadRoundTrip<T>(st: SnarlState, g: Snarl<T>, m: Memory, initial: TSTransform)
    requires st.dirty
    requires forall n :: n in st.selectedNodes ==> n in g.nodes
    ensures Load(Store(st, g, m), g, initial) == st.(dirty := false)
  {
    var m' := Store(st, g, m);
    KeepInAll(st.selectedNodes, g.nodes.Keys);
    var sel := KeepIn(st.selectedNodes, g.nodes.Keys);
    assert sel == st.selectedNodes by {
      KeepInIdentity(st.selectedNodes, g.nodes.Keys);
    }
    KeepInIdentity(st.selectedNodes, g.nodes.Keys);
    assert LoadList(m'.selected) == st.selectedNodes;
  }

  lemma {:induction false} KeepInIdentity(s: seq<NodeId>, keep: set<NodeId>)
    requires forall n :: n in s ==> n in keep
    ensures KeepIn(s, keep) == s
  {
    if |s| > 0 {
      KeepInIdentity(s[1..], keep);
    }
  }

  /** `set_to_global`: marks dirty only on a real change. */
  function SetToGlobal(st: SnarlState, t: TSTransform): (r: SnarlState)
    ensures r.toGlobal == t
    ensures r.dirty == (st.dirty || st.toGlobal != t)
    ensures r.(toGlobal := st.toGlobal, dirty := st.dirty) == st
  {
    if st.toGlobal != t then st.(toGlobal := t, dirty := true) else st
  }

  // ---------------------------------------------------------------- new wires

  /** `start_new_wire_in`. */
  function StartNewWireIn(st: SnarlState, pin: InPinId): (r: SnarlState)
    ensures r.newWires == Some(In([pin])) && !r.newWiresMenu && r.dirty
    ensures HasNewWiresIn(r) && !HasNewWiresOut(r)
    ensures r.(newWires := st.newWires, newWiresMenu := st.newWiresMenu, dirty := st.dirty) == st
  {
    StartNewWiresIn(st, [pin])
  }

  /** `start_new_wire_out`. */
  function StartNewWireOut(st: SnarlState, pin: OutPinId): (r: SnarlState)
    ensures r.newWires == Some(Out([pin])) && !r.newWiresMenu && r.dirty
    ensures HasNewWiresOut(r) && !HasNewWiresIn(r)
    ensures r.(newWires := st.newWires, newWiresMenu := st.newWiresMenu, dirty := st.dirty) == st
  {
    StartNewWiresOut(st, [pin])
  }

  /** `start_new_wires_in`: replaces any bundle, taking it back from the menu. */
  function StartNewWiresIn(st: SnarlState, pins: seq<InPinId>): (r: SnarlState)
    ensures r.newWires == Some(In(pins)) && !r.newWiresMenu && r.dirty
    ensures NewWiresView(r) == Some(In(pins))
    ensures r.(newWires := st.newWires, newWiresMenu := st.newWiresMenu, dirty := st.dirty) == st
  {
    st.(newWires := Some(In(pins)), newWiresMenu := false, dirty := true)
  }

  /** `start_new_wires_out`: replaces any bundle, taking it back from the menu. */
  function StartNewWiresOut(st: SnarlState, pins: seq<OutPinId>): (r: SnarlState)
    ensures r.newWires == Some(Out(pins)) && !r.newWiresMenu && r.dirty
    ensures NewWiresView(r) == Some(Out(pins))
    ensures r.(newWires := st.newWires, newWiresMenu := st.newWiresMenu, dirty := st.dirty) == st
  {
    st.(newWires := Some(Out(pins)), newWiresMenu := false, dirty := true)
  }

  /** `add_new_wire_in`: the bundle must be an input bundle not owned by the
      menu (`debug_assert!` and `unreachable!` in the source). Appends the pin
      if it is not in the bundle yet. */
  function AddNewWireIn(st: SnarlState, pin: InPinId): (r: SnarlState)
    requires HasNewWiresIn(st)
    ensures HasNewWiresIn(r)
    ensures pin in st.newWires.value.ins ==> r == st
    ensures pin !in st.newWires.value.ins ==>
      r.newWires.value.ins == st.newWires.value.ins + [pin] && r.dirty
    ensures NoDup(st.newWires.value.ins) ==> NoDup(r.newWires.value.ins)
    ensures r.(newWires := st.newWires, dirty := st.dirty) == st
  {
    var pins := st.newWires.value.ins;
    if pin !in pins then st.(newWires := Some(In(pins + [pin])), dirty := true) else st
  }

  /** `add_new_wire_out`, the output-side twin of `AddNewWireIn`. */
  function AddNewWireOut(st: SnarlState, pin: OutPinId): (r: SnarlState)
    requires HasNewWiresOut(st)
    ensures HasNewWiresOut(r)
    ensures pin in st.newWires.value.outs ==> r == st
    ensures pin !in st.newWires.value.outs ==>
      r.newWires.value.outs == st.newWires.value.outs + [pin] && r.dirty
    ensures NoDup(st.newWires.value.outs) ==> NoDup(r.newWires.value.outs)
    ensures r.(newWires := st.newWires, dirty := st.dirty) == st
  {
    var pins := st.newWires.value.outs;
    if pin !in pins then st.(newWires := Some(Out(pins + [pin])), dirty := true) else st
  }

  /** `remove_new_wire_in`: removes the first occurrence of the pin by
      `swap_remove`, so the order of the rest may change. */
  function RemoveNewWireIn(st: SnarlState, pin: InPinId): (r: SnarlState)
    requires HasNewWiresIn(st)
    ensures HasNewWiresIn(r)
    ensures pin !in st.newWires.value.ins ==> r == st
    ensures pin in st.newWires.value.ins ==> (r.dirty &&
      multiset(r.newWires.value.ins) == multiset(st.newWires.value.ins) - multiset{pin})
    ensures NoDup(st.newWires.value.ins) ==> (NoDup(r.newWires.value.ins)
      && forall p :: p in r.newWires.value.ins <==> p in st.newWires.value.ins && p != pin)
    ensures r.(newWires := st.newWires, dirty := st.dirty) == st
  {
    var pins := st.newWires.value.ins;
    var idx := IndexOf(pins, pin);
    if idx >= 0 then
      assert NoDup(pins) ==> NoDup(SwapRemove(pins, idx)) by {
        if NoDup(pins) { SwapRemoveNoDup(pins, idx); }
      }
      st.(newWires := Some(In(SwapRemove(pins, idx))), dirty := true)
    else st
  }

  /** `remove_new_wire_out`, the output-side twin of `RemoveNewWireIn`. */
  function RemoveNewWireOut(st: SnarlState, pin: OutPinId): (r: SnarlState)
    requires HasNewWiresOut(st)
    ensures HasNewWiresOut(r)
    ensures pin !in st.newWires.value.outs ==> r == st
    ensures pin in st.newWires.value.outs ==> (r.dirty &&
      multiset(r.newWires.value.outs) == multiset(st.newWires.value.outs) - multiset{pin})
    ensures NoDup(st.newWires.value.outs) ==> (NoDup(r.newWires.value.outs)
      && forall p :: p in r.newWires.value.outs <==> p in st.newWires.value.outs && p != pin)
    ensures r.(newWires := st.newWires, dirty := st.dirty) == st
  {
    var pins := st.newWires.value.outs;
    var idx := IndexOf(pins, pin);
    if idx >= 0 then
      assert NoDup(pins) ==> NoDup(SwapRemove(pins, idx)) by {
        if NoDup(pins) { SwapRemoveNoDup(pins, idx); }
      }
      st.(newWires := Some(Out(SwapRemove(pins, idx))), dirty := true)
    else st
  }

  /** `has_new_wires`: a bundle exists and the menu does not own it. */
  predicate HasNewWires(st: SnarlState) {
    st.newWires.Some? && !st.newWiresMenu
  }

  /** `has_new_wires_in`. */
  predicate HasNewWiresIn(st: SnarlState) {
    st.newWires.Some? && st.newWires.value.In? && !st.newWiresMenu
  }

  /** `has_new_wires_out`. */
  predicate HasNewWiresOut(st: SnarlState) {
    st.newWires.Some? && st.newWires.value.Out? && !st.newWiresMenu
  }

  /** `new_wires`: the bundle, unless the menu owns it. */
  function NewWiresView(st: SnarlState): (r: Option<NewWires>)
    ensures r.Some? <==> HasNewWires(st)
    ensures r.Some? ==> r == st.newWires
  {
    if st.newWiresMenu then None else st.newWires
  }

  /** The accessors agree: a bundle is visible iff it is an input or an output bundle. */
  lemma HasNewWiresSplits(st: SnarlState)
    ensures HasNewWires(st) <==> HasNewWiresIn(st) || HasNewWiresOut(st)
    ensures !(HasNewWiresIn(st) && HasNewWiresOut(st))
    ensures st.newWiresMenu ==> NewWiresView(st).None?
  {
  }

  /** `take_new_wires`: hands over and clears a bundle the menu does not own. */
  function TakeNewWires(st: SnarlState): (r: (SnarlState, Option<NewWires>))
    ensures HasNewWires(st) ==> r.1 == st.newWires && r.0 == st.(newWires := None, dirty := true)
    ensures !HasNewWires(st) ==> r == (st, None)
    ensures !HasNewWires(r.0)
  {
    if HasNewWires(st) then (st.(newWires := None, dirty := true), st.newWires) else (st, None)
  }

  /** `take_new_wires_menu`: hands over and clears a bundle the menu owns. */
  function TakeNewWiresMenu(st: SnarlState): (r: (SnarlState, Option<NewWires>))
    ensures st.newWires.Some? && st.newWiresMenu ==>
      r.1 == st.newWires && r.0 == st.(newWires := None, dirty := true)
    ensures !(st.newWires.Some? && st.newWiresMenu) ==> r == (st, None)
    ensures r.0.newWires.None? || !r.0.newWiresMenu
  {
    if st.newWires.Some? && st.newWiresMenu then (st.(newWires := None, dirty := true), st.newWires)
    else (st, None)
  }

  /** `set_new_wires_menu`: hands a bundle to the menu; there must be no
      bundle already (`debug_assert!`). The dirty flag is left alone. */
  function SetNewWiresMenu(st: SnarlState, wires: NewWires): (r: SnarlState)
    requires st.newWires.None?
    ensures r.newWires == Some(wires) && r.newWiresMenu
    ensures r.(newWires := None, newWiresMenu := st.newWiresMenu) == st
  {
    st.(newWires := Some(wires), newWiresMenu := true)
  }

  /** The menu flag gates the two takers: once the menu owns a bundle only
      `take_new_wires_menu` yields it, and it does so exactly once. */
  lemma MenuOwnsBundle(st: SnarlState, wires: NewWires)
    requires st.newWires.None?
    ensures var m := SetNewWiresMenu(st, wires);
      !HasNewWires(m) && NewWiresView(m).None? && TakeNewWires(m) == (m, None)
      && TakeNewWiresMenu(m).1 == Some(wires)
      && TakeNewWiresMenu(TakeNewWiresMenu(m).0).1.None?
  {
  }

  /** Taking the bundle twice yields it once. */
  lemma TakeTwice(st: SnarlState)
    ensures TakeNewWires(TakeNewWires(st).0).1.None?
    ensures TakeNewWires(st).1.Some? <==> HasNewWires(st)
  {
  }

  /** Adding a new pin and removing it again restores the bundle exactly. */
  lemma AddRemoveNewWireIn(st: SnarlState, pin: InPinId)
    requires HasNewWiresIn(st) && pin !in st.newWires.value.ins
    ensures RemoveNewWireIn(AddNewWireIn(st, pin), pin).newWires == st.newWires
  {
    var pins := st.newWires.value.ins;
    assert IndexOf(pins + [pin], pin) == |pins|;
    SwapRemoveLast(pins, pin);
  }

  /** Adding a new pin and removing it again restores the bundle exactly. */
  lemma AddRemoveNewWireOut(st: SnarlState, pin: OutPinId)
    requires HasNewWiresOut(st) && pin !in st.newWires.value.outs
    ensures RemoveNewWireOut(AddNewWireOut(st, pin), pin).newWires == st.newWires
  {
    var pins := st.newWires.value.outs;
    assert IndexOf(pins + [pin], pin) == |pins|;
    SwapRemoveLast(pins, pin);
  }

  // ---------------------------------------------------------------- draw order

  /** The `retain` in `update_draw_order`: keeps an id the first time it is
      met while it is still in `remaining`, removing it from there; reports
      whether anything was dropped. */
  function RetainLive(order: seq<NodeId>, remaining: set<NodeId>): (r: (seq<NodeId>, set<NodeId>, bool))
    ensures NoDup(r.0) && |r.0| <= |order|
    ensures forall n :: n in r.0 <==> n in order && n in remaining
    ensures forall n :: n in r.1 <==> n in remaining && n !in order
    ensures r.2 <==> r.0 != order
  {
    if |order| == 0 then ([], remaining, false)
    else
      var id := order[0];
      if id in remaining then
        var (kept, rest, dropped) := RetainLive(order[1..], remaining - {id});
        assert forall n :: n in order <==> n == id || n in order[1..];
        ([id] + kept, rest, dropped)
      else
        var (kept, rest, dropped) := RetainLive(order[1..], remaining);
        assert forall n :: n in order <==> n == id || n in order[1..];
        (kept, rest, true)
  }

  /** `update_draw_order`. The live ids come from a hash set whose iteration
      order is the parameter `hashOrder`: it lists the live ids once each.
      Ids no longer live (and repeats) are dropped; the survivors keep their
      order; the ids not yet ordered follow in hash order. The state turns
      dirty if anything was dropped or added. Returns the new order. */
  function UpdateDrawOrder<T>(st: SnarlState, g: Snarl<T>, hashOrder: seq<NodeId>): (r: (SnarlState, seq<NodeId>))
    requires NoDup(hashOrder) && forall n :: n in hashOrder <==> n in g.nodes
    ensures r.1 == r.0.drawOrder
    ensures NoDup(r.1)
    ensures forall n :: n in r.1 <==> n in g.nodes
    ensures r.0.dirty == (st.dirty || r.1 != st.drawOrder)
    ensures r.0.(drawOrder := st.drawOrder, dirty := st.dirty) == st
  {
    var (kept, rest, dropped) := RetainLive(st.drawOrder, g.nodes.Keys);
    var added := KeepIn(hashOrder, rest);
    var order := kept + added;
    assert NoDup(order) by {
      forall i, j | 0 <= i < |kept| <= j < |order| ensures order[i] != order[j] {
        assert order[j] in added;
        assert order[i] in kept;
      }
    }
    assert added == [] <==> rest == {} by {
      KeepInEmpty(hashOrder, rest);
    }
    assert order == st.drawOrder ==> !dropped && added == [];
    var dirty := st.dirty || dropped || rest != {};
    (st.(drawOrder := order, dirty := dirty), order)
  }

  /** With a duplicate-free old order, the new order is the old one filtered
      to the live ids, then the newcomers in hash order. */
  lemma {:induction false} RetainLiveFilters(order: seq<NodeId>, remaining: set<NodeId>)
    requires NoDup(order)
    ensures RetainLive(order, remaining).0 == KeepIn(order, remaining)
  {
    if |order| > 0 {
      var id := order[0];
      assert NoDup(order[1..]);
      if id in remaining {
        RetainLiveFilters(order[1..], remaining - {id});
        KeepInDrop(order[1..], remaining, id);
      } else {
        RetainLiveFilters(order[1..], remaining);
      }
    }
  }

  /** Filtering by `keep - {x}` or by `keep` is the same when `x` is absent. */
  lemma {:induction false} KeepInDrop(s: seq<NodeId>, keep: set<NodeId>, x: NodeId)
    requires x !in s
    ensures KeepIn(s, keep - {x}) == KeepIn(s, keep)
  {
    if |s| > 0 {
      KeepInDrop(s[1..], keep, x);
    }
  }

  lemma UpdateDrawOrderShape<T>(st: SnarlState, g: Snarl<T>, hashOrder: seq<NodeId>)
    requires NoDup(hashOrder) && forall n :: n in hashOrder <==> n in g.nodes
    requires NoDup(st.drawOrder)
    ensures UpdateDrawOrder(st, g, hashOrder).1
      == KeepIn(st.drawOrder, g.nodes.Keys) + KeepOut(hashOrder, Elems(st.drawOrder))
  {
    var (kept, rest, dropped) := RetainLive(st.drawOrder, g.nodes.Keys);
    RetainLiveFilters(st.drawOrder, g.nodes.Keys);
    KeepInKeepOut(hashOrder, rest, Elems(st.drawOrder));
  }

  /** Within the live ids, "not yet ordered" and "not in the old order" agree. */
  lemma {:induction false} KeepInKeepOut(s: seq<NodeId>, keep: set<NodeId>, drop: set<NodeId>)
    requires forall n :: n in s ==> (n in keep <==> n !in drop)
    ensures KeepIn(s, keep) == KeepOut(s, drop)
  {
    if |s| > 0 {
      KeepInKeepOut(s[1..], keep, drop);
    }
  }

  /** `node_to_top`: moves the node's first occurrence to the end; an id not
      in the order leaves it as is. Always marks the state dirty. */
  function NodeToTop(st: SnarlState, node: NodeId): (r: SnarlState)
    ensures r.dirty
    ensures node !in st.drawOrder ==> r.drawOrder == st.drawOrder
    ensures node in st.drawOrder ==> (|r.drawOrder| == |st.drawOrder|
      && r.drawOrder[|r.drawOrder| - 1] == node
      && multiset(r.drawOrder) == multiset(st.drawOrder))
    ensures r.(drawOrder := st.drawOrder, dirty := st.dirty) == st
  {
    var i := IndexOf(st.drawOrder, node);
    if i >= 0 then st.(drawOrder := MoveToEnd(st.drawOrder, i), dirty := true)
    else st.(dirty := true)
  }

  /** On a duplicate-free order, raising a node keeps the order a permutation
      without repeats and leaves the other nodes in their relative order. */
  lemma NodeToTopKeepsOthers(st: SnarlState, node: NodeId)
    requires NoDup(st.drawOrder)
    ensures NoDup(NodeToTop(st, node).drawOrder)
    ensures KeepOut(NodeToTop(st, node).drawOrder, {node}) == KeepOut(st.drawOrder, {node})
  {
    var i := IndexOf(st.drawOrder, node);
    if i >= 0 {
      MoveToEndKeepsOthers(st.drawOrder, i);
    }
  }

  /** Moving an element of a duplicate-free sequence to the end keeps it
      duplicate-free and the other elements in order. */
  lemma MoveToEndKeepsOthers(s: seq<NodeId>, i: nat)
    requires NoDup(s) && i < |s|
    ensures NoDup(MoveToEnd(s, i))
    ensures KeepOut(MoveToEnd(s, i), {s[i]}) == KeepOut(s, {s[i]})
  {
    var x := s[i];
    var rest := KeepOut(s, {x});
    assert MoveToEnd(s, i) == rest + [x] by { RemoveAtIsKeepOut(s, i); }
    NoDupSnoc(rest, x);
    KeepOutSnocDropped(rest, x);
    KeepOutTwice(s, {x});
  }

  /** Filtering out `x` forgets an `x` appended at the end. */
  lemma KeepOutSnocDropped(s: seq<NodeId>, x: NodeId)
    ensures KeepOut(s + [x], {x}) == KeepOut(s, {x})
  {
    KeepOutAppend(s, [x], {x});
    assert KeepOut([x], {x}) == [];
    assert KeepOut(s, {x}) + [] == KeepOut(s, {x});
  }

  lemma {:induction false} KeepOutAppend(a: seq<NodeId>, b: seq<NodeId>, drop: set<NodeId>)
    ensures KeepOut(a + b, drop) == KeepOut(a, drop) + KeepOut(b, drop)
    decreases |a|
  {
    if |a| == 0 {
      assert a + b == b;
    } else {
      assert (a + b)[0] == a[0] && (a + b)[1..] == a[1..] + b;
      var head := if a[0] in drop then [] else [a[0]];
      KeepOutCons(a + b, drop);
      KeepOutCons(a, drop);
      KeepOutAppend(a[1..], b, drop);
      ConcatAssoc(head, KeepOut(a[1..], drop), KeepOut(b, drop));
    }
  }

  /** One step of the filter: the head is kept unless dropped. */
  lemma KeepOutCons(s: seq<NodeId>, drop: set<NodeId>)
    requires |s| > 0
    ensures KeepOut(s, drop) == (if s[0] in drop then [] else [s[0]]) + KeepOut(s[1..], drop)
  {
  }

  lemma {:induction false} KeepOutTwice(s: seq<NodeId>, drop: set<NodeId>)
    ensures KeepOut(KeepOut(s, drop), drop) == KeepOut(s, drop)
  {
    if |s| > 0 {
      KeepOutTwice(s[1..], drop);
    }
  }

  // ---------------------------------------------------------------- selection

  /** Everything but the selection and the dirty flag is the same. */
  predicate SelectionOnly(r: SnarlState, st: SnarlState) {
    r.toGlobal == st.toGlobal && r.newWires == st.newWires && r.newWiresMenu == st.newWiresMenu
    && r.rectSelection == st.rectSelection && r.drawOrder == st.drawOrder
  }

  /** The node is already selected last, and only there. */
  predicate OnlyAtEnd(sel: seq<NodeId>, node: NodeId) {
    |sel| > 0 && sel[|sel| - 1] == node && node !in sel[..|sel| - 1]
  }

  /** `select_one_node` has nothing to do: the selection already is `[node]`
      under reset, or already ends with its only `node` without. */
  predicate AlreadySelected(sel: seq<NodeId>, reset: bool, node: NodeId) {
    if reset then sel == [node] else OnlyAtEnd(sel, node)
  }

  /** The list `select_one_node` leaves, and whether it had anything to do. */
  function SelectList(sel: seq<NodeId>, reset: bool, node: NodeId): (r: (seq<NodeId>, bool))
    ensures reset ==> r.0 == [node]
    ensures !reset ==> |r.0| > 0 && r.0[|r.0| - 1] == node
    ensures !reset ==> forall n :: n in r.0 <==> n in sel || n == node
    ensures !r.1 <==> AlreadySelected(sel, reset, node)
    ensures !r.1 ==> r.0 == sel
  {
    var i := IndexOf(sel, node);
    if reset then (if sel == [node] then (sel, false) else ([node], true))
    else if i == -1 then
      assert !OnlyAtEnd(sel, node);
      assert forall n :: n in sel + [node] <==> n in sel || n == node;
      (sel + [node], true)
    else if i == |sel| - 1 then
      assert OnlyAtEnd(sel, node) by { assert sel[..i] == sel[..|sel| - 1]; }
      (sel, false)
    else
      assert !OnlyAtEnd(sel, node) by { assert sel[i] in sel[..|sel| - 1]; }
      (MoveToEnd(sel, i), true)
  }

  /** `select_one_node`. With `reset` the selection becomes exactly `[node]`;
      without, `node` is moved (or added) to the end. The state is dirtied
      unless there was nothing to do. */
  function SelectOneNode(st: SnarlState, reset: bool, node: NodeId): (r: SnarlState)
    ensures reset ==> r.selectedNodes == [node]
    ensures !reset ==> |r.selectedNodes| > 0 && r.selectedNodes[|r.selectedNodes| - 1] == node
    ensures !reset ==> forall n :: n in r.selectedNodes <==> n in st.selectedNodes || n == node
    ensures AlreadySelected(st.selectedNodes, reset, node) ==> r == st
    ensures !AlreadySelected(st.selectedNodes, reset, node) ==> r.dirty
    ensures SelectionOnly(r, st)
  {
    var (sel, touched) := SelectList(st.selectedNodes, reset, node);
    st.(selectedNodes := sel, dirty := st.dirty || touched)
  }

  /** Selecting without reset keeps a duplicate-free selection so, leaves the
      other nodes in order, and on such a selection dirties the state exactly
      when the selection changed. */
  lemma SelectOneNodeKeepsOthers(st: SnarlState, node: NodeId)
    requires NoDup(st.selectedNodes)
    ensures NoDup(SelectOneNode(st, false, node).selectedNodes)
    ensures KeepOut(SelectOneNode(st, false, node).selectedNodes, {node}) == KeepOut(st.selectedNodes, {node})
    ensures var r := SelectOneNode(st, false, node); r.dirty == (st.dirty || r.selectedNodes != st.selectedNodes)
  {
    var sel := st.selectedNodes;
    var r := SelectOneNode(st, false, node);
    var i := IndexOf(sel, node);
    if i == -1 {
      assert r.selectedNodes == sel + [node];
      NoDupSnoc(sel, node);
      KeepOutSnocDropped(sel, node);
    } else if i < |sel| - 1 {
      assert r.selectedNodes == MoveToEnd(sel, i);
      MoveToEndKeepsOthers(sel, i);
      assert sel[|sel| - 1] != node;
    } else {
      assert r == st;
      assert node !in sel[..|sel| - 1];
    }
  }

  /** `select_many_nodes`. With `reset` the selection becomes `nodes`;
      without, each node is selected in turn as by `select_one_node(false, _)`. */
  function SelectManyNodes(st: SnarlState, reset: bool, nodes: seq<NodeId>): (r: SnarlState)
    ensures reset ==> r.selectedNodes == nodes && r.dirty
    ensures !reset ==> forall n :: n in r.selectedNodes <==> n in st.selectedNodes || n in nodes
    ensures !reset && NoDup(st.selectedNodes) ==> NoDup(r.selectedNodes)
    ensures r.(selectedNodes := st.selectedNodes, dirty := st.dirty) == st
    decreases |nodes|
  {
    if reset then st.(selectedNodes := nodes, dirty := true)
    else if |nodes| == 0 then st
    else
      var s1 := SelectOneNode(st, false, nodes[0]);
      assert NoDup(st.selectedNodes) ==> NoDup(s1.selectedNodes) by {
        if NoDup(st.selectedNodes) { SelectOneNodeKeepsOthers(st, nodes[0]); }
      }
      var r := SelectManyNodes(s1, false, nodes[1..]);
      assert forall n :: n in nodes <==> n == nodes[0] || n in nodes[1..];
      r
  }

  /** `deselect_one_node`: removes the first occurrence, if any. */
  function DeselectOneNode(st: SnarlState, node: NodeId): (r: SnarlState)
    ensures node !in st.selectedNodes ==> r == st
    ensures node in st.selectedNodes ==> r.dirty && |r.selectedNodes| == |st.selectedNodes| - 1
    ensures NoDup(st.selectedNodes) ==> (NoDup(r.selectedNodes)
      && r.selectedNodes == KeepOut(st.selectedNodes, {node}))
    ensures r.(selectedNodes := st.selectedNodes, dirty := st.dirty) == st
  {
    var i := IndexOf(st.selectedNodes, node);
    if i >= 0 then
      assert NoDup(st.selectedNodes) ==> RemoveAt(st.selectedNodes, i) == KeepOut(st.selectedNodes, {node}) by {
        if NoDup(st.selectedNodes) { RemoveAtIsKeepOut(st.selectedNodes, i); }
      }
      st.(selectedNodes := RemoveAt(st.selectedNodes, i), dirty := true)
    else
      assert NoDup(st.selectedNodes) ==> st.selectedNodes == KeepOut(st.selectedNodes, {node}) by {
        KeepOutAbsent(st.selectedNodes, {node});
      }
      st
  }

  /** `deselect_many_nodes`: deselects each node in turn. */
  function DeselectManyNodes(st: SnarlState, nodes: seq<NodeId>): (r: SnarlState)
    ensures forall n :: n in r.selectedNodes ==> n in st.selectedNodes
    ensures |r.selectedNodes| <= |st.selectedNodes|
    ensures r.(selectedNodes := st.selectedNodes, dirty := st.dirty) == st
    decreases |nodes|
  {
    if |nodes| == 0 then st
    else DeselectManyNodes(DeselectOneNode(st, nodes[0]), nodes[1..])
  }

  /** On a duplicate-free selection, deselecting many nodes is the filter
      dropping all of them. */
  lemma {:induction false} DeselectManyFilters(st: SnarlState, nodes: seq<NodeId>)
    requires NoDup(st.selectedNodes)
    ensures NoDup(DeselectManyNodes(st, nodes).selectedNodes)
    ensures DeselectManyNodes(st, nodes).selectedNodes == KeepOut(st.selectedNodes, Elems(nodes))
    decreases |nodes|
  {
    if |nodes| == 0 {
      assert Elems(nodes) == {};
      KeepOutAbsent(st.selectedNodes, {});
    } else {
      var s1 := DeselectOneNode(st, nodes[0]);
      assert s1.selectedNodes == KeepOut(st.selectedNodes, {nodes[0]});
      DeselectManyFilters(s1, nodes[1..]);
      KeepOutUnion(st.selectedNodes, {nodes[0]}, Elems(nodes[1..]));
      ElemsCons(nodes);
    }
  }

  lemma {:induction false} KeepOutUnion(s: seq<NodeId>, a: set<NodeId>, b: set<NodeId>)
    ensures KeepOut(KeepOut(s, a), b) == KeepOut(s, a + b)
  {
    if |s| > 0 {
      KeepOutUnion(s[1..], a, b);
    }
  }

  /** `deselect_all_nodes`: empties the selection; dirty only if it was not empty. */
  function DeselectAllNodes(st: SnarlState): (r: SnarlState)
    ensures r.selectedNodes == []
    ensures r.dirty == (st.dirty || st.selectedNodes != [])
    ensures r.(selectedNodes := st.selectedNodes, dirty := st.dirty) == st
  {
    st.(selectedNodes := [], dirty := st.dirty || st.selectedNodes != [])
  }

  /** Deselecting a node right after selecting it leaves the others, in order. */
  lemma SelectThenDeselect(st: SnarlState, node: NodeId)
    requires NoDup(st.selectedNodes)
    ensures DeselectOneNode(SelectOneNode(st, false, node), node).selectedNodes
      == KeepOut(st.selectedNodes, {node})
  {
    var s1 := SelectOneNode(st, false, node);
    SelectOneNodeKeepsOthers(st, node);
    var s2 := DeselectOneNode(s1, node);
    assert s2.selectedNodes == KeepOut(s1.selectedNodes, {node});
  }

  // ---------------------------------------------------------------- rect selection

  /** `start_rect_selection`: a rectangle collapsed onto `pos`. */
  function StartRectSelection(st: SnarlState, pos: Pos2): (r: SnarlState)
    ensures r.rectSelection == Some(RectSelect(pos, pos))
    ensures r.dirty == (st.dirty || st.rectSelection.None?)
    ensures r.(rectSelection := st.rectSelection, dirty := st.dirty) == st
  {
    st.(rectSelection := Some(RectSelect(pos, pos)), dirty := st.dirty || st.rectSelection.None?)
  }

  /** `stop_rect_selection`. */
  function StopRectSelection(st: SnarlState): (r: SnarlState)
    ensures r.rectSelection.None?
    ensures r.dirty == (st.dirty || st.rectSelection.Some?)
    ensures r.(rectSelection := st.rectSelection, dirty := st.dirty) == st
  {
    st.(rectSelection := None, dirty := st.dirty || st.rectSelection.Some?)
  }

  /** `is_rect_selection`. */
  predicate IsRectSelection(st: SnarlState) {
    st.rectSelection.Some?
  }

  /** `update_rect_selection`: moves the current corner of an active selection only. */
  function UpdateRectSelection(st: SnarlState, pos: Pos2): (r: SnarlState)
    ensures st.rectSelection.None? ==> r == st
    ensures st.rectSelection.Some? ==>
      r.rectSelection == Some(st.rectSelection.value.(current := pos)) && r.dirty
    ensures r.(rectSelection := st.rectSelection, dirty := st.dirty) == st
  {
    match st.rectSelection
    case None => st
    case Some(rs) => st.(rectSelection := Some(rs.(current := pos)), dirty := true)
  }

  /** `rect_selection`: the rectangle spanned by origin and current corner. */
  function RectSelection(st: SnarlState): (r: Option<Rect>)
    ensures r.Some? <==> IsRectSelection(st)
    ensures r.Some? ==> (r.value.Contains(st.rectSelection.value.origin)
      && r.value.Contains(st.rectSelection.value.current))
    ensures r.Some? ==> var o, c := st.rectSelection.value.origin, st.rectSelection.value.current;
      (r.value.min == Pos2(Min(o.x, c.x), Min(o.y, c.y))
      && r.value.max == Pos2(Max(o.x, c.x), Max(o.y, c.y)))
  {
    match st.rectSelection
    case None => None
    case Some(rs) => Some(FromTwoPos(rs.origin, rs.current))
  }

  /** A drag from `a` to `b` selects the rectangle with those corners. */
  lemma RectSelectionDrag(st: SnarlState, a: Pos2, b: Pos2)
    ensures var r := RectSelection(UpdateRectSelection(StartRectSelection(st, a), b));
      r.Some? && r.value.Contains(a) && r.value.Contains(b)
      && r.value.min == Pos2(Min(a.x, b.x), Min(a.y, b.y))
      && r.value.max == Pos2(Max(a.x, b.x), Max(a.y, b.y))
  {
  }

  // ---------------------------------------------------------------- node state

  /** Cached per-node layout: size and header height. */
  datatype NodeState = NodeState(size: Vec2, headerHeight: real, dirty: bool)

  /** What `NodeState::store` writes into the GUI context. */
  datatype NodeData = NodeData(size: Vec2, headerHeight: real)

  /** `NodeState::initial`: sized from the interaction size, and dirty. */
  function NodeInitial(interactSize: Vec2): (ns: NodeState)
    ensures ns.size == interactSize && ns.headerHeight == interactSize.y && ns.dirty
  {
    NodeState(interactSize, interactSize.y, true)
  }

  /** `NodeState::load`: stored data comes back clean; none gives the initial state. */
  function NodeLoad(m: Option<NodeData>, interactSize: Vec2): (ns: NodeState)
    ensures m.None? ==> ns == NodeInitial(interactSize)
    ensures m.Some? ==> ns == NodeState(m.value.size, m.value.headerHeight, false)
  {
    match m
    case None => NodeInitial(interactSize)
    case Some(d) => NodeState(d.size, d.headerHeight, false)
  }

  /** `NodeState::store`: writes only when dirty. */
  function NodeStore(ns: NodeState, m: Option<NodeData>): (r: Option<NodeData>)
    ensures !ns.dirty ==> r == m
    ensures ns.dirty ==> r == Some(NodeData(ns.size, ns.headerHeight))
  {
    if ns.dirty then Some(NodeData(ns.size, ns.headerHeight)) else m
  }

  /** `set_size`: marks dirty only on a real change. */
  function SetSize(ns: NodeState, size: Vec2): (r: NodeState)
    ensures r.size == size && r.headerHeight == ns.headerHeight
    ensures r.dirty == (ns.dirty || ns.size != size)
  {
    if ns.size != size then ns.(size := size, dirty := true) else ns
  }

  /** `set_header_height`: marks dirty only on a real change. */
  function SetHeaderHeight(ns: NodeState, h: real): (r: NodeState)
    ensures r.headerHeight == h && r.size == ns.size
    ensures r.dirty == (ns.dirty || ns.headerHeight != h)
  {
    if ns.headerHeight != h then ns.(headerHeight := h, dirty := true) else ns
  }

  /** Whatever a frame sets, the next frame loads it back: storing after the
      setters and loading yields the new size and header height. */
  lemma NodeStateRoundTrip(ns: NodeState, m: Option<NodeData>, size: Vec2, h: real, interactSize: Vec2)
    requires ns.dirty || (m == Some(NodeData(ns.size, ns.headerHeight)))
    ensures var ns' := SetHeaderHeight(SetSize(ns, size), h);
      NodeLoad(NodeStore(ns', m), interactSize) == NodeState(size, h, false)
  {
  }
}
