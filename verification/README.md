# egui-snarl core in Dafny

egui-snarl is a node-graph editor widget for the egui GUI toolkit. A `Snarl<T>`
holds user nodes in a slab keyed by `NodeId` and a set of wires. Each wire
joins one output pin `(node, output)` to one input pin `(node, input)`. Each
frame the widget draws the graph and turns pointer input into edits. A user
*viewer* decides what a proposed connection or disconnection actually does.
While the user drags new wires, the interaction state (`SnarlState`) keeps
them as a bundle, together with the draw order and the node selection.

This project models that core as immutable datatypes and pure functions:

| module | file | what it models |
|---|---|---|
| `Seqs` | seqs.dfy | the `Vec` operations the source relies on (`position`, `remove`, `swap_remove`, `retain`) |
| `Basics` | basics.dfy | positions, vectors, rectangles, colours, strokes, pin shapes |
| `Graph` | graph.dfy | `Snarl<T>`, `Wires`, `OutPin::new` / `InPin::new` (src/lib.rs) |
| `State` | state.dfy | `SnarlState`, `NodeState`, the new-wire bundle, draw order, selection (src/ui/state.rs) |
| `WireUi` | wire.dfy | `pick_wire_style`, `lower_bound`, the generation-tagged `WiresCache` (src/ui/wire.rs) |
| `Layout` | layout.dfy | `NodeLayout` builders, pin-row `Heights`, `mix_colors` (src/ui.rs) |
| `Style` | style.dfy | `SnarlStyle` and its default getters (src/ui.rs) |
| `Pin` | pin.dfy | `PinInfo` builders and resolution, the default `pin_rect` (src/ui/pin.rs) |
| `Effect` | effect.dfy | deferred graph edits (src/ui/effect.rs) |
| `Viewer` | viewer.dfy | the default bodies of the `SnarlViewer` methods (src/ui/viewer.rs) |
| `Frame` | frame.dfy | the per-frame rules of `show_snarl`, `draw_inputs`, `draw_outputs` and `draw_node` (src/ui.rs) |
| `Demo` | demo.dfy | the demo application's viewer policy (examples/demo.rs) |

Modelling choices:

- The slab is a `map<nat, Node<T>>`. An insert takes a key that is not live;
  the contracts rely on nothing more.
- The wire set is a `set<Wire>`. The source iterates hash sets in an unspecified
  order: over the live ids in `update_draw_order`, and over a pin's remotes in a
  yank and in the demo's `connect`. Each such order is a `seq` parameter that
  lists the set without duplicates.
- `f32` and `f64` values are `real`. Colour channels are bytes, with the
  integer arithmetic of `mix_colors` written out.
- Two kinds of panic are modelled differently:
  - A panic the source documents as the caller's obligation becomes a
    `requires`. Examples: `Snarl::connect` on a dead node, and
    `add_new_wire_in` without an input bundle.
  - A panic reachable from user input is an explicit `None` outcome. Examples:
    `unreachable!` in `remove_new_wire_in`, a slab index on a dead node, and the
    map index in new-wire drawing.
- A frame's GUI input is a parameter of the frame rules: clicks, drags,
  modifiers, the hovered pin and the pin positions recorded this frame. The
  viewer in those rules is the default one.

The source files come from different revisions. `src/ui/effect.rs` refers to a
draw order inside `Snarl`, which src/lib.rs does not have. It is modelled
against the graph paired with a draw order (`Effect.Scene`).

## Model

| member | source | states |
|---|---|---|
| Graph.New | src/lib.rs:218-223 | a new graph has no live node and no dangling wire |
| Graph.WiresDropNode | src/lib.rs:158-163 | keeps exactly the wires not touching the node; the count is the number removed |
| Graph.WiresDropInputs | src/lib.rs:165-169 | keeps exactly the wires not ending at the pin; the count is the number removed |
| Graph.WiresDropOutputs | src/lib.rs:171-175 | keeps exactly the wires not starting at the pin; the count is the number removed |
| Graph.WiredInputs | src/lib.rs:177-182 | the input pins wired to an output pin, exactly |
| Graph.WiredOutputs | src/lib.rs:184-189 | the output pins wired to an input pin, exactly |
| Graph.InsertNode | src/lib.rs:235-243 | returns an id not live before and live after, holding an open node with the value and position; other nodes and the wires are unchanged |
| Graph.InsertNodeCollapsed | src/lib.rs:255-263 | as `InsertNode`, with the node closed |
| Graph.OpenNode | src/lib.rs:271-273 | on a live node, sets only its open flag; everything else is unchanged |
| Graph.RemoveNode | src/lib.rs:291-295 | on a live node, returns its value, frees its id, and removes exactly the wires touching it |
| Graph.Connect | src/lib.rs:305-314 | on live nodes, adds the wire; returns true iff it was absent |
| Graph.Disconnect | src/lib.rs:323-333 | on live nodes, removes the wire; returns true iff it was present |
| Graph.DropInputs | src/lib.rs:343-346 | removes exactly the wires into the pin and returns how many went |
| Graph.DropOutputs | src/lib.rs:355-358 | removes exactly the wires out of the pin and returns how many went |
| Graph.GetNode | src/lib.rs:362-364 | None for a dead id, else the stored value |
| Graph.GetNodeInfo | src/lib.rs:376-378 | None for a dead id, else the stored node |
| Graph.OutPinNew | src/lib.rs:813-820 | the remotes are exactly the input pins wired to the pin |
| Graph.InPinNew | src/lib.rs:822-829 | the remotes are exactly the output pins wired to the pin |
| Graph.InsertRemoveRoundTrip | src/lib.rs:235-295 | removing a node just inserted gives back the graph and the value |
| Graph.ConnectIdempotent | src/lib.rs:305-314 | a second identical connect changes nothing and returns false |
| Graph.DisconnectUndoesConnect | src/lib.rs:305-333 | disconnecting a fresh connection restores the graph and returns true |
| Graph.ConnectUndoesDisconnect | src/lib.rs:305-333 | reconnecting a removed wire restores the graph |
| Graph.DropInputsCountsRemotes | src/lib.rs:343-346 | the count returned equals the number of the pin's remotes |
| Graph.DropOutputsCountsRemotes | src/lib.rs:355-358 | the count returned equals the number of the pin's remotes |
| Graph.DropInputsClearsPin | src/lib.rs:343-346 | afterwards the pin has no remotes, and every other input pin keeps its remotes |
| State.PruneSelectedNodes | src/ui/state.rs:202-206 | keeps exactly the live selected ids, without duplicates if there were none; reports true iff a dead id was dropped |
| Seqs.KeepInAppend | src/ui/state.rs:204 | `retain` keeps the order: filtering a concatenation concatenates the filtered parts |
| State.SaveList | src/ui/state.rs:148-156 | an empty list is stored as no entry, any other list as itself |
| State.LoadList | src/ui/state.rs:158-160 | a missing entry loads as the empty list, a stored one as itself |
| State.Initial | src/ui/state.rs:239-269 | a fresh state has no bundle, no rectangle, an empty draw order and selection, and is dirty |
| State.Load | src/ui/state.rs:209-237 | restores the stored fields; the selection holds exactly the stored ids still live; dirty iff a dead id was pruned |
| State.Store | src/ui/state.rs:272-287 | when the state is dirty or a selected node is gone: writes the state data, the draw order and the selection pruned to live nodes (so a loaded selection lists only live nodes); otherwise leaves memory as it was |
| State.StoreLoadRoundTrip | src/ui/state.rs:209-287 | loading what a dirty state stored gives back that state, clean |
| State.SetToGlobal | src/ui/state.rs:293-298 | sets the transform; dirty iff it changed or already was |
| State.StartNewWireIn | src/ui/state.rs:312-316 | the bundle becomes `In([pin])`, not menu-owned; other fields unchanged |
| State.StartNewWireOut | src/ui/state.rs:318-322 | the bundle becomes `Out([pin])`, not menu-owned |
| State.StartNewWiresIn | src/ui/state.rs:324-328 | the bundle becomes `In(pins)` and is visible |
| State.StartNewWiresOut | src/ui/state.rs:330-334 | the bundle becomes `Out(pins)` and is visible |
| State.AddNewWireIn | src/ui/state.rs:336-346 | appends an absent pin, else changes nothing; a duplicate-free bundle stays so |
| State.AddNewWireOut | src/ui/state.rs:348-358 | the output-side twin of `AddNewWireIn` |
| State.RemoveNewWireIn | src/ui/state.rs:360-370 | removes one occurrence (the multiset loses the pin), else changes nothing; on a duplicate-free bundle, exactly the pin is gone |
| State.RemoveNewWireOut | src/ui/state.rs:372-382 | the output-side twin of `RemoveNewWireIn` |
| State.NewWiresView | src/ui/state.rs:405-410 | the bundle is visible iff present and not menu-owned |
| State.HasNewWiresSplits | src/ui/state.rs:384-403 | `has_new_wires` is `has_new_wires_in` or `has_new_wires_out`, never both; a menu-owned bundle is invisible |
| State.HasNewWires | src/ui/state.rs:384-389 | a bundle is being dragged and no menu owns it; how it splits into the two sides is `HasNewWiresSplits` |
| State.HasNewWiresIn | src/ui/state.rs:391-396 | a bundle of input-side wires is being dragged and no menu owns it; see `HasNewWiresSplits` |
| State.HasNewWiresOut | src/ui/state.rs:398-403 | the output-side twin; see `HasNewWiresSplits` |
| State.TakeNewWires | src/ui/state.rs:412-420 | returns and clears a visible bundle, else changes nothing; no bundle is visible afterwards |
| State.TakeNewWiresMenu | src/ui/state.rs:422-430 | the exact dual: takes only a menu-owned bundle |
| State.SetNewWiresMenu | src/ui/state.rs:432-436 | with no bundle, installs a menu-owned one; nothing else changes |
| State.MenuOwnsBundle | src/ui/state.rs:405-436 | a handed-over bundle is invisible and untakeable by `take_new_wires`, and `take_new_wires_menu` returns it once |
| State.TakeTwice | src/ui/state.rs:412-420 | a second take returns nothing; the first returns a bundle iff one was visible |
| State.AddRemoveNewWireIn | src/ui/state.rs:336-370 | removing a pin just added restores the bundle |
| State.AddRemoveNewWireOut | src/ui/state.rs:348-382 | the output-side twin |
| State.RetainLive | src/ui/state.rs:438-458 | the `retain` pass keeps exactly the ordered ids still live, consumes them from the remaining set, and reports a change |
| State.UpdateDrawOrder | src/ui/state.rs:438-458 | the draw order becomes duplicate-free and holds exactly the live ids; dirty iff it changed or already was |
| State.UpdateDrawOrderShape | src/ui/state.rs:438-458 | the survivors keep their relative order, followed by the new ids in enumeration order |
| State.NodeToTop | src/ui/state.rs:460-466 | a present node moves to the end, as a permutation of the order; an absent node leaves the order as is; the state is always marked dirty |
| State.NodeToTopKeepsOthers | src/ui/state.rs:460-466 | the other nodes keep their relative order, and no duplicate appears |
| State.SelectOneNode | src/ui/state.rs:472-487 | reset leaves exactly `[node]`; otherwise the node becomes last and membership grows by the node alone |
| State.SelectOneNodeKeepsOthers | src/ui/state.rs:472-487 | without reset, the others keep their order and no duplicate appears |
| State.SelectManyNodes | src/ui/state.rs:489-497 | reset replaces the selection; otherwise membership is the union, without new duplicates |
| State.DeselectOneNode | src/ui/state.rs:499-504 | removes the node, keeping the others in order; an absent node changes nothing |
| State.DeselectManyNodes | src/ui/state.rs:506-513 | never adds a node or grows the list |
| State.DeselectManyFilters | src/ui/state.rs:506-513 | on a duplicate-free selection, the result is the selection minus all the given nodes, in order |
| State.DeselectAllNodes | src/ui/state.rs:515-518 | empties the selection; dirty only if it was not empty |
| State.SelectThenDeselect | src/ui/state.rs:472-504 | deselecting a node just selected leaves the others in their order |
| State.StartRectSelection | src/ui/state.rs:520-526 | a rectangle collapsed on the point |
| State.StopRectSelection | src/ui/state.rs:528-531 | no rectangle afterwards |
| State.UpdateRectSelection | src/ui/state.rs:537-542 | moves only the current corner of an active selection |
| State.RectSelection | src/ui/state.rs:544-547 | present iff a selection is active; then exactly the rectangle with the componentwise minimum and maximum of origin and current corner |
| State.RectSelectionDrag | src/ui/state.rs:520-547 | start then drag gives exactly the rectangle spanned by both points |
| State.NodeLoad | src/ui/state.rs:30-43 | stored size and header height, clean; otherwise the dirty initial state |
| State.NodeInitial | src/ui/state.rs:98-105 | sized from the interaction size, with that height as header height, and dirty |
| State.NodeStore | src/ui/state.rs:49-61 | writes only a dirty state |
| State.SetSize | src/ui/state.rs:79-84 | sets the size; dirty iff it changed or already was |
| State.SetHeaderHeight | src/ui/state.rs:90-96 | sets the header height; dirty iff it changed or already was |
| State.NodeStateRoundTrip | src/ui/state.rs:30-96 | setting size and height, storing and loading gives those values back |
| WireUi.PickWireStyle | src/ui/wire.rs:53-67 | `Line` if either is; the larger radius for two axis-aligned styles; `Bezier5` only from two `Bezier5` |
| WireUi.PickIsPrecedence | src/ui/wire.rs:27-29 | the merge is the documented precedence order |
| WireUi.PickCommutativeIdempotent | src/ui/wire.rs:53-67 | the merge is commutative and idempotent |
| WireUi.PickAssociative | src/ui/wire.rs:53-67 | the merge is associative |
| WireUi.LowerBound | src/ui/wire.rs:1099-1112 | terminates with a result in `[min, max]`; for a monotone predicate, the least `n` with `f(n)`, else `max` |
| WireUi.WrappingInc | src/ui/wire.rs:456-463 | the 32-bit generation increment wraps to 0 |
| WireUi.Update | src/ui/wire.rs:456-463 | keeps exactly the entries of the current generation, then advances the generation |
| WireUi.Current | src/ui/wire.rs:456-463 | exactly the entries stamped with the given generation, unchanged |
| WireUi.Lookup | src/ui/wire.rs:475-510 | the stored entry, or a placeholder with origin points, the requested threshold and no line |
| WireUi.Get | src/ui/wire.rs:475-547 | adds or replaces only the requested entry, stamped current; the cached line when points and threshold match, else a fresh sample that is stored |
| WireUi.Get3 | src/ui/wire.rs:475-510 | adds or replaces only the requested cubic entry, storing the given points, threshold and returned line, stamped current; returns the cached line on equal points and threshold, else a fresh sample |
| WireUi.Get5 | src/ui/wire.rs:512-547 | the quintic twin of `Get3`, on the quintic map |
| WireUi.GetIsTransparent | src/ui/wire.rs:456-510 | on a coherent cache a lookup returns what sampling would, the cache stays coherent, and the entry survives the next update |
| WireUi.UpdateEvictsStale | src/ui/wire.rs:456-463 | an entry not used in the current generation is evicted |
| WireUi.GetPlaceholderHit | src/ui/wire.rs:475-510 | a first request whose points all sit at the origin gets the placeholder's empty line |
| Layout.FromKind | src/ui.rs:177-186 | the kind, no minimum row height, no equal rows |
| Layout.CoilLayout | src/ui.rs:130-136 | the coil layout from its kind |
| Layout.SandwichLayout | src/ui.rs:140-146 | the sandwich layout from its kind |
| Layout.FlippedSandwichLayout | src/ui.rs:150-156 | the flipped sandwich layout from its kind |
| Layout.WithEqualPinRows | src/ui.rs:159-165 | sets only the equal-rows flag |
| Layout.WithMinPinRowHeight | src/ui.rs:168-174 | sets only the minimum row height |
| Layout.BuildersCommute | src/ui.rs:159-174 | the two builders commute, and each is idempotent or last-write-wins |
| Layout.HeightsGet | src/ui.rs:210-226 | the inner height is the row or 0; the outer is at least the inner, the minimum, the other side's same row (flexible) and the tallest row (matching), and equals one of them |
| Layout.OuterFor | src/ui.rs:230-282 | flexible against the other side for a coil without equal rows; with equal rows, the tallest row of either side (or 0), attained by some row unless 0; tight otherwise |
| Layout.MaxRow | src/ui.rs:238-244 | at least the starting value, at least every row, and equal to the start or to some row |
| Layout.InputHeights | src/ui.rs:230-255 | flexible against the outputs for a coil without equal rows; with equal rows, matching on the tallest row of either side (or 0); tight otherwise |
| Layout.OutputHeights | src/ui.rs:257-282 | the output-side twin |
| Layout.EqualRowsAreEqual | src/ui.rs:210-282 | with equal rows, every row on both sides gets the same outer height |
| Layout.CoilRowsAlign | src/ui.rs:210-282 | in a coil without equal rows, input row i and output row i get the same outer height |
| Layout.TightRows | src/ui.rs:210-282 | in a tight layout, a row's outer height is its own height or the minimum |
| Layout.MixColors | src/ui.rs:2462-2471 | each channel is the average rounded down |
| Layout.MixColorsLaws | src/ui.rs:2462-2471 | mixing is commutative and idempotent |
| Style.New | src/ui.rs:745-780 | nothing is set |
| Style.NewStyleDefaults | src/ui.rs:561-691 | the documented defaults of every getter, including a wire of 6% and a frame of 180% of the interaction height |
| Style.WireSizesFollowPinSize | src/ui.rs:592-600 | unless set, wire width is a tenth of the pin size and the frame 30 wire widths |
| Style.SetValuesWin | src/ui.rs:566-612 | a set value overrides the default |
| Pin.WithShape | src/ui/pin.rs:111-114 | sets the shape and leaves the other five fields |
| Pin.WithFill | src/ui/pin.rs:118-121 | sets the fill and leaves the other five fields |
| Pin.WithStroke | src/ui/pin.rs:125-128 | sets the stroke and leaves the other five fields |
| Pin.WithWireStyle | src/ui/pin.rs:132-135 | sets the wire style and leaves the other five fields |
| Pin.WithWireColor | src/ui/pin.rs:139-142 | sets the wire colour and leaves the other five fields |
| Pin.OfShape | src/ui/pin.rs:146-178 | a default pin with only the shape set |
| Pin.Circle | src/ui/pin.rs:146-151 | the same pin as the default with only the shape set to circle |
| Pin.Triangle | src/ui/pin.rs:155-160 | the same pin as the default with only the shape set to triangle |
| Pin.Square | src/ui/pin.rs:164-169 | the same pin as the default with only the shape set to square |
| Pin.Star | src/ui/pin.rs:173-178 | the same pin as the default with only the shape set to star |
| Pin.GetShape | src/ui/pin.rs:182-184 | the pin's shape if set, else the style's |
| Pin.GetFill | src/ui/pin.rs:188-190 | the pin's fill if set, else the style's |
| Pin.GetStroke | src/ui/pin.rs:194-197 | the pin's stroke if set, else the style's |
| Pin.Draw | src/ui/pin.rs:203-221 | the wire colour is the pin's wire colour, else the resolved fill; the wire style is the pin's, else the style's |
| Pin.DrawDefaults | src/ui/pin.rs:182-221 | an empty pin under an empty style gives the toolkit's active fill, the quintic Bezier and a circle |
| Pin.FillColoursWire | src/ui/pin.rs:203-221 | a fill colours the wire unless a wire colour overrides it, in either builder order |
| Pin.PinRect | src/ui/pin.rs:39-44 | a `size` square centred at `(x, (y0+y1)/2)` |
| Pin.PinRectInRow | src/ui/pin.rs:39-44 | a size no larger than the row keeps the rectangle within the row |
| Effect.Push | src/ui/effect.rs:66-106 | appends exactly one effect at the end, keeping the earlier ones in order |
| Effect.ApplyPushed | src/ui/effect.rs:66-115 | the effect pushed last is applied after every earlier one |
| Effect.PushInsertNode | src/ui/effect.rs:66-70 | pushes `InsertNode` |
| Effect.PushRemoveNode | src/ui/effect.rs:72-76 | pushes `RemoveNode` |
| Effect.PushOpenNode | src/ui/effect.rs:78-82 | pushes `OpenNode` |
| Effect.PushConnect | src/ui/effect.rs:84-88 | pushes `Connect` |
| Effect.PushDisconnect | src/ui/effect.rs:90-94 | pushes `Disconnect` |
| Effect.PushDropInputs | src/ui/effect.rs:96-100 | pushes `DropInputs` |
| Effect.PushDropOutputs | src/ui/effect.rs:102-106 | pushes `DropOutputs` |
| Effect.ApplyEffect | src/ui/effect.rs:117-159 | each variant acts only on live nodes and is a no-op otherwise; `InsertNode` adds an open node under a fresh id appended to the draw order, leaving wires and other nodes; `RemoveNode` drops the node and its wires, leaving the other nodes; `OpenNode` changes only that node's open flag |
| Effect.ApplyEffectsAppend | src/ui/effect.rs:108-115 | applying a list is a left fold |
| Effect.ApplyEffects | src/ui/effect.rs:108-115 | an empty list leaves the scene; the fold law is `ApplyEffectsAppend` |
| Effect.IsEmpty | src/ui/effect.rs:57-62 | no effect is queued; a push always makes the list non-empty (`Effect.Push`) |
| Effect.ApplyEffectsKeepsValid | src/ui/effect.rs:108-159 | no list of effects leaves a dangling wire |
| Effect.OnlyInsertGrowsOrder | src/ui/effect.rs:108-159 | without insertions the draw order is untouched |
| Effect.ConnectAfterInsert | src/ui/effect.rs:119-141 | a node inserted by an effect can be wired by a later one |
| Viewer.HasPart | src/ui/viewer.rs:98-240 | every default `has_*` answer is false |
| Viewer.NodeFrame | src/ui/viewer.rs:16-26 | returns the default frame |
| Viewer.HeaderFrame | src/ui/viewer.rs:28-39 | returns the default frame |
| Viewer.NodeLayout | src/ui/viewer.rs:46-56 | returns the default layout |
| Viewer.Connect | src/ui/viewer.rs:263-265 | adds exactly the wire |
| Viewer.Disconnect | src/ui/viewer.rs:269-271 | removes exactly the wire |
| Viewer.DropOutputs | src/ui/viewer.rs:278-280 | removes exactly the pin's outgoing wires |
| Viewer.DropInputs | src/ui/viewer.rs:287-289 | removes exactly the pin's incoming wires |
| Viewer.DropClearsRemotes | src/ui/viewer.rs:278-289 | the pin is left without remotes, and as many wires go as it had remotes |
| Viewer.ConnectThenDisconnect | src/ui/viewer.rs:263-271 | a proposed connection then disconnection restores a graph without the wire |
| Frame.DropConnects | src/ui.rs:1244-1261 | an input bundle over an output pin gives one connection per bundled pin, in order, and symmetrically; any other pairing gives none |
| Frame.ReleaseDrag | src/ui.rs:1238-1279 | takes the bundle and proposes its connections; hands it to the menu only when dropped on empty space with a dropped-wire menu |
| Frame.ApplyConnects | src/ui.rs:1244-1261 | the default viewer's connections add exactly the proposed wires |
| Frame.DropInBundleOnOutput | src/ui.rs:1238-1252 | dropping an input bundle on an output pin wires that pin to every bundled input |
| Frame.DropOutBundleOnInput | src/ui.rs:1253-1261 | dropping an output bundle on an input pin wires every bundled output to it |
| Frame.InputClick | src/ui.rs:1486-1496 | while dragging, the pin leaves an input bundle and an output bundle panics; otherwise the pin's wires are dropped |
| Frame.InputDragStart | src/ui.rs:1497-1510 | command yanks the remotes into an output bundle and, without shift, drops the pin's wires; otherwise an input bundle starts from the pin |
| Frame.InputHover | src/ui.rs:1518-1528 | during an input-bundle drag, shift alone adds the pin and command alone removes it |
| Frame.InputPin | src/ui.rs:1486-1528 | the rules composed: panics only on a secondary click over an output bundle, never adds a wire, and does nothing without input |
| Frame.YankAndReleaseRestores | src/ui.rs:1497-1510 | a yank released back on its own pin restores the graph |
| Frame.OutputClick | src/ui.rs:1644-1654 | the output-side twin of `InputClick` |
| Frame.OutputDragStart | src/ui.rs:1655-1669 | the output-side twin of `InputDragStart` |
| Frame.OutputHover | src/ui.rs:1677-1687 | the output-side twin of `InputHover` |
| Frame.OutputPin | src/ui.rs:1644-1687 | the output-side twin of `InputPin` |
| Frame.OutputYankAndReleaseRestores | src/ui.rs:1655-1669 | the output-side twin of `YankAndReleaseRestores` |
| Frame.DrawnWires | src/ui.rs:1112-1118 | a wire is drawn iff both its pins were recorded this frame; the others stay in the graph |
| Frame.WireLook | src/ui.rs:1138-1153 | the colour mixes the two ends' colours, the style merges their styles |
| Frame.WireLookSymmetric | src/ui.rs:1138-1153 | the look does not depend on which end comes first, and agreeing ends keep their look |
| Frame.HoveredWireClick | src/ui.rs:1176-1183 | a clicked hovered wire is removed by the default viewer, and nothing else changes |
| Frame.NewWireEndsAsWritten | src/ui.rs:1318-1362 | panics iff some bundled pin has no recorded position, else lists their positions in order |
| Frame.NewWireEndsPanic | src/ui.rs:1318-1362 | a bundle holding an unrecorded output pin panics |
| Frame.NewWireEnds | src/ui.rs:1318-1362 | skips the unrecorded pins |
| Frame.RecordedIn | src/ui.rs:1318-1340 | every recorded bundled pin contributes its position, and nothing else does |
| Frame.RecordedOut | src/ui.rs:1341-1362 | the output-side twin |
| Frame.RecordedInAppend | src/ui.rs:1318-1340 | the positions keep the pins' order: recording a concatenation concatenates the recordings |
| Frame.RecordedOutAppend | src/ui.rs:1341-1362 | the output-side twin |
| Frame.NewWireEndsAgree | src/ui.rs:1318-1362 | where every pin is recorded, the corrected drawing equals the source's |
| Frame.MoveAll | src/ui.rs:1384-1387 | moves every listed node once and keeps the others; panics iff a listed node is dead |
| Frame.MoveNode | src/ui.rs:1381-1394 | a dead node moves nothing; an unselected live node moves alone; a selected one moves the whole selection |
| Frame.MoveAfterLoad | src/ui.rs:1381-1394 | a selection just loaded holds only live nodes, so the move cannot panic |
| Frame.RaiseIfLive | src/ui.rs:1375-1379 | only a live node is raised to the top, as a permutation |
| Frame.NodePress | src/ui.rs:1857-1863 | shift with command makes the node the whole selection; shift adds it; command alone removes it |
| Frame.CaughtNodes | src/ui.rs:1186-1194 | exactly the nodes whose rectangle is contained in, or touches, the selection rectangle |
| Frame.CaughtNodesAppend | src/ui.rs:1186-1194 | the caught ids keep drawing order: catching in a concatenation concatenates the catches |
| Frame.Caught | src/ui.rs:1187-1191 | contained in the selection rectangle when `contained` is set, touching it otherwise |
| Frame.CaughtContainedIsTouching | src/ui.rs:1187-1191 | on a well-formed node rectangle, the contained mode catches a subset of what the touching mode catches |
| Frame.SelectEnd | src/ui.rs:1185-1201 | command removes the caught nodes; shift adds them; otherwise they become the selection |
| Frame.CancelAndClear | src/ui.rs:1216-1233 | the secondary button cancels a drag and swallows the click; otherwise a command-click clears the selection |
| Demo.Inputs | examples/demo.rs:160-166 | an expression has one input plus one per binding; the sink and an image viewer have one each; only numbers and strings have none |
| Demo.Outputs | examples/demo.rs:168-176 | every kind but the sink has exactly one output |
| Demo.OutCompat | examples/demo.rs:475-482 | the output type is empty exactly for kinds without outputs |
| Demo.InCompat | examples/demo.rs:484-497 | the accepted types are empty exactly for kinds without inputs |
| Demo.SinkAcceptsAll | examples/demo.rs:469-473 | the sink accepts every output type |
| Demo.ConnectVerdict | examples/demo.rs:106-141 | panics exactly for pins that cannot exist, and refuses exactly the listed pairs |
| Demo.ConnectAcceptsIffCompatible | examples/demo.rs:106-141 | for pins that can exist, accepted iff the bitmasks share a bit |
| Demo.DisconnectAll | examples/demo.rs:143-145 | removes exactly the wires from the listed remotes into the pin |
| Demo.Connect | examples/demo.rs:102-148 | a refused pair leaves the graph; an accepted one replaces every wire into the input by the new one |
| Demo.OneWirePerInput | examples/demo.rs:143-147 | after acceptance the input has exactly one remote, and no wire dangles |
| Demo.VarSeq | examples/demo.rs:683-695 | the left-to-right variable list holds exactly the expression's variables |
| Demo.ExtendBindings | examples/demo.rs:718-734 | keeps the old bindings as a prefix and adds exactly the expression's variables, without new duplicates |
| Demo.ExtendBindingsAddsInOrder | examples/demo.rs:718-734 | new names come in reading order: the same as adding the variable list one by one |
| Demo.FreshBindings | examples/demo.rs:309-313 | rebuilt bindings list each variable exactly once |
| Demo.Snapshot | examples/demo.rs:321-329 | the old pins' remotes, taken before rewiring |
| Demo.MoveRemotes | examples/demo.rs:339-346 | moves exactly the snapshot remotes' wires from the old pin to the new one |
| Demo.MoveEachIsMoveRemotes | examples/demo.rs:343-346 | the one-by-one loop gives the same result in any enumeration order |
| Demo.MoveEach | examples/demo.rs:343-346 | a wire whose output is not among the remotes is kept or absent exactly as before; the whole loop is `MoveRemotes` (`MoveEachIsMoveRemotes`) |
| Demo.RebindStep | examples/demo.rs:331-349 | a vanished binding's pin loses all its wires; a moved binding's snapshotted remotes leave its pin for the target pin, all else kept; an unmoved binding changes nothing |
| Demo.RebindFrom | examples/demo.rs:331-350 | wires into other nodes are untouched |
| Demo.RebindStepDropIsDropInputs | examples/demo.rs:335-337 | a vanished binding's step leaves exactly what `drop_inputs` on its pin leaves |
| Demo.RebindStepUpper | examples/demo.rs:331-349 | a step only adds the wires it moves |
| Demo.RebindStepKeeps | examples/demo.rs:331-349 | a step keeps every wire whose pin it does not clear |
| Demo.RebindStepMoves | examples/demo.rs:339-346 | a step adds every wire it moves |
| Demo.RebindStepDrops | examples/demo.rs:334-346 | a step removes every wire on a vanished binding's pin and the snapshotted remotes' wires on a moved one's, unless it moves them back |
| Demo.RebindFromUpper | examples/demo.rs:331-350 | every wire left by the loop was there or was moved in by a step |
| Demo.RebindFromKeeps | examples/demo.rs:331-350 | a wire whose pin no remaining step clears survives the loop |
| Demo.RebindFromMoves | examples/demo.rs:331-350 | a moved wire survives unless a later step clears its pin |
| Demo.RebindMovesAt | examples/demo.rs:339-350 | a wire the step moves in, on a pin no later step clears, is present after the loop |
| Demo.RebindFromDrops | examples/demo.rs:331-350 | a wire a step takes out is gone after the loop unless that step or a later one moves it back |
| Demo.RebindDropsAt | examples/demo.rs:331-350 | a wire the step takes out, and no later step moves back, is absent after the loop |
| Demo.RebindAsWritten | examples/demo.rs:312-350 | other nodes' wires are untouched; every wire left was there or was moved in by a step; a wire no step clears survives; a moved wire survives unless a later step clears its pin; a wire a step takes out (every wire on a vanished binding's pin, the snapshotted remotes on a moved one's) is gone unless that step or a later one moves it back |
| Demo.Retarget | examples/demo.rs:331-350 | wires not into the node's binding pins stay; the others keep their source |
| Demo.Rebind | examples/demo.rs:331-350 | every wire is retargeted at once |
| Demo.RebindFollowsNames | examples/demo.rs:331-350 | a surviving name's wires move from its old pin to its new pin, text-pin and other wires stay, and no wire ends beyond the new pins |
| Demo.RebindOffByOne | examples/demo.rs:339-342 | as written, a moved wire lands on input 0 |
| Demo.RebindLosesMovedWire | examples/demo.rs:331-350 | as written, and also with the target corrected, a moved wire is lost |
| Demo.RebindMoveKeepsForeignWire | examples/demo.rs:339-346 | a moved binding's step disconnects only its snapshotted remotes, so a wire an earlier step moved onto its pin stays |

## Left out

- Painting, layout of egui widgets, scene pan and zoom, the float transforms (`look_at`, `clamp_scale`, `to_global` arithmetic), context-menu rendering and the animated openness: these are egui calls and float geometry.
- The background pattern, `src/ui/scale.rs`, `src/ui/zoom.rs` and `src/ui/config.rs`: float painting, a forward to an unseen crate, and files not declared as modules.
- Wire geometry (Bezier construction, sampling, hit testing): the cache's sampler is a function parameter.
- The egui `Context` memory behind `SnarlState::load`/`store` and `NodeState::load`/`store`: it is a `Memory` value passed in and out. `clear` is not modelled.
- `Effect::Closure`: it runs arbitrary host code.
- serde implementations and the iterator adapters of src/lib.rs.
- The demo's `syn` parser, `f64` evaluation, image loading, `format_float` and the eframe application.
- Graph.InsertNode: the slab reuses the most recently freed slot; the model picks the least vacant id. The contracts only promise a vacant id.
- WireUi.LowerBound: `(min + max) / 2` can overflow `usize` in the source; the model uses unbounded integers.
- WireUi.GetIsTransparent: the placeholder hit (`GetPlaceholderHit`) is excluded. A missing entry is compared against four origin points, so sampling those exact points returns an empty line. Such a wire has zero length and nothing visible is lost.
- Frame.ApplyConnects: requires every proposed wire to name live nodes. The source's `Snarl::connect` panics otherwise; the panic is not modelled as an outcome.
- Frame.InputClick: a secondary click on an input pin while an output bundle is dragged reaches `unreachable!` in `remove_new_wire_in` (`None` here). In practice the cancel rule (src/ui.rs:1216-1223) clears the bundle while the button is down, before the click registers, so this is not listed as a finding.
- Frame.MoveNode: the panic on a dead selected node is an outcome, not a finding. `MoveAfterLoad` shows it needs a node removed during the same frame.
- Frame: only the default viewer is used. A custom viewer's `connect` and `drop_*` can do anything; `Demo.Connect` shows one such policy.
- Frame: has_dropped_wire_menu is a boolean parameter, not the viewer call.
- Style: the selection colours, frames and background settings are not modelled. They need the toolkit's palette arithmetic.
- Style getters (`GetPinSize` and the others) carry no contracts of their own. `NewStyleDefaults` and `SetValuesWin` state their defaults and overrides.
- Effect.OnlyInsertGrowsOrder: removing a node leaves the draw order as it was. `apply_effect` in src/ui/effect.rs works on a `Snarl` that owns a `draw_order` field. That revision's `Snarl::remove_node` is not part of this model, so the claim that it does not prune the removed id from the order is an assumption, not taken from code.

## Findings

| source | as written | input that shows it | evidently intended | confidence | as-written member | corrected member |
|---|---|---|---|---|---|---|
| examples/demo.rs:339-342 | a binding moved from `idx` to `new_idx` has its wires moved from input `idx + 1` to input `new_idx` | wire from `(0,0)` into `(1,2)`, bindings `a, b` become `b`: the wire ends at input 0, the expression-text pin | the target is input `new_idx + 1`, the new pin of the same name | high, not executed | Demo.RebindOffByOne | Demo.Rebind |
| examples/demo.rs:331-350 | bindings are processed one by one, so clearing a vanished binding's pin can remove a wire an earlier step moved there | wire from `(0,0)` into `(1,1)`, bindings `a, x, y` become `d, e, a`: no wire is left, with or without the target fix | every wire of a surviving name ends on that name's new pin | medium, not executed | Demo.RebindLosesMovedWire | Demo.RebindFollowsNames |
| src/ui.rs:1318-1362 | the dragged wires' ends are read by indexing the recorded pin positions, which panics for a pin not drawn this frame | a yank from an input wired to output `(0,3)` of a node that shows fewer outputs: bundle `Out([(0,3)])`, no recorded position | skip unrecorded pins, as the wire loop at src/ui.rs:1112-1118 does | medium, not executed | Frame.NewWireEndsPanic | Frame.NewWireEnds |
