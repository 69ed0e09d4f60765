/** Node layout settings and pin-row heights (src/ui.rs), and the colour
    mixing used for wires joining pins of different colours. Heights are
    `real`; the row heights recorded for a node's input and output pins are
    parameters, since the node state that stores them lives elsewhere. */
module Layout {
  import opened Basics

  /** Where header, pins, body and footer go. */
  datatype NodeLayoutKind = Coil | Sandwich | FlippedSandwich

  datatype NodeLayout = NodeLayout(kind: NodeLayoutKind, minPinRowHeight: real, equalPinRowHeights: bool)

  /** `NodeLayout::coil`, also the default layout. */
  function CoilLayout(): (l: NodeLayout)
    ensures l == FromKind(Coil)
  {
    NodeLayout(Coil, 0.0, false)
  }

  /** `NodeLayout::sandwich`. */
  function SandwichLayout(): (l: NodeLayout)
    ensures l == FromKind(Sandwich)
  {
    NodeLayout(Sandwich, 0.0, false)
  }

  /** `NodeLayout::flipped_sandwich`. */
  function FlippedSandwichLayout(): (l: NodeLayout)
    ensures l == FromKind(FlippedSandwich)
  {
    NodeLayout(FlippedSandwich, 0.0, false)
  }

  /** `From<NodeLayoutKind>`: no minimum row height, flexible rows. */
  function FromKind(kind: NodeLayoutKind): (l: NodeLayout)
    ensures l.kind == kind && l.minPinRowHeight == 0.0 && !l.equalPinRowHeights
  {
    NodeLayout(kind, 0.0, false)
  }

  const DefaultLayout: NodeLayout := NodeLayout(Coil, 0.0, false)

  /** `with_equal_pin_rows`: keeps kind and minimum, turns equal rows on. */
  function WithEqualPinRows(l: NodeLayout): (r: NodeLayout)
    ensures r.kind == l.kind && r.minPinRowHeight == l.minPinRowHeight && r.equalPinRowHeights
  {
    NodeLayout(l.kind, l.minPinRowHeight, true)
  }

  /** `with_min_pin_row_height`: keeps kind and the equal-rows flag. */
  function WithMinPinRowHeight(l: NodeLayout, h: real): (r: NodeLayout)
    ensures r.kind == l.kind && r.minPinRowHeight == h && r.equalPinRowHeights == l.equalPinRowHeights
  {
    NodeLayout(l.kind, h, l.equalPinRowHeights)
  }

  /** The two builders touch different fields, so their order does not matter,
      and each is idempotent. */
  lemma BuildersCommute(l: NodeLayout, h: real)
    ensures WithMinPinRowHeight(WithEqualPinRows(l), h) == WithEqualPinRows(WithMinPinRowHeight(l, h))
    ensures WithEqualPinRows(WithEqualPinRows(l)) == WithEqualPinRows(l)
    ensures WithMinPinRowHeight(WithMinPinRowHeight(l, 1.0), h) == WithMinPinRowHeight(l, h)
  {
  }

  // ---------------------------------------------------------------- heights

  /** How the outer height of a row is chosen. */
  datatype OuterHeights =
    | Flexible(others: seq<real>)  // match the same row on the other side
    | Matching(max: real)          // every row as tall as the tallest
    | Tight                        // just the row's own content

  datatype Heights = Heights(rows: seq<real>, outer: OuterHeights, minOuter: real)

  /** `Heights::get`: the inner height of row `idx` (0 if missing) and its outer height. */
  function HeightsGet(h: Heights, idx: nat): (r: (real, real))
    ensures idx < |h.rows| ==> r.0 == h.rows[idx]
    ensures idx >= |h.rows| ==> r.0 == 0.0
    ensures r.1 >= r.0 && r.1 >= h.minOuter
    ensures r.1 == r.0 || r.1 == h.minOuter
      || (h.outer.Flexible? && idx < |h.outer.others| && r.1 == h.outer.others[idx])
      || (h.outer.Matching? && r.1 == h.outer.max)
    ensures h.outer.Flexible? && idx < |h.outer.others| ==> r.1 >= h.outer.others[idx]
    ensures h.outer.Matching? ==> r.1 >= h.outer.max
  {
    var inner := if idx < |h.rows| then h.rows[idx] else 0.0;
    var outer :=
      match h.outer
      case Flexible(others) => if idx < |others| then Max(others[idx], inner) else inner
      case Matching(m) => Max(m, inner)
      case Tight => inner;
    (inner, Max(outer, h.minOuter))
  }

  /** The loop folding `f32::max` over row heights, starting from `acc`. */
  function MaxRow(rows: seq<real>, acc: real): (m: real)
    ensures m >= acc
    ensures forall i :: 0 <= i < |rows| ==> rows[i] <= m
    ensures m == acc || exists i :: 0 <= i < |rows| && m == rows[i]
  {
    if |rows| == 0 then acc
    else
      var m := MaxRow(rows[1..], Max(acc, rows[0]));
      assert forall i :: 1 <= i < |rows| ==> rows[i] == rows[1..][i - 1];
      m
  }

  /** `m` is the height of the tallest row on either side, or 0 when no row
      is taller than that (the fold starts from 0). */
  ghost predicate Tallest(m: real, ins: seq<real>, outs: seq<real>) {
    m >= 0.0
    && (forall i :: 0 <= i < |ins| ==> ins[i] <= m)
    && (forall i :: 0 <= i < |outs| ==> outs[i] <= m)
    && (m == 0.0 || (exists i :: 0 <= i < |ins| && m == ins[i]) || (exists i :: 0 <= i < |outs| && m == outs[i]))
  }

  /** The outer-height mode shared by both sides: `Flexible` against the
      other side's rows for `Coil` without equal rows; `Matching` on the
      tallest row of either side whenever equal rows are on; else `Tight`. */
  function OuterFor(l: NodeLayout, ins: seq<real>, outs: seq<real>, others: seq<real>): (o: OuterHeights)
    ensures l.kind.Coil? && !l.equalPinRowHeights ==> o == Flexible(others)
    ensures l.equalPinRowHeights ==> o.Matching? && Tallest(o.max, ins, outs)
    ensures !l.kind.Coil? && !l.equalPinRowHeights ==> o == Tight
  {
    if l.equalPinRowHeights then Matching(MaxRow(outs, MaxRow(ins, 0.0)))
    else if l.kind.Coil? then Flexible(others)
    else Tight
  }

  /** `NodeLayout::input_heights`. */
  function InputHeights(l: NodeLayout, ins: seq<real>, outs: seq<real>): (h: Heights)
    ensures h.rows == ins && h.minOuter == l.minPinRowHeight
    ensures l.kind.Coil? && !l.equalPinRowHeights ==> h.outer == Flexible(outs)
    ensures l.equalPinRowHeights ==> h.outer.Matching? && Tallest(h.outer.max, ins, outs)
    ensures !l.kind.Coil? && !l.equalPinRowHeights ==> h.outer == Tight
  {
    Heights(ins, OuterFor(l, ins, outs, outs), l.minPinRowHeight)
  }

  /** `NodeLayout::output_heights`. */
  function OutputHeights(l: NodeLayout, ins: seq<real>, outs: seq<real>): (h: Heights)
    ensures h.rows == outs && h.minOuter == l.minPinRowHeight
    ensures l.kind.Coil? && !l.equalPinRowHeights ==> h.outer == Flexible(ins)
    ensures l.equalPinRowHeights ==> h.outer.Matching? && Tallest(h.outer.max, ins, outs)
    ensures !l.kind.Coil? && !l.equalPinRowHeights ==> h.outer == Tight
  {
    Heights(outs, OuterFor(l, ins, outs, ins), l.minPinRowHeight)
  }

  ghost predicate NonNegative(rows: seq<real>) {
    forall i :: 0 <= i < |rows| ==> rows[i] >= 0.0
  }

  /** With equal rows on, every pin row on either side gets the same outer
      height: the tallest row, or the minimum if that is larger. */
  lemma EqualRowsAreEqual(l: NodeLayout, ins: seq<real>, outs: seq<real>, i: nat, j: nat)
    requires l.equalPinRowHeights
    ensures HeightsGet(InputHeights(l, ins, outs), i).1 == HeightsGet(OutputHeights(l, ins, outs), j).1
    ensures HeightsGet(InputHeights(l, ins, outs), i).1 == HeightsGet(InputHeights(l, ins, outs), j).1
  {
    var m := MaxRow(outs, MaxRow(ins, 0.0));
    assert InputHeights(l, ins, outs).outer == Matching(m);
    assert OutputHeights(l, ins, outs).outer == Matching(m);
  }

  /** In a `Coil` layout without equal rows, input row `i` and output row `i`
      sit side by side with the same outer height. */
  lemma CoilRowsAlign(l: NodeLayout, ins: seq<real>, outs: seq<real>, i: nat)
    requires l.kind.Coil? && !l.equalPinRowHeights
    requires NonNegative(ins) && NonNegative(outs)
    ensures HeightsGet(InputHeights(l, ins, outs), i).1 == HeightsGet(OutputHeights(l, ins, outs), i).1
  {
  }

  /** Without equal rows outside `Coil`, each row is as tall as its own
      content, raised to the minimum. */
  lemma TightRows(l: NodeLayout, ins: seq<real>, outs: seq<real>, i: nat)
    requires !l.kind.Coil? && !l.equalPinRowHeights
    requires i < |ins|
    ensures HeightsGet(InputHeights(l, ins, outs), i).1 == Max(ins[i], l.minPinRowHeight)
  {
  }

  // ---------------------------------------------------------------- colours

  /** `mix_colors`: per channel, the sum over 16 bits halved and truncated. */
  function MixColors(a: Color32, b: Color32): (c: Color32)
    ensures 2 * c.r <= a.r + b.r <= 2 * c.r + 1
    ensures 2 * c.g <= a.g + b.g <= 2 * c.g + 1
    ensures 2 * c.b <= a.b + b.b <= 2 * c.b + 1
    ensures 2 * c.a <= a.a + b.a <= 2 * c.a + 1
  {
    Color32(Half(a.r, b.r), Half(a.g, b.g), Half(a.b, b.b), Half(a.a, b.a))
  }

  /** One channel: `((x as u16 + y as u16) / 2) as u8`. The sum fits 16 bits
      and the half fits 8, so neither cast loses anything. */
  function Half(x: byte, y: byte): (r: byte)
    ensures x <= y ==> x <= r <= y
    ensures y <= x ==> y <= r <= x
    ensures 2 * r <= x + y <= 2 * r + 1
  {
    var sum := x + y;
    assert sum < 0x1_0000;
    sum / 2
  }

  /** Mixing is symmetric, and a colour mixed with itself is unchanged. */
  lemma MixColorsLaws(a: Color32, b: Color32)
    ensures MixColors(a, b) == MixColors(b, a)
    ensures MixColors(a, a) == a
  {
  }
}
