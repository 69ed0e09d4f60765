/** The non-geometric parts of wire rendering (src/ui/wire.rs): merging the
    wire styles two pins ask for, the binary search used to pick a sample
    count, and the per-frame cache of sampled Bezier polylines. The curve
    sampler itself is a parameter. */
module WireUi {
  import opened Basics
  import Graph

  /** How a wire is drawn. The variants are listed in order of precedence. */
  datatype WireStyle = Line | AxisAligned(cornerRadius: real) | Bezier3 | Bezier5

  const DefaultWireStyle: WireStyle := Bezier5

  /** `pick_wire_style`: the style used for a wire whose two ends ask for
      `left` and `right`. */
  function PickWireStyle(left: WireStyle, right: WireStyle): (r: WireStyle)
    ensures left.Line? || right.Line? ==> r.Line?
    ensures left.AxisAligned? && right.AxisAligned? ==>
      r == AxisAligned(Max(left.cornerRadius, right.cornerRadius))
    ensures left.AxisAligned? && !right.AxisAligned? && !right.Line? ==> r == left
    ensures right.AxisAligned? && !left.AxisAligned? && !left.Line? ==> r == right
    ensures r.Bezier5? <==> left.Bezier5? && right.Bezier5?
    ensures r == left || r == right || (left.AxisAligned? && right.AxisAligned?)
  {
    match (left, right)
    case (Line, _) => Line
    case (_, Line) => Line
    case (AxisAligned(a), AxisAligned(b)) => AxisAligned(Max(a, b))
    case (AxisAligned(a), _) => AxisAligned(a)
    case (_, AxisAligned(b)) => AxisAligned(b)
    case (Bezier3, _) => Bezier3
    case (_, Bezier3) => Bezier3
    case (Bezier5, Bezier5) => Bezier5
  }

  /** Position in the precedence order: lower wins. */
  function Rank(s: WireStyle): nat {
    match s
    case Line => 0
    case AxisAligned(_) => 1
    case Bezier3 => 2
    case Bezier5 => 3
  }

  /** Reference reading of the precedence order: the higher-precedence style
      wins; two axis-aligned styles keep the larger corner radius. */
  function Precedence(left: WireStyle, right: WireStyle): WireStyle {
    if Rank(left) < Rank(right) then left
    else if Rank(right) < Rank(left) then right
    else if left.AxisAligned? then AxisAligned(Max(left.cornerRadius, right.cornerRadius))
    else left
  }

  /** The merge follows the documented precedence order. */
  lemma PickIsPrecedence(left: WireStyle, right: WireStyle)
    ensures PickWireStyle(left, right) == Precedence(left, right)
  {
  }

  /** The merge does not depend on which end is which, and a style merged
      with itself is unchanged. */
  lemma PickCommutativeIdempotent(a: WireStyle, b: WireStyle)
    ensures PickWireStyle(a, b) == PickWireStyle(b, a)
    ensures PickWireStyle(a, a) == a
  {
  }

  /** Merging three styles gives the same result in any grouping. */
  lemma PickAssociative(a: WireStyle, b: WireStyle, c: WireStyle)
    ensures PickWireStyle(PickWireStyle(a, b), c) == PickWireStyle(a, PickWireStyle(b, c))
  {
  }

  // ---------------------------------------------------------------- lower_bound

  /** `f` is false and then true on `[lo, hi)`. */
  ghost predicate Monotone(f: nat -> bool, lo: nat, hi: nat) {
    forall i, j :: lo <= i <= j < hi && f(i) ==> f(j)
  }

  /** `lower_bound`: binary search for the first `n` in `[lo, hi)` with `f(n)`.
      Machine-word overflow of `min + max` is not modelled. */
  method LowerBound(lo: nat, hi: nat, f: nat -> bool) returns (r: nat)
    ensures lo <= hi ==> lo <= r <= hi
    ensures hi < lo ==> r == lo
    ensures lo <= hi && Monotone(f, lo, hi) ==>
      (r < hi ==> f(r)) && forall n :: lo <= n < r ==> !f(n)
  {
    var min := lo;
    var max := hi;
    while min < max
      invariant lo <= hi ==> lo <= min <= max <= hi
      invariant hi < lo ==> min == lo && max == hi
      invariant lo <= hi && Monotone(f, lo, hi) ==> max < hi ==> f(max)
      invariant lo <= hi && Monotone(f, lo, hi) ==> forall n :: lo <= n < min ==> !f(n)
      decreases max - min
    {
      var mid := (min + max) / 2;
      if f(mid) {
        max := mid;
      } else {
        min := mid + 1;
      }
    }
    r := min;
  }

  // ---------------------------------------------------------------- WiresCache

  const U32Modulus: int := 0x1_0000_0000

  type u32 = x: int | 0 <= x < U32Modulus

  /** `u32::wrapping_add(1)`. */
  function WrappingInc(x: u32): (r: u32)
    ensures x < U32Modulus - 1 ==> r == x + 1
    ensures x == U32Modulus - 1 ==> r == 0
  {
    (x + 1) % U32Modulus
  }

  /** A cached polyline is keyed by the widget id and the wire (None for a
      wire still being dragged). */
  datatype CacheKey = CacheKey(widget: nat, wire: Option<Graph.Wire>)

  /** The generation that last used the entry, the control points and
      threshold it was sampled for, and the sampled line. */
  datatype Entry = Entry(generation: u32, points: seq<Pos2>, threshold: real, line: seq<Pos2>)

  datatype WiresCache = WiresCache(
    generation: u32,
    bezier3: map<CacheKey, Entry>,
    bezier5: map<CacheKey, Entry>)

  /** Maps a curve's control points and threshold to a polyline. */
  type Sampler = (seq<Pos2>, real) -> seq<Pos2>

  const Origin := Pos2(0.0, 0.0)

  /** The entries used during the current generation. */
  function Current(m: map<CacheKey, Entry>, generation: u32): (r: map<CacheKey, Entry>)
    ensures forall k :: k in r <==> k in m && m[k].generation == generation
    ensures forall k :: k in r ==> r[k] == m[k]
  {
    map k | k in m && m[k].generation == generation :: m[k]
  }

  /** `WiresCache::update`, run once per frame: drops every entry not used
      during the ending generation, then starts the next generation. */
  function Update(c: WiresCache): (r: WiresCache)
    ensures r.generation == WrappingInc(c.generation)
    ensures forall k :: k in r.bezier3 <==> k in c.bezier3 && c.bezier3[k].generation == c.generation
    ensures forall k :: k in r.bezier5 <==> k in c.bezier5 && c.bezier5[k].generation == c.generation
    ensures forall k :: k in r.bezier3 ==> r.bezier3[k] == c.bezier3[k]
    ensures forall k :: k in r.bezier5 ==> r.bezier5[k] == c.bezier5[k]
  {
    WiresCache(WrappingInc(c.generation), Current(c.bezier3, c.generation), Current(c.bezier5, c.generation))
  }

  /** The entry a lookup sees: the stored one, or the placeholder
      `or_insert_with` creates (zero points, the given threshold, no line). */
  function Lookup(m: map<CacheKey, Entry>, key: CacheKey, arity: nat, threshold: real): (e: Entry)
    ensures key in m ==> e == m[key]
    ensures key !in m ==> e.points == seq(arity, _ => Origin) && e.threshold == threshold && e.line == []
  {
    if key in m then m[key] else Entry(0, seq(arity, _ => Origin), threshold, [])
  }

  /** Shared body of `get_3` and `get_5`: stamps the entry with the current
      generation; returns the cached line if points and threshold match,
      otherwise samples, stores and returns a new line. */
  function Get(m: map<CacheKey, Entry>, generation: u32, key: CacheKey, arity: nat,
               points: seq<Pos2>, threshold: real, sample: Sampler): (r: (map<CacheKey, Entry>, seq<Pos2>))
    ensures r.0.Keys == m.Keys + {key}
    ensures forall k :: k in m && k != key ==> r.0[k] == m[k]
    ensures r.0[key].generation == generation
    ensures r.0[key].points == points && r.0[key].threshold == threshold && r.0[key].line == r.1
    ensures var e := Lookup(m, key, arity, threshold);
      e.points == points && e.threshold == threshold ==> r.1 == e.line
    ensures var e := Lookup(m, key, arity, threshold);
      !(e.points == points && e.threshold == threshold) ==> r.1 == sample(points, threshold)
  {
    var e := Lookup(m, key, arity, threshold);
    if e.points == points && e.threshold == threshold then
      (m[key := e.(generation := generation)], e.line)
    else
      var line := sample(points, threshold);
      (m[key := Entry(generation, points, threshold, line)], line)
  }

  /** `WiresCache::get_3`, for a cubic curve (4 control points). */
  function Get3(c: WiresCache, widget: nat, wire: Option<Graph.Wire>, points: seq<Pos2>,
                threshold: real, sample: Sampler): (r: (WiresCache, seq<Pos2>))
    requires |points| == 4
    ensures r.0.generation == c.generation && r.0.bezier5 == c.bezier5
    ensures r.0.bezier3.Keys == c.bezier3.Keys + {CacheKey(widget, wire)}
    ensures forall k :: k in c.bezier3 && k != CacheKey(widget, wire) ==> r.0.bezier3[k] == c.bezier3[k]
    ensures CacheKey(widget, wire) in r.0.bezier3
      && r.0.bezier3[CacheKey(widget, wire)].generation == c.generation
    ensures var e := r.0.bezier3[CacheKey(widget, wire)];
      e.points == points && e.threshold == threshold && e.line == r.1
    ensures var e := Lookup(c.bezier3, CacheKey(widget, wire), 4, threshold);
      (e.points == points && e.threshold == threshold ==> r.1 == e.line)
      && (!(e.points == points && e.threshold == threshold) ==> r.1 == sample(points, threshold))
  {
    var (m, line) := Get(c.bezier3, c.generation, CacheKey(widget, wire), 4, points, threshold, sample);
    (c.(bezier3 := m), line)
  }

  /** `WiresCache::get_5`, for a quintic curve (6 control points). */
  function Get5(c: WiresCache, widget: nat, wire: Option<Graph.Wire>, points: seq<Pos2>,
                threshold: real, sample: Sampler): (r: (WiresCache, seq<Pos2>))
    requires |points| == 6
    ensures r.0.generation == c.generation && r.0.bezier3 == c.bezier3
    ensures r.0.bezier5.Keys == c.bezier5.Keys + {CacheKey(widget, wire)}
    ensures forall k :: k in c.bezier5 && k != CacheKey(widget, wire) ==> r.0.bezier5[k] == c.bezier5[k]
    ensures CacheKey(widget, wire) in r.0.bezier5
      && r.0.bezier5[CacheKey(widget, wire)].generation == c.generation
    ensures var e := r.0.bezier5[CacheKey(widget, wire)];
      e.points == points && e.threshold == threshold && e.line == r.1
    ensures var e := Lookup(c.bezier5, CacheKey(widget, wire), 6, threshold);
      (e.points == points && e.threshold == threshold ==> r.1 == e.line)
      && (!(e.points == points && e.threshold == threshold) ==> r.1 == sample(points, threshold))
  {
    var (m, line) := Get(c.bezier5, c.generation, CacheKey(widget, wire), 6, points, threshold, sample);
    (c.(bezier5 := m), line)
  }

  /** Every stored line is what the sampler yields for its points and threshold. */
  ghost predicate Coherent(m: map<CacheKey, Entry>, sample: Sampler) {
    forall k :: k in m ==> m[k].line == sample(m[k].points, m[k].threshold)
  }

  /** On a coherent cache, a lookup returns exactly what sampling would, and
      the cache stays coherent; an entry used in this frame survives the next
      `update`. The placeholder entry is excluded: see `GetPlaceholderHit`. */
  lemma GetIsTransparent(c: WiresCache, widget: nat, wire: Option<Graph.Wire>, points: seq<Pos2>,
                         threshold: real, sample: Sampler)
    requires |points| == 4 && Coherent(c.bezier3, sample)
    requires CacheKey(widget, wire) in c.bezier3 || points != seq(4, _ => Origin)
    ensures var (c', line) := Get3(c, widget, wire, points, threshold, sample);
      line == sample(points, threshold) && Coherent(c'.bezier3, sample)
      && CacheKey(widget, wire) in Update(c').bezier3
  {
  }

  /** The placeholder `or_insert_with` creates matches a first request whose
      control points all sit at the origin, so that request gets the
      placeholder's empty line instead of a sampled one. */
  lemma GetPlaceholderHit(c: WiresCache, widget: nat, wire: Option<Graph.Wire>, threshold: real, sample: Sampler)
    requires CacheKey(widget, wire) !in c.bezier3
    ensures Get3(c, widget, wire, seq(4, _ => Origin), threshold, sample).1 == []
  {
  }

  /** An entry not used during a generation is gone after the next update. */
  lemma UpdateEvictsStale(c: WiresCache, k: CacheKey)
    requires k in c.bezier3 && c.bezier3[k].generation != c.generation
    ensures k !in Update(c).bezier3
  {
  }
}
