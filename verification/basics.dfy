/** Value types the editor borrows from its immediate-mode GUI toolkit:
    points, vectors, rectangles, colours and strokes. Floats are modelled
    as `real`. Also `Option`, used wherever the source returns one. */
module Basics {

  datatype Option<T> = None | Some(value: T)

  /** An 8-bit colour channel. */
  type byte = x: int | 0 <= x < 256

  /** A point on screen or in graph space. */
  datatype Pos2 = Pos2(x: real, y: real)

  /** A displacement. */
  datatype Vec2 = Vec2(x: real, y: real)

  function Min(a: real, b: real): real { if a <= b then a else b }
  function Max(a: real, b: real): real { if a <= b then b else a }

  function Add(p: Pos2, v: Vec2): Pos2 { Pos2(p.x + v.x, p.y + v.y) }

  /** An axis-aligned rectangle `[min, max]`. */
  datatype Rect = Rect(min: Pos2, max: Pos2)
  {
    predicate Contains(p: Pos2) {
      min.x <= p.x <= max.x && min.y <= p.y <= max.y
    }

    /** Every point of `other` lies in this rectangle. */
    predicate ContainsRect(other: Rect) {
      min.x <= other.min.x && other.max.x <= max.x
      && min.y <= other.min.y && other.max.y <= max.y
    }

    /** The two rectangles share at least one point. */
    predicate Intersects(other: Rect) {
      min.x <= other.max.x && other.min.x <= max.x
      && min.y <= other.max.y && other.min.y <= max.y
    }

    function Center(): Pos2 {
      Pos2((min.x + max.x) / 2.0, (min.y + max.y) / 2.0)
    }
  }

  /** The smallest rectangle holding both corners, whichever way they were dragged. */
  function FromTwoPos(a: Pos2, b: Pos2): (r: Rect)
    ensures r.min.x <= r.max.x && r.min.y <= r.max.y
    ensures r.Contains(a) && r.Contains(b)
    ensures r.min.x in {a.x, b.x} && r.max.x in {a.x, b.x}
    ensures r.min.y in {a.y, b.y} && r.max.y in {a.y, b.y}
  {
    Rect(Pos2(Min(a.x, b.x), Min(a.y, b.y)), Pos2(Max(a.x, b.x), Max(a.y, b.y)))
  }

  /** `Rect::from_center_size`. */
  function FromCenterSize(c: Pos2, w: real, h: real): (r: Rect)
    ensures r.Center() == c
    ensures r.max.x - r.min.x == w && r.max.y - r.min.y == h
  {
    Rect(Pos2(c.x - w / 2.0, c.y - h / 2.0), Pos2(c.x + w / 2.0, c.y + h / 2.0))
  }

  /** An RGBA colour. */
  datatype Color32 = Color32(r: byte, g: byte, b: byte, a: byte)

  const Transparent := Color32(0, 0, 0, 0)

  /** A line width and colour. */
  datatype Stroke = Stroke(width: real, color: Color32)

  /** Shape of a pin; `Circle` is the default. */
  datatype PinShape = Circle | Triangle | Square | Star
}
