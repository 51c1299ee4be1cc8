/** The perpendicular-distance check `mapWayToNetworkLinks` applies to a
    candidate link. It is meant to rule the candidate out when a way node
    lies farther than 10 from the line through the link's end points, but
    the code divides by a different length. `TooFarAsWritten` is the check
    the code performs, and the one the matching uses; `TooFar` is the
    intended check. Lengths are compared squared, which avoids the square
    root and agrees with the floating point comparison (a zero numerator
    over a zero denominator is NaN and fails `> 10`, exactly as `0 > 0`
    does here). */
module LinkDistance {
  import opened Transit

  /** The largest distance a way node may have from the candidate's line. */
  const MaxDistance: real := 10.0

  /** The numerator of the point-to-line formula, before `Math.abs`:
      minus the cross product of `b - a` and `p - a`. */
  function Cross(p: Coord, a: Coord, b: Coord): real
  {
    (b.y - a.y) * p.x - (b.x - a.x) * p.y + b.x * a.y - b.y * a.x
  }

  function Dot(p: Coord, a: Coord, b: Coord): real
  {
    (p.x - a.x) * (b.x - a.x) + (p.y - a.y) * (b.y - a.y)
  }

  function SquaredDistance(p: Coord, q: Coord): real
  {
    (p.x - q.x) * (p.x - q.x) + (p.y - q.y) * (p.y - q.y)
  }

  /** `|num| / sqrt(den) > 10`, squared; `den` is never negative. */
  predicate Exceeds(num: real, den: real)
  {
    num * num > MaxDistance * MaxDistance * den
  }

  /** The check as written: the first square under the root is
      `(x_2 - y_1)^2` where the length of the link needs `(y_2 - y_1)^2`. */
  predicate TooFarAsWritten(p: Coord, a: Coord, b: Coord)
  {
    Exceeds(Cross(p, a, b), (b.x - a.y) * (b.x - a.y) + (b.x - a.x) * (b.x - a.x))
  }

  /** The check with the link's squared length under the root. */
  predicate TooFar(p: Coord, a: Coord, b: Coord)
  {
    Exceeds(Cross(p, a, b), SquaredDistance(b, a))
  }

  /** A horizontal link of length 10 at the origin and a node 12 above its
      middle: the node is 12 away from the line, yet the check as written
      lets the link through, because it divides by the square root of 200
      instead of 10. */
  lemma AsWrittenAcceptsDistantNode()
    ensures !TooFarAsWritten(Coord(5.0, 12.0), Coord(0.0, 0.0), Coord(10.0, 0.0))
    ensures TooFar(Coord(5.0, 12.0), Coord(0.0, 0.0), Coord(10.0, 0.0))
  {
  }

  /** Lagrange's identity for the two vectors `b - a` and `p - a`. */
  lemma Lagrange(p: Coord, a: Coord, b: Coord)
    ensures SquaredDistance(b, a) * SquaredDistance(p, a) == Dot(p, a, b) * Dot(p, a, b) + Cross(p, a, b) * Cross(p, a, b)
  {
    var u1, u2 := b.x - a.x, b.y - a.y;
    var v1, v2 := p.x - a.x, p.y - a.y;
    assert Cross(p, a, b) == u2 * v1 - u1 * v2;
    assert (u1 * u1 + u2 * u2) * (v1 * v1 + v2 * v2) == (v1 * u1 + v2 * u2) * (v1 * u1 + v2 * u2) + (u2 * v1 - u1 * v2) * (u2 * v1 - u1 * v2);
  }

  /** The foot of the perpendicular from `p` onto the line through `a` and
      `b`. */
  function Foot(p: Coord, a: Coord, b: Coord): Coord
    requires SquaredDistance(b, a) > 0.0
  {
    var t := Dot(p, a, b) / SquaredDistance(b, a);
    Coord(a.x + t * (b.x - a.x), a.y + t * (b.y - a.y))
  }

  /** The squared distance from `p` to its foot, times the squared length
      of the link, is the squared cross product. */
  lemma FootDistance(p: Coord, a: Coord, b: Coord)
    requires SquaredDistance(b, a) > 0.0
    ensures SquaredDistance(p, Foot(p, a, b)) * SquaredDistance(b, a) == Cross(p, a, b) * Cross(p, a, b)
  {
    var u1, u2 := b.x - a.x, b.y - a.y;
    var v1, v2 := p.x - a.x, p.y - a.y;
    var len := SquaredDistance(b, a);
    var d := Dot(p, a, b);
    var t := d / len;
    var f := Foot(p, a, b);
    assert p.x - f.x == v1 - t * u1 && p.y - f.y == v2 - t * u2;
    assert SquaredDistance(p, f) == (v1 - t * u1) * (v1 - t * u1) + (v2 - t * u2) * (v2 - t * u2);
    ScaledOffset(v1, v2, u1, u2, t, len, d);
    Lagrange(p, a, b);
  }

  /** `|v - t u|^2 |u|^2 = |v|^2 |u|^2 - (v.u)^2` when `t |u|^2 = v.u`. */
  lemma ScaledOffset(v1: real, v2: real, u1: real, u2: real, t: real, len: real, d: real)
    requires len == u1 * u1 + u2 * u2 && len > 0.0
    requires d == v1 * u1 + v2 * u2 && t == d / len
    ensures ((v1 - t * u1) * (v1 - t * u1) + (v2 - t * u2) * (v2 - t * u2)) * len == (v1 * v1 + v2 * v2) * len - d * d
  {
    assert t * len == d;
    Expand(v1, v2, u1, u2, t);
    assert (t * t * len) * len == d * d;
    assert (2.0 * t * d) * len == 2.0 * d * d;
  }

  /** `|v - t u|^2 = |v|^2 - 2 t (v.u) + t^2 |u|^2`. */
  lemma Expand(v1: real, v2: real, u1: real, u2: real, t: real)
    ensures (v1 - t * u1) * (v1 - t * u1) + (v2 - t * u2) * (v2 - t * u2)
         == (v1 * v1 + v2 * v2) - 2.0 * t * (v1 * u1 + v2 * u2) + t * t * (u1 * u1 + u2 * u2)
  {
  }

  /** The corrected check rejects exactly the nodes whose distance from the
      line through a non-degenerate link exceeds 10. */
  lemma TooFarIsPerpendicularDistance(p: Coord, a: Coord, b: Coord)
    requires SquaredDistance(b, a) > 0.0
    ensures TooFar(p, a, b) <==> SquaredDistance(p, Foot(p, a, b)) > MaxDistance * MaxDistance
  {
    FootDistance(p, a, b);
    var len := SquaredDistance(b, a);
    var s := SquaredDistance(p, Foot(p, a, b));
    assert s > 100.0 <==> s * len > 100.0 * len;
  }

  /** A link of length zero rejects nothing: the numerator is 0, over
      `0` in the corrected check and over `|x_1 - y_1|` as written. */
  lemma DegenerateLinkRejectsNothing(p: Coord, a: Coord)
    ensures !TooFar(p, a, a)
    ensures !TooFarAsWritten(p, a, a)
  {
    assert Cross(p, a, a) == 0.0;
  }
}
