/** Integer points, slopes and chains of points, with the facts about lines that the
    piecewise-linear segmenter relies on. Nothing here rounds: a slope is a pair of
    integers and two slopes are compared by cross-multiplication, as the source does. */
module Geometry {

  datatype Point = Point(x: int, y: int) {
    function Minus(p: Point): Slope {
      Slope(x - p.x, y - p.y)
    }

    /** Reflection in the x axis. */
    function Flip(): Point {
      Point(x, -y)
    }
  }

  datatype Slope = Slope(dx: int, dy: int) {
    predicate Less(p: Slope) {
      dy * p.dx < dx * p.dy
    }

    predicate Greater(p: Slope) {
      dy * p.dx > dx * p.dy
    }

    function Flip(): Slope {
      Slope(dx, -dy)
    }
  }

  function Cross(o: Point, a: Point, b: Point): int {
    var oa := a.Minus(o);
    var ob := b.Minus(o);
    oa.dx * ob.dy - oa.dy * ob.dx
  }

  /** The intercept, scaled by s.dx, of the line of slope s through p. Comparing offsets
      of two points tells which of them lies on the higher line of slope s. */
  function Offset(s: Slope, p: Point): int {
    s.dx * p.y - s.dy * p.x
  }

  /** Slope order for slopes with positive dx. */
  predicate AtMost(s: Slope, t: Slope) {
    s.dy * t.dx <= t.dy * s.dx
  }

  function FlipAll(ps: seq<Point>): (r: seq<Point>)
    ensures |r| == |ps|
    ensures forall i :: 0 <= i < |ps| ==> r[i] == ps[i].Flip()
  {
    seq(|ps|, i requires 0 <= i < |ps| => ps[i].Flip())
  }

  lemma FlipTwice(ps: seq<Point>)
    ensures FlipAll(FlipAll(ps)) == ps
  {
  }

  /** Moving right of q, a point under the line of slope s through q is under every
      steeper line through q, and over a steeper line only if over the flatter one. */
  lemma Tilt(s: Slope, t: Slope, q: Point, p: Point)
    requires s.dx > 0 && t.dx > 0 && AtMost(s, t)
    requires q.x <= p.x
    ensures Offset(s, p) <= Offset(s, q) ==> Offset(t, p) <= Offset(t, q)
    ensures Offset(s, p) < Offset(s, q) ==> Offset(t, p) < Offset(t, q)
    ensures Offset(t, p) >= Offset(t, q) ==> Offset(s, p) >= Offset(s, q)
  {
    OffsetGap(s, q, p);
    OffsetGap(t, q, p);
    hide Offset;
    TiltRise(s.dx, s.dy, t.dx, t.dy, p.x - q.x, p.y - q.y);
  }

  lemma OffsetGap(s: Slope, q: Point, p: Point)
    ensures Offset(s, p) - Offset(s, q) == s.dx * (p.y - q.y) - s.dy * (p.x - q.x)
  {
  }

  lemma TiltRise(sx: int, sy: int, tx: int, ty: int, dx: int, dy: int)
    requires sx > 0 && tx > 0 && sy * tx <= ty * sx && dx >= 0
    ensures sx * dy - sy * dx <= 0 ==> tx * dy - ty * dx <= 0
    ensures sx * dy - sy * dx < 0 ==> tx * dy - ty * dx < 0
    ensures tx * dy - ty * dx >= 0 ==> sx * dy - sy * dx >= 0
  {
    var ds, dt, gap := sx * dy - sy * dx, tx * dy - ty * dx, sy * tx - ty * sx;
    assert sx * dt - tx * ds == dx * gap;
    MulMono(dx, gap);
    MulSign(tx, ds);
    MulSign(sx, dt);
  }

  lemma MulMono(a: int, b: int)
    requires a >= 0 && b <= 0
    ensures a * b <= 0
  {
  }

  lemma MulSign(a: int, b: int)
    requires a > 0
    ensures a * b > 0 <==> b > 0
    ensures a * b < 0 <==> b < 0
  {
    if b > 0 { assert a * b > 0; } else if b < 0 { assert a * b < 0; }
  }

  /** If b is on or under the segment from a to c, every line over both ends is over b. */
  lemma Sandwich(s: Slope, a: Point, b: Point, c: Point)
    requires s.dx > 0 && a.x < b.x < c.x
    requires Cross(a, b, c) >= 0
    ensures Offset(s, b) <= Offset(s, a) || Offset(s, b) <= Offset(s, c)
  {
    var u, v := c.x - b.x, b.x - a.x;
    var da, dc := Offset(s, b) - Offset(s, a), Offset(s, b) - Offset(s, c);
    assert u * da + v * dc == -(s.dx * Cross(a, b, c));
    MulMono(s.dx, -Cross(a, b, c));
    if da > 0 && dc > 0 {
      MulSign(u, da);
      MulSign(v, dc);
      assert false;
    }
  }

  ghost predicate XIncreasing(c: seq<Point>) {
    forall i, j :: 0 <= i < j < |c| ==> c[i].x < c[j].x
  }

  /** The turn made at the interior point k of a chain: negative is a right turn. */
  ghost function Turn(c: seq<Point>, k: int): int
    requires 1 <= k < |c| - 1
  {
    Cross(c[k - 1], c[k], c[k + 1])
  }

  ghost predicate Concave(c: seq<Point>) {
    forall k :: 1 <= k < |c| - 1 ==> Turn(c, k) < 0
  }

  /** Some point of the chain is at least as high as p in the direction of slope s. */
  ghost predicate Covered(s: Slope, p: Point, c: seq<Point>) {
    exists k :: 0 <= k < |c| && Offset(s, p) <= Offset(s, c[k])
  }

  /** For every admissible slope the highest of the points ps is matched within the chain. */
  ghost predicate Supports(c: seq<Point>, ps: seq<Point>, least: Slope, most: Slope) {
    forall s: Slope, i ::
      s.dx > 0 && AtMost(least, s) && AtMost(s, most) && 0 <= i < |ps| ==> Covered(s, ps[i], c)
  }

  ghost predicate Dominates(c: seq<Point>, ps: seq<Point>) {
    forall s: Slope, i :: s.dx > 0 && 0 <= i < |ps| ==> Covered(s, ps[i], c)
  }

  ghost predicate SubsetOf(c: seq<Point>, ps: seq<Point>) {
    forall i :: 0 <= i < |c| ==> c[i] in ps
  }

  ghost predicate Behind(a: Point, p: Point) {
    a.x < p.x || (a.x == p.x && a.y < p.y)
  }

  /** Once a concave chain drops in the direction of slope t it keeps dropping. */
  lemma {:induction false} KeepsDropping(c: seq<Point>, t: Slope, i: int, j: int)
    requires XIncreasing(c) && Concave(c) && t.dx > 0
    requires 1 <= i <= j < |c|
    requires Offset(t, c[i]) < Offset(t, c[i - 1])
    ensures Offset(t, c[j]) < Offset(t, c[j - 1])
    ensures Offset(t, c[j]) <= Offset(t, c[i])
    decreases j
  {
    hide Offset, Cross;
    if i < j {
      KeepsDropping(c, t, i, j - 1);
      assert Turn(c, j - 1) < 0;
      DropOnRightTurn(t, c[j - 2], c[j - 1], c[j]);
    }
  }

  lemma DropOnRightTurn(t: Slope, a: Point, b: Point, d: Point)
    requires t.dx > 0 && a.x < b.x < d.x
    requires Cross(a, b, d) < 0 && Offset(t, b) < Offset(t, a)
    ensures Offset(t, d) < Offset(t, b)
  {
    OffsetGap(t, a, b);
    OffsetGap(t, b, d);
    hide Offset;
    assert Cross(a, b, d) == (b.x - a.x) * (d.y - b.y) - (b.y - a.y) * (d.x - b.x);
    hide Cross;
    DropStep(t.dx, t.dy, b.x - a.x, b.y - a.y, d.x - b.x, d.y - b.y);
  }

  lemma DropStep(tx: int, ty: int, ex: int, ey: int, fx: int, fy: int)
    requires tx > 0 && ex > 0 && fx > 0
    requires tx * ey - ty * ex < 0 && ex * fy - ey * fx < 0
    ensures tx * fy - ty * fx < 0
  {
    var de, df, turn := tx * ey - ty * ex, tx * fy - ty * fx, ex * fy - ey * fx;
    assert ex * df - fx * de == tx * turn;
    MulSign(tx, turn);
    MulSign(fx, de);
    MulSign(ex, df);
  }
}
