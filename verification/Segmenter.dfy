/** The online segmenter: accepts points as long as one line meets every tolerance interval. */
module Segmenter {
  import opened Geometry
  import opened Hull

  /** NotIncreasing stands for the logic_error the source throws. */
  datatype AddResult = Accepted | Rejected | NotIncreasing

  /** The value of the line with slope m and intercept c. */
  ghost function Height(m: real, c: real, x: int): real {
    m * (x as real) + c
  }

  ghost predicate LineFits(m: real, c: real, bands: seq<Band>) {
    forall i :: 0 <= i < |bands| ==> bands[i].Has(Height(m, c, bands[i].x))
  }

  /** Some line, over the reals, meets every band. */
  ghost predicate Fits(bands: seq<Band>) {
    exists m: real, c: real :: LineFits(m, c, bands)
  }

  /** Within epsilon of y, and a value that the type from minY to maxY can hold. */
  ghost predicate Near(v: real, y: int, epsilon: int, minY: int, maxY: int) {
    minY as real <= v <= maxY as real && -(epsilon as real) <= v - y as real <= epsilon as real
  }

  /** The line comes near every point. */
  ghost predicate LineNear(m: real, c: real, points: seq<Point>, epsilon: int, minY: int, maxY: int) {
    forall i :: 0 <= i < |points| ==> Near(Height(m, c, points[i].x), points[i].y, epsilon, minY, maxY)
  }

  /** Some line, over the reals, comes near every point. */
  ghost predicate SomeLineNear(points: seq<Point>, epsilon: int, minY: int, maxY: int) {
    exists m: real, c: real :: LineNear(m, c, points, epsilon, minY, maxY)
  }

  ghost predicate SlopeNear(m: real, points: seq<Point>, epsilon: int, minY: int, maxY: int) {
    exists c: real :: LineNear(m, c, points, epsilon, minY, maxY)
  }

  /** The tolerance interval of a point, saturated at the ends of the value type. */
  function BandAround(x: int, y: int, epsilon: int, minY: int, maxY: int): (band: Band)
    requires epsilon >= 0 && minY <= y <= maxY
    ensures band.x == x
    ensures forall v: real :: band.Has(v) <==> Near(v, y, epsilon, minY, maxY)
  {
    Band(x,
         if y <= minY + epsilon then minY else y - epsilon,
         if y >= maxY - epsilon then maxY else y + epsilon)
  }

  /** The bands are those of the points. */
  ghost predicate BandsOf(bands: seq<Band>, points: seq<Point>, epsilon: int, minY: int, maxY: int) {
    && epsilon >= 0
    && |bands| == |points|
    && forall i :: 0 <= i < |points| ==>
         minY <= points[i].y <= maxY && bands[i] == BandAround(points[i].x, points[i].y, epsilon, minY, maxY)
  }

  /** A line meets the bands exactly when it comes near the points. */
  lemma MeetsIsNear(m: real, c: real, bands: seq<Band>, points: seq<Point>, epsilon: int, minY: int, maxY: int)
    requires BandsOf(bands, points, epsilon, minY, maxY)
    ensures LineFits(m, c, bands) <==> LineNear(m, c, points, epsilon, minY, maxY)
  {
    hide Near, BandAround, Height;
    forall i | 0 <= i < |points|
      ensures bands[i].Has(Height(m, c, bands[i].x)) <==>
              Near(Height(m, c, points[i].x), points[i].y, epsilon, minY, maxY)
    {
      MeetsIsNearAt(Height(m, c, points[i].x), bands[i], points[i], epsilon, minY, maxY);
    }
  }

  lemma MeetsIsNearAt(v: real, band: Band, p: Point, epsilon: int, minY: int, maxY: int)
    requires epsilon >= 0 && minY <= p.y <= maxY && band == BandAround(p.x, p.y, epsilon, minY, maxY)
    ensures band.Has(v) <==> Near(v, p.y, epsilon, minY, maxY)
  {
  }

  lemma FitsIsNear(bands: seq<Band>, points: seq<Point>, epsilon: int, minY: int, maxY: int)
    requires BandsOf(bands, points, epsilon, minY, maxY)
    ensures |bands| == |points|
    ensures Fits(bands) <==> SomeLineNear(points, epsilon, minY, maxY)
    ensures forall m: real :: SlopeFits(m, bands) <==> SlopeNear(m, points, epsilon, minY, maxY)
  {
    assert |bands| == |points|;
    hide LineFits, LineNear;
    forall m: real, c: real
      ensures LineFits(m, c, bands) <==> LineNear(m, c, points, epsilon, minY, maxY)
    {
      MeetsIsNear(m, c, bands, points, epsilon, minY, maxY);
    }
  }

  ghost predicate Ascending(bands: seq<Band>) {
    forall i, j :: 0 <= i < j < |bands| ==> bands[i].x < bands[j].x
  }

  function Tops(bands: seq<Band>): (r: seq<Point>)
    ensures |r| == |bands| && forall i :: 0 <= i < |r| ==> r[i] == bands[i].Top()
  {
    seq(|bands|, i requires 0 <= i < |bands| => bands[i].Top())
  }

  function Bottoms(bands: seq<Band>): (r: seq<Point>)
    ensures |r| == |bands| && forall i :: 0 <= i < |r| ==> r[i] == bands[i].Bottom()
  {
    seq(|bands|, i requires 0 <= i < |bands| => bands[i].Bottom())
  }

  // ------------------------------------------------------------------ scanning a hull

  lemma TouchStep(c: seq<Point>, p: Point, k: int)
    requires 0 <= k < |c| - 1 && XIncreasing(c) && c[k + 1].x < p.x
    requires forall j :: 0 <= j <= k ==> Offset(p.Minus(c[k]), c[j]) <= Offset(p.Minus(c[k]), c[k])
    requires !c[k + 1].Minus(p).Greater(c[k].Minus(p))
    ensures forall j :: 0 <= j <= k + 1 ==> Offset(p.Minus(c[k + 1]), c[j]) <= Offset(p.Minus(c[k + 1]), c[k + 1])
  {
    var t, t' := p.Minus(c[k]), p.Minus(c[k + 1]);
    assert AtMost(t', t);
    assert forall j :: 0 <= j <= k ==> c[j].x < c[k + 1].x;
    hide Offset, AtMost;
    SameLine(c[k], p);
    SameLine(c[k + 1], p);
    forall j | 0 <= j <= k ensures Offset(t', c[j]) <= Offset(t', c[k + 1]) {
      Tilt(t', t, c[j], p);
    }
  }

  lemma TouchStop(c: seq<Point>, p: Point, k: int)
    requires 0 <= k < |c| - 1 && XIncreasing(c) && Concave(c) && c[k].x < p.x
    requires forall j :: 0 <= j <= k ==> Offset(p.Minus(c[k]), c[j]) <= Offset(p.Minus(c[k]), c[k])
    requires c[k + 1].Minus(p).Greater(c[k].Minus(p))
    ensures Touches(c, p, k)
  {
    var t := p.Minus(c[k]);
    SameLine(c[k], p);
    assert Offset(t, c[k + 1]) < Offset(t, c[k]);
    hide Offset;
    forall j | k < j < |c| ensures Offset(t, c[j]) <= Offset(t, c[k]) {
      KeepsDropping(c, t, k + 1, j);
    }
  }

  /** The scan for the flattest line from a hull point to p, with its early break. */
  method FindLowerTouch(lower: seq<Point>, start: nat, p: Point) returns (minI: nat)
    requires start < |lower| && lower[start].x < p.x
    requires XIncreasing(lower[start..]) && Concave(lower[start..])
    requires forall j :: start <= j < |lower| ==> Behind(lower[j], p)
    ensures start <= minI < |lower| && Touches(lower[start..], p, minI - start)
  {
    ghost var c := lower[start..];
    var min := lower[start].Minus(p);
    minI := start;
    var i := start + 1;
    while i < |lower|
      invariant start < i <= |lower| && minI == i - 1
      invariant lower[minI].x < p.x && min == lower[minI].Minus(p)
      invariant forall j :: 0 <= j <= minI - start ==>
        Offset(p.Minus(c[minI - start]), c[j]) <= Offset(p.Minus(c[minI - start]), c[minI - start])
    {
      var val := lower[i].Minus(p);
      if val.Greater(min) {
        TouchStop(c, p, minI - start);
        break;
      }
      assert lower[i].x < p.x by { NotStacked(lower[i], lower[minI], p); }
      TouchStep(c, p, minI - start);
      min := val;
      minI := i;
      i := i + 1;
    }
  }

  /** A hull point straight under p always ends the scan. */
  lemma NotStacked(a: Point, b: Point, p: Point)
    requires Behind(a, p) && b.x < p.x
    requires !a.Minus(p).Greater(b.Minus(p))
    ensures a.x < p.x
  {
    MulSign(p.x - b.x, p.y - a.y);
    assert a.Minus(p).dy * b.Minus(p).dx == (p.x - b.x) * (p.y - a.y);
  }

  method FindUpperTouch(upper: seq<Point>, start: nat, p: Point) returns (maxI: nat)
    requires start < |upper| && upper[start].x < p.x
    requires XIncreasing(FlipAll(upper[start..])) && Concave(FlipAll(upper[start..]))
    requires forall j :: start <= j < |upper| ==> Behind(upper[j].Flip(), p.Flip())
    ensures start <= maxI < |upper| && Touches(FlipAll(upper[start..]), p.Flip(), maxI - start)
  {
    ghost var c, q := FlipAll(upper[start..]), p.Flip();
    var max := upper[start].Minus(p);
    maxI := start;
    var i := start + 1;
    while i < |upper|
      invariant start < i <= |upper| && maxI == i - 1
      invariant upper[maxI].x < p.x && max == upper[maxI].Minus(p)
      invariant forall j :: 0 <= j <= maxI - start ==>
        Offset(q.Minus(c[maxI - start]), c[j]) <= Offset(q.Minus(c[maxI - start]), c[maxI - start])
    {
      var val := upper[i].Minus(p);
      assert c[i - start] == upper[i].Flip() && c[maxI - start] == upper[maxI].Flip();
      CompareFlip(upper[i], upper[maxI], p);
      if val.Less(max) {
        TouchStop(c, q, maxI - start);
        break;
      }
      NotStacked(upper[i].Flip(), upper[maxI].Flip(), q);
      TouchStep(c, q, maxI - start);
      max := val;
      maxI := i;
      i := i + 1;
    }
  }

  lemma CompareFlip(a: Point, b: Point, p: Point)
    ensures a.Minus(p).Less(b.Minus(p)) == a.Flip().Minus(p.Flip()).Greater(b.Flip().Minus(p.Flip()))
  {
  }

  // ------------------------------------------------------------------ trimming a hull

  /** Dropping the last kept point is harmless when it is under the chord to p. */
  lemma StillCovered(c: seq<Point>, p: Point, n: int, s: Slope, q: Point)
    requires 2 <= n <= |c| && c[n - 2].x < c[n - 1].x < p.x && s.dx > 0
    requires Covered(s, q, c[..n] + [p])
    requires Cross(c[n - 2], c[n - 1], p) >= 0
    ensures Covered(s, q, c[..n - 1] + [p])
  {
    hide Offset, Cross;
    var old', new' := c[..n] + [p], c[..n - 1] + [p];
    var k :| 0 <= k < |old'| && Offset(s, q) <= Offset(s, old'[k]);
    Sandwich(s, c[n - 2], c[n - 1], p);
    assert new'[n - 1] == p && new'[n - 2] == c[n - 2];
    if k < n - 1 {
      assert new'[k] == old'[k];
    }
  }

  lemma TrimStep(c: seq<Point>, p: Point, n: int)
    requires 2 <= n <= |c| && XIncreasing(c) && c[n - 1].x < p.x
    requires Dominates(c[..n] + [p], c)
    requires Cross(c[n - 2], c[n - 1], p) >= 0
    ensures Dominates(c[..n - 1] + [p], c)
  {
    assert c[n - 2].x < c[n - 1].x;
    hide Covered, Cross;
    forall s: Slope, i | s.dx > 0 && 0 <= i < |c| ensures Covered(s, c[i], c[..n - 1] + [p]) {
      StillCovered(c, p, n, s, c[i]);
    }
  }

  lemma TrimDone(c: seq<Point>, p: Point, n: int)
    requires 1 <= n <= |c| && Concave(c)
    requires Dominates(c[..n] + [p], c)
    requires n >= 2 ==> Cross(c[n - 2], c[n - 1], p) < 0
    ensures Trims(c, p, n)
  {
    var c' := c[..n] + [p];
    hide Cross, Dominates;
    forall k | 1 <= k < |c'| - 1 ensures Turn(c', k) < 0 {
      assert c'[k - 1] == c[k - 1] && c'[k] == c[k];
      if k < n - 1 {
        assert c'[k + 1] == c[k + 1];
        assert Turn(c, k) < 0;
      }
    }
  }

  lemma TrimStart(c: seq<Point>, p: Point)
    ensures Dominates(c[..|c|] + [p], c)
  {
    var c' := c[..|c|] + [p];
    hide Offset;
    forall s: Slope, i | s.dx > 0 && 0 <= i < |c| ensures Covered(s, c[i], c') {
      assert c'[i] == c[i];
    }
  }

  method TrimLower(lower: seq<Point>, start: nat, p: Point) returns (end: nat)
    requires start < |lower| && XIncreasing(lower[start..]) && Concave(lower[start..])
    requires forall j :: start <= j < |lower| ==> lower[j].x < p.x
    ensures start < end <= |lower| && Trims(lower[start..], p, end - start)
  {
    hide Concave, Dominates, Cross, XIncreasing, Trims;
    ghost var c := lower[start..];
    end := |lower|;
    TrimStart(c, p);
    while end >= start + 2 && Cross(lower[end - 2], lower[end - 1], p) >= 0
      invariant start < end <= |lower|
      invariant Dominates(c[..end - start] + [p], c)
    {
      TrimStep(c, p, end - start);
      end := end - 1;
    }
    TrimDone(c, p, end - start);
  }

  method TrimUpper(upper: seq<Point>, start: nat, p: Point) returns (end: nat)
    requires start < |upper|
    requires XIncreasing(FlipAll(upper[start..])) && Concave(FlipAll(upper[start..]))
    requires forall j :: start <= j < |upper| ==> upper[j].x < p.x
    ensures start < end <= |upper| && Trims(FlipAll(upper[start..]), p.Flip(), end - start)
  {
    hide Concave, Dominates, Cross, XIncreasing, Trims;
    ghost var c, q := FlipAll(upper[start..]), p.Flip();
    end := |upper|;
    TrimStart(c, q);
    while end >= start + 2 && Cross(upper[end - 2], upper[end - 1], p) <= 0
      invariant start < end <= |upper|
      invariant Dominates(c[..end - start] + [q], c)
    {
      CrossFlip(upper[end - 2], upper[end - 1], p);
      TrimStep(c, q, end - start);
      end := end - 1;
    }
    if end >= start + 2 {
      CrossFlip(upper[end - 2], upper[end - 1], p);
    }
    TrimDone(c, q, end - start);
  }

  lemma CrossFlip(o: Point, a: Point, b: Point)
    ensures Cross(o.Flip(), a.Flip(), b.Flip()) == -Cross(o, a, b)
  {
  }

  // ------------------------------------------------------------------ lines over the reals

  function RealSlope(s: Slope): real
    requires s.dx > 0
  {
    s.dy as real / s.dx as real
  }

  lemma OnRealLine(s: Slope, o: Point, p: Point)
    requires s.dx > 0
    ensures var at := RealSlope(s) * (p.x as real) + (o.y as real - RealSlope(s) * (o.x as real));
      && (Offset(s, p) <= Offset(s, o) ==> p.y as real <= at)
      && (Offset(s, p) >= Offset(s, o) ==> p.y as real >= at)
  {
    var m, d := RealSlope(s), s.dx as real;
    var at := m * (p.x as real) + (o.y as real - m * (o.x as real));
    assert d * m == s.dy as real;
    assert d * at == (s.dy * (p.x - o.x) + s.dx * o.y) as real by {
      assert d * (m * (p.x as real)) == (d * m) * (p.x as real);
      assert d * (m * (o.x as real)) == (d * m) * (o.x as real);
    }
    assert d * (p.y as real) - d * at == (Offset(s, p) - Offset(s, o)) as real;
    RealCancel(d, p.y as real, at);
  }

  lemma RealCancel(d: real, a: real, b: real)
    requires d > 0.0
    ensures d * a <= d * b <==> a <= b
  {
    if a < b { assert d * a < d * b; } else if a > b { assert d * a > d * b; }
  }

  /** An integer line that clears every top and bottom is a line that fits. */
  lemma ExtremeLineFits(s: Slope, o: Point, bands: seq<Band>)
    requires s.dx > 0
    requires NoneAbove(Bottoms(bands), s, o) && NoneBelow(Tops(bands), s, o)
    ensures LineFits(RealSlope(s), o.y as real - RealSlope(s) * (o.x as real), bands)
    ensures Fits(bands)
  {
    hide Offset, RealSlope;
    forall i | 0 <= i < |bands|
      ensures var at := RealSlope(s) * (bands[i].x as real) + (o.y as real - RealSlope(s) * (o.x as real));
        bands[i].lo as real <= at <= bands[i].hi as real
    {
      assert Bottoms(bands)[i] == bands[i].Bottom() && Tops(bands)[i] == bands[i].Top();
      OnRealLine(s, o, bands[i].Bottom());
      OnRealLine(s, o, bands[i].Top());
    }
  }

  ghost predicate LineOver(m: real, c: real, p: Point) {
    p.y as real <= m * (p.x as real) + c
  }

  ghost predicate LineUnder(m: real, c: real, p: Point) {
    m * (p.x as real) + c <= p.y as real
  }

  /** A line under the top o and over the bottom q to its right is at least as steep as they are. */
  lemma SlopeAtLeast(m: real, c: real, o: Point, q: Point)
    requires LineUnder(m, c, o) && LineOver(m, c, q)
    ensures q.Minus(o).dy as real <= m * (q.Minus(o).dx as real)
  {
  }

  lemma SlopeAtMost(m: real, c: real, o: Point, q: Point)
    requires LineOver(m, c, o) && LineUnder(m, c, q)
    ensures m * (q.Minus(o).dx as real) <= q.Minus(o).dy as real
  {
  }

  /** A line under o and over q runs over p when p is right of q and under the line from o to q. */
  lemma NoLineBelow(m: real, c: real, o: Point, q: Point, p: Point)
    requires o.x < q.x < p.x
    requires LineUnder(m, c, o) && LineOver(m, c, q)
    requires p.Minus(q).Less(q.Minus(o))
    ensures !LineUnder(m, c, p)
  {
    var s, t := q.Minus(o), p.Minus(q);
    var dx, dy, tx, ty := s.dx as real, s.dy as real, t.dx as real, t.dy as real;
    SlopeAtLeast(m, c, o, q);
    assert (t.dy * s.dx) as real < (t.dx * s.dy) as real;
    assert ty * dx < tx * dy;
    assert tx * dy <= tx * (m * dx);
    assert tx * (m * dx) == dx * (m * tx);
    assert dx * ty < dx * (m * tx);
    RealCancel(dx, m * tx, ty);
  }

  lemma NoLineAbove(m: real, c: real, o: Point, q: Point, p: Point)
    requires o.x < q.x < p.x
    requires LineOver(m, c, o) && LineUnder(m, c, q)
    requires p.Minus(q).Greater(q.Minus(o))
    ensures !LineOver(m, c, p)
  {
    assert p.Flip().Minus(q.Flip()).Less(q.Flip().Minus(o.Flip()));
    NoLineBelow(-m, -c, o.Flip(), q.Flip(), p.Flip());
  }

  // ------------------------------------------------------------------ the segmenter

  ghost predicate ClearsFlattest(r: seq<Point>, p: Point)
    requires |r| == 4
  {
    Offset(r[2].Minus(r[0]), r[0]) <= Offset(r[2].Minus(r[0]), p)
  }

  ghost predicate OverFlattest(r: seq<Point>, p: Point)
    requires |r| == 4
  {
    Offset(r[2].Minus(r[0]), r[0]) < Offset(r[2].Minus(r[0]), p)
  }

  ghost predicate ClearsSteepest(r: seq<Point>, p: Point)
    requires |r| == 4
  {
    Offset(r[3].Minus(r[1]), p) <= Offset(r[3].Minus(r[1]), r[1])
  }

  ghost predicate UnderSteepest(r: seq<Point>, p: Point)
    requires |r| == 4
  {
    Offset(r[3].Minus(r[1]), p) < Offset(r[3].Minus(r[1]), r[1])
  }

  lemma CompareOffset(s: Slope, q: Point, p: Point)
    ensures p.Minus(q).Less(s) <==> Offset(s, p) < Offset(s, q)
    ensures p.Minus(q).Greater(s) <==> Offset(s, p) > Offset(s, q)
  {
  }

  lemma InsideBoth(r: seq<Point>, p1: Point, p2: Point)
    requires |r| == 4
    requires !p1.Minus(r[2]).Less(r[2].Minus(r[0]))
    requires !p2.Minus(r[3]).Greater(r[3].Minus(r[1]))
    ensures ClearsFlattest(r, p1) && ClearsSteepest(r, p2)
  {
    CompareOffset(r[2].Minus(r[0]), r[2], p1);
    CompareOffset(r[3].Minus(r[1]), r[3], p2);
    SameLine(r[0], r[2]);
    SameLine(r[1], r[3]);
  }

  /** With the new top p1 as a corner of the steepest line, the new bottom is under it. */
  lemma BottomUnderTop(r: seq<Point>, p1: Point, p2: Point)
    requires |r| == 4 && r[3] == p1 && r[1].x < p1.x == p2.x && p2.y <= p1.y
    ensures ClearsSteepest(r, p2)
  {
    SameLine(r[1], r[3]);
    MulMono(r[3].Minus(r[1]).dx, p2.y - p1.y);
  }

  lemma HullFacts(r: seq<Point>, lower: seq<Point>, upper: seq<Point>, bots: seq<Point>, tops: seq<Point>)
    requires HullOk(r, lower, upper, bots, tops)
    ensures |r| == 4 && |lower| > 0 && |upper| > 0
    ensures lower[0] == r[1] && lower[|lower| - 1] == r[2]
    ensures upper[0] == r[0] && upper[|upper| - 1] == r[3]
    ensures r[0].x < r[2].x && r[1].x < r[3].x
    ensures forall j :: 0 <= j < |lower| ==> lower[j] in bots
    ensures forall j :: 0 <= j < |upper| ==> upper[j] in tops
    ensures XIncreasing(lower) && Concave(lower)
    ensures XIncreasing(FlipAll(upper)) && Concave(FlipAll(upper))
  {
    hide Offset, AtMost, Supports, Concave, XIncreasing;
    forall j | 0 <= j < |upper| ensures upper[j] in tops {
      assert FlipAll(upper)[j] in FlipAll(tops);
      var i :| 0 <= i < |tops| && FlipAll(tops)[i] == FlipAll(upper)[j];
      assert tops[i] == upper[j];
    }
  }

  lemma OneBand(bands: seq<Band>)
    requires |bands| == 1 && bands[0].lo <= bands[0].hi
    ensures Fits(bands)
  {
    assert LineFits(0.0, bands[0].hi as real, bands);
  }

  /** The first two bands: the flattest line falls from top to bottom, the steepest rises. */
  lemma TwoBands(r: seq<Point>, bands: seq<Band>)
    requires |bands| == 2 && Ascending(bands)
    requires forall i :: 0 <= i < 2 ==> bands[i].lo <= bands[i].hi
    requires r == [bands[0].Top(), bands[0].Bottom(), bands[1].Bottom(), bands[1].Top()]
    ensures HullOk(r, [r[1], r[2]], [r[0], r[3]], Bottoms(bands), Tops(bands))
  {
    hide SideOk, Offset, AtMost;
    assert Bottoms(bands) == [r[1], r[2]] && Tops(bands) == [r[0], r[3]];
    FourCorners(r);
    WholeHull([r[1], r[2]], r[2].Minus(r[0]), r[3].Minus(r[1]));
    WholeHull(FlipAll([r[0], r[3]]), r[3].Minus(r[1]).Flip(), r[2].Minus(r[0]).Flip());
  }

  lemma FourCorners(r: seq<Point>)
    requires |r| == 4 && r[0].x == r[1].x < r[2].x == r[3].x && r[1].y <= r[0].y && r[2].y <= r[3].y
    ensures var flat, steep := r[2].Minus(r[0]), r[3].Minus(r[1]);
      && AtMost(flat, steep)
      && NoneAbove([r[1], r[2]], flat, r[0]) && NoneAbove([r[1], r[2]], steep, r[1])
      && NoneBelow([r[0], r[3]], flat, r[0]) && NoneBelow([r[0], r[3]], steep, r[1])
  {
    var flat, steep := r[2].Minus(r[0]), r[3].Minus(r[1]);
    Scale(flat.dx, flat.dy, steep.dy);
    assert AtMost(flat, steep);
    SameLine(r[0], r[2]);
    SameLine(r[1], r[3]);
    ScaledOrder(flat, r[1], r[0]);
    ScaledOrder(flat, r[2], r[3]);
    ScaledOrder(steep, r[2], r[3]);
    ScaledOrder(steep, r[1], r[0]);
    hide Offset, AtMost;
  }

  lemma ScaledOrder(s: Slope, a: Point, b: Point)
    requires s.dx >= 0 && a.x == b.x && a.y <= b.y
    ensures Offset(s, a) <= Offset(s, b)
  {
    Scale(s.dx, a.y, b.y);
  }

  lemma WholeHull(c: seq<Point>, least: Slope, most: Slope)
    requires |c| == 2 && c[0].x < c[1].x
    ensures SideOk(c, c, least, most)
  {
    forall s: Slope, i | s.dx > 0 && 0 <= i < |c| ensures Covered(s, c[i], c) {
      assert Offset(s, c[i]) <= Offset(s, c[i]);
    }
  }

  lemma HullFits(r: seq<Point>, lower: seq<Point>, upper: seq<Point>, bands: seq<Band>)
    requires HullOk(r, lower, upper, Bottoms(bands), Tops(bands))
    ensures Fits(bands)
  {
    hide Offset, AtMost, SideOk;
    ExtremeLineFits(r[2].Minus(r[0]), r[0], bands);
  }

  /** A band outside the two extreme lines cannot be met together with the earlier ones. */
  lemma OutsideMisfit(r: seq<Point>, lower: seq<Point>, upper: seq<Point>, bands: seq<Band>, band: Band)
    requires HullOk(r, lower, upper, Bottoms(bands), Tops(bands))
    requires forall i :: 0 <= i < |bands| ==> bands[i].x < band.x
    requires band.Top().Minus(r[2]).Less(r[2].Minus(r[0])) || band.Bottom().Minus(r[3]).Greater(r[3].Minus(r[1]))
    ensures !Fits(bands + [band])
  {
    hide HullOk, LineFits;
    HullFacts(r, lower, upper, Bottoms(bands), Tops(bands));
    assert lower[0] in Bottoms(bands) && lower[|lower| - 1] in Bottoms(bands);
    assert upper[0] in Tops(bands) && upper[|upper| - 1] in Tops(bands);
    forall m: real, c: real ensures !LineFits(m, c, bands + [band]) {
      LineMisses(m, c, r, bands, band);
    }
  }

  lemma LineMeets(m: real, c: real, bands: seq<Band>, i: int)
    requires LineFits(m, c, bands) && 0 <= i < |bands|
    ensures LineOver(m, c, bands[i].Bottom()) && LineUnder(m, c, bands[i].Top())
  {
  }

  lemma LineMisses(m: real, c: real, r: seq<Point>, bands: seq<Band>, band: Band)
    requires |r| == 4 && r[0].x < r[2].x && r[1].x < r[3].x
    requires r[0] in Tops(bands) && r[3] in Tops(bands) && r[1] in Bottoms(bands) && r[2] in Bottoms(bands)
    requires forall i :: 0 <= i < |bands| ==> bands[i].x < band.x
    requires band.Top().Minus(r[2]).Less(r[2].Minus(r[0])) || band.Bottom().Minus(r[3]).Greater(r[3].Minus(r[1]))
    ensures !LineFits(m, c, bands + [band])
  {
    hide LineFits, LineOver, LineUnder;
    if LineFits(m, c, bands + [band]) {
      forall i | 0 <= i < |bands|
        ensures LineUnder(m, c, Tops(bands)[i]) && LineOver(m, c, Bottoms(bands)[i])
      {
        LineMeets(m, c, bands + [band], i);
      }
      LineMeets(m, c, bands + [band], |bands|);
      if band.Top().Minus(r[2]).Less(r[2].Minus(r[0])) {
        NoLineBelow(m, c, r[0], r[2], band.Top());
      } else {
        NoLineAbove(m, c, r[1], r[3], band.Bottom());
      }
    }
  }

  // ------------------------------------------------------------------ the slope range

  ghost predicate SlopeFits(m: real, bands: seq<Band>) {
    exists c: real :: LineFits(m, c, bands)
  }

  /** A mixture of two lines that fit is a line that fits. */
  lemma MixFits(k: real, m1: real, c1: real, m2: real, c2: real, bands: seq<Band>)
    requires 0.0 <= k <= 1.0 && LineFits(m1, c1, bands) && LineFits(m2, c2, bands)
    ensures LineFits(Mix(k, m1, m2), Mix(k, c1, c2), bands)
  {
    hide Mix;
    forall i | 0 <= i < |bands|
      ensures bands[i].Has(Height(Mix(k, m1, m2), Mix(k, c1, c2), bands[i].x))
    {
      MixAt(k, m1, c1, m2, c2, bands[i].x as real, bands[i].lo as real, bands[i].hi as real);
    }
  }

  function Mix(k: real, a: real, b: real): real {
    k * a + (1.0 - k) * b
  }

  lemma MixAt(k: real, m1: real, c1: real, m2: real, c2: real, x: real, lo: real, hi: real)
    requires 0.0 <= k <= 1.0 && lo <= m1 * x + c1 <= hi && lo <= m2 * x + c2 <= hi
    ensures lo <= Mix(k, m1, m2) * x + Mix(k, c1, c2) <= hi
  {
    var v1, v2 := m1 * x + c1, m2 * x + c2;
    assert (k * m1 + (1.0 - k) * m2) * x + (k * c1 + (1.0 - k) * c2) == k * v1 + (1.0 - k) * v2;
    MixBetween(k, 1.0 - k, v1, v2, lo, hi);
  }

  lemma MixBetween(k: real, l: real, a: real, b: real, lo: real, hi: real)
    requires k >= 0.0 && l >= 0.0 && k + l == 1.0 && lo <= a <= hi && lo <= b <= hi
    ensures lo <= k * a + l * b <= hi
  {
    var e := k * (a - b);
    assert k * a + l * b == b + e by {
      assert l == 1.0 - k;
    }
    if a <= b {
      ShrinkBy(k, b - a);
      assert e == -(k * (b - a));
      assert a <= b + e <= b;
    } else {
      ShrinkBy(k, a - b);
      assert b <= b + e <= a;
    }
  }

  lemma ShrinkBy(k: real, d: real)
    requires 0.0 <= k <= 1.0 && d >= 0.0
    ensures 0.0 <= k * d <= d
  {
    RealScale(d, 0.0, k);
    RealScale(d, k, 1.0);
  }

  lemma RealScale(k: real, a: real, b: real)
    requires k >= 0.0 && a <= b
    ensures k * a <= k * b
  {
  }

  lemma SlopeAboveRatio(s: Slope, m: real)
    requires s.dx > 0
    ensures RealSlope(s) <= m <==> s.dy as real <= m * (s.dx as real)
    ensures m <= RealSlope(s) <==> m * (s.dx as real) <= s.dy as real
  {
    var d := s.dx as real;
    assert d * RealSlope(s) == s.dy as real;
    RealCancel(d, RealSlope(s), m);
    RealCancel(d, m, RealSlope(s));
  }

  /** The slopes of the lines that fit are exactly those between the two extreme lines. */
  lemma SlopeRangeExact(r: seq<Point>, lower: seq<Point>, upper: seq<Point>, bands: seq<Band>, m: real)
    requires HullOk(r, lower, upper, Bottoms(bands), Tops(bands))
    ensures |r| == 4 && r[0].x < r[2].x && r[1].x < r[3].x
    ensures SlopeFits(m, bands) <==> RealSlope(r[2].Minus(r[0])) <= m <= RealSlope(r[3].Minus(r[1]))
  {
    hide HullOk, LineFits, RealSlope;
    HullFacts(r, lower, upper, Bottoms(bands), Tops(bands));
    assert upper[0] in Tops(bands) && lower[|lower| - 1] in Bottoms(bands);
    assert lower[0] in Bottoms(bands) && upper[|upper| - 1] in Tops(bands);
    var m1, m2 := RealSlope(r[2].Minus(r[0])), RealSlope(r[3].Minus(r[1]));
    var c1, c2 := ExtremeLinesFit(r, lower, upper, bands);
    if SlopeFits(m, bands) {
      var c :| LineFits(m, c, bands);
      SlopeWithin(m, c, r, bands);
    }
    if m1 <= m <= m2 {
      MixedLine(m, m1, c1, m2, c2, bands);
    }
  }

  /** Both extreme lines meet every accepted band. */
  lemma ExtremeLinesFit(r: seq<Point>, lower: seq<Point>, upper: seq<Point>, bands: seq<Band>) returns (c1: real, c2: real)
    requires HullOk(r, lower, upper, Bottoms(bands), Tops(bands))
    ensures LineFits(RealSlope(r[2].Minus(r[0])), c1, bands)
    ensures LineFits(RealSlope(r[3].Minus(r[1])), c2, bands)
  {
    hide SideOk, Offset, AtMost;
    var flat, steep := r[2].Minus(r[0]), r[3].Minus(r[1]);
    ExtremeLineFits(flat, r[0], bands);
    ExtremeLineFits(steep, r[1], bands);
    c1 := r[0].y as real - RealSlope(flat) * (r[0].x as real);
    c2 := r[1].y as real - RealSlope(steep) * (r[1].x as real);
  }

  lemma SlopeWithin(m: real, c: real, r: seq<Point>, bands: seq<Band>)
    requires |r| == 4 && r[0].x < r[2].x && r[1].x < r[3].x
    requires r[0] in Tops(bands) && r[3] in Tops(bands) && r[1] in Bottoms(bands) && r[2] in Bottoms(bands)
    requires LineFits(m, c, bands)
    ensures RealSlope(r[2].Minus(r[0])) <= m <= RealSlope(r[3].Minus(r[1]))
  {
    hide LineFits, RealSlope, LineOver, LineUnder;
    forall i | 0 <= i < |bands|
      ensures LineUnder(m, c, Tops(bands)[i]) && LineOver(m, c, Bottoms(bands)[i])
    {
      LineMeets(m, c, bands, i);
    }
    SlopeAtLeast(m, c, r[0], r[2]);
    SlopeAtMost(m, c, r[1], r[3]);
    SlopeAboveRatio(r[2].Minus(r[0]), m);
    SlopeAboveRatio(r[3].Minus(r[1]), m);
  }

  lemma Ratio(d: real, n: real)
    requires d > 0.0 && 0.0 <= n <= d
    ensures 0.0 <= n / d <= 1.0
  {
    var k := n / d;
    assert d * k == n;
    RealCancel(d, 0.0, k);
    RealCancel(d, k, 1.0);
  }

  lemma MixedLine(m: real, m1: real, c1: real, m2: real, c2: real, bands: seq<Band>)
    requires m1 <= m <= m2 && LineFits(m1, c1, bands) && LineFits(m2, c2, bands)
    ensures SlopeFits(m, bands)
  {
    hide LineFits;
    if m1 == m2 {
      assert LineFits(m, c1, bands);
    } else {
      var k := (m2 - m) / (m2 - m1);
      assert (m2 - m1) * k == m2 - m;
      Ratio(m2 - m1, m2 - m);
      MixFits(k, m1, c1, m2, c2, bands);
      assert Mix(k, m1, m2) == m;
    }
  }

  /** Bands are all of positive height, or all points when the tolerance is zero. */
  ghost predicate SameKind(bands: seq<Band>, epsilon: int) {
    forall i :: 0 <= i < |bands| ==>
      if epsilon == 0 then bands[i].lo == bands[i].hi else bands[i].lo < bands[i].hi
  }

  lemma AppendBand(bands: seq<Band>, band: Band, epsilon: int)
    requires Ascending(bands) && SameKind(bands, epsilon) && SameKind([band], epsilon)
    requires |bands| > 0 ==> bands[|bands| - 1].x < band.x
    ensures forall i :: 0 <= i < |bands| ==> bands[i].x < band.x
    ensures Ascending(bands + [band]) && SameKind(bands + [band], epsilon)
  {
    assert SameKind([band], epsilon) && [band][0] == band;
  }

  lemma AroundKind(x: int, y: int, epsilon: int, minY: int, maxY: int)
    requires epsilon >= 0 && minY <= y <= maxY && minY < maxY
    ensures var band := BandAround(x, y, epsilon, minY, maxY);
            SameKind([band], epsilon) && band.lo <= band.hi
  {
  }

  lemma ResumeTail(v: seq<Point>, start: nat, end: nat, p: Point)
    requires start <= end <= |v|
    ensures (v[..end] + [p])[start..] == v[start..][..end - start] + [p]
  {
  }

  /** The corners of a finished segment; they span every line that fits its points. */
  datatype CanonicalSegment = CanonicalSegment(corners: seq<Point>, first: int) {
    predicate OnePoint()
      requires |corners| == 4
    {
      corners[0] == corners[2] && corners[1] == corners[3]
    }

    /** The least and greatest slope. */
    function SlopeRange(): (real, real)
      requires |corners| == 4
      requires !OnePoint() ==> corners[0].x < corners[2].x && corners[1].x < corners[3].x
    {
      if OnePoint() then (0.0, 1.0)
      else (RealSlope(corners[2].Minus(corners[0])), RealSlope(corners[3].Minus(corners[1])))
    }
  }

  class OptimalPiecewiseLinearModel {
    const epsilon: int
    const minY: int
    const maxY: int
    var lower: seq<Point>
    var upper: seq<Point>
    var firstX: int
    var lastX: int
    var lowerStart: nat
    var upperStart: nat
    var pointsInHull: nat
    const rectangle: array<Point>

    /** The points accepted since the last restart and their tolerance intervals. */
    ghost var points: seq<Point>
    ghost var bands: seq<Band>

    ghost predicate Settings() {
      epsilon >= 0 && minY < maxY && rectangle.Length == 4
    }

    ghost predicate BandsOk(bs: seq<Band>) {
      Ascending(bs) && SameKind(bs, epsilon)
    }

    /** With one point the corners are its top and bottom. */
    ghost predicate StartOk()
      requires rectangle.Length == 4 && |bands| == 1
      reads this, rectangle
    {
      && rectangle[0] == bands[0].Top() && rectangle[1] == bands[0].Bottom()
      && upper == [rectangle[0]] && lower == [rectangle[1]]
      && upperStart == lowerStart == 0
      && firstX == bands[0].x
    }

    ghost predicate HullsOk()
      requires rectangle.Length == 4
      reads this, rectangle
    {
      && lowerStart < |lower| && upperStart < |upper|
      && HullOk(rectangle[..], lower[lowerStart..], upper[upperStart..], Bottoms(bands), Tops(bands))
      && (epsilon == 0 ==> rectangle[0] == rectangle[1] && rectangle[2] == rectangle[3])
    }

    ghost predicate Valid()
      reads this, rectangle
    {
      Shape() && BandsOf(bands, points, epsilon, minY, maxY)
    }

    /** What corners and hulls say about the bands, whatever points these come from. */
    ghost predicate Shape()
      reads this, rectangle
    {
      && Settings()
      && |bands| == pointsInHull
      && BandsOk(bands)
      && (pointsInHull > 0 ==> firstX == bands[0].x && lastX == bands[|bands| - 1].x)
      && (pointsInHull == 1 ==> StartOk())
      && (pointsInHull >= 2 ==> HullsOk())
    }

    constructor (epsilon: int, minY: int, maxY: int)
      requires epsilon >= 0 && minY < maxY
      ensures Valid() && fresh(rectangle)
      ensures points == [] && bands == [] && pointsInHull == 0
      ensures this.epsilon == epsilon && this.minY == minY && this.maxY == maxY
    {
      this.epsilon, this.minY, this.maxY := epsilon, minY, maxY;
      lower, upper := [], [];
      firstX, lastX := 0, 0;
      lowerStart, upperStart, pointsInHull := 0, 0, 0;
      rectangle := new Point[4](_ => Point(0, 0));
      points, bands := [], [];
    }

    method GetSegment() returns (segment: CanonicalSegment)
      requires Valid()
      ensures |segment.corners| == 4 && segment.first == firstX
      ensures |points| >= 1 ==> segment.first == points[0].x
      ensures |points| == 1 ==> segment.OnePoint() && segment.SlopeRange() == (0.0, 1.0)
      ensures |points| >= 2 ==> !segment.OnePoint()
      ensures |points| >= 2 ==> segment.corners[0].x < segment.corners[2].x && segment.corners[1].x < segment.corners[3].x
      ensures |points| >= 2 ==> forall m: real ::
                SlopeNear(m, points, epsilon, minY, maxY) <==> segment.SlopeRange().0 <= m <= segment.SlopeRange().1
    {
      assert bands != [] ==> bands[0].x == points[0].x;
      if pointsInHull == 1 {
        return CanonicalSegment([rectangle[0], rectangle[1], rectangle[0], rectangle[1]], firstX);
      }
      segment := CanonicalSegment(rectangle[..], firstX);
      if |bands| >= 2 {
        hide HullOk, SlopeFits, SlopeNear, BandsOf;
        FitsIsNear(bands, points, epsilon, minY, maxY);
        forall m: real
          ensures !segment.OnePoint() && rectangle[0].x < rectangle[2].x && rectangle[1].x < rectangle[3].x
          ensures SlopeFits(m, bands) <==> segment.SlopeRange().0 <= m <= segment.SlopeRange().1
        {
          SlopeRangeExact(rectangle[..], lower[lowerStart..], upper[upperStart..], bands, m);
        }
      }
    }

    method Reset()
      requires Valid()
      modifies this
      ensures Valid() && points == [] && bands == [] && pointsInHull == 0
    {
      pointsInHull := 0;
      lower, upper := [], [];
      points, bands := [], [];
    }

    method AddPoint(x: int, y: int) returns (r: AddResult)
      requires Valid()
      requires minY <= y <= maxY
      modifies this, rectangle
      ensures Valid()
      ensures r == NotIncreasing <==> old(pointsInHull) > 0 && x <= old(lastX)
      ensures r == NotIncreasing ==> unchanged(this) && unchanged(rectangle)
      ensures r != NotIncreasing ==> lastX == x && pointsInHull == |points|
      ensures r == Accepted ==> points == old(points) + [Point(x, y)]
      ensures r == Accepted ==> bands == old(bands) + [BandAround(x, y, epsilon, minY, maxY)] && Fits(bands)
      ensures r == Accepted ==> SomeLineNear(points, epsilon, minY, maxY)
      ensures r == Rejected ==> points == [] && bands == []
      ensures r == Rejected ==> !Fits(old(bands) + [BandAround(x, y, epsilon, minY, maxY)])
      ensures r == Rejected ==> !SomeLineNear(old(points) + [Point(x, y)], epsilon, minY, maxY)
    {
      hide Fits, SomeLineNear, SlopeNear, SlopeFits, HullOk, Offset, Ascending, SameKind;
      if pointsInHull > 0 && x <= lastX {
        return NotIncreasing;
      }

      lastX := x;
      var band := BandAround(x, y, epsilon, minY, maxY);
      ghost var points', bands' := points + [Point(x, y)], bands + [band];
      FitsIsNear(bands', points', epsilon, minY, maxY);
      hide BandAround, BandsOf;
      assert SameKind([band], epsilon) by { AroundKind(x, y, epsilon, minY, maxY); }

      if pointsInHull == 0 {
        StartHull(band);
        assert bands == bands';
        OneBand(bands) by { AroundKind(x, y, epsilon, minY, maxY); }
        points := points';
        return Accepted;
      }

      if pointsInHull == 1 {
        OpenHull(band);
        HullFits(rectangle[..], lower[lowerStart..], upper[upperStart..], bands);
        points := points';
        return Accepted;
      }

      r := Extend(band);
      if r == Accepted {
        points := points';
      }
    }

    /** The third and every further point. */
    method Extend(band: Band) returns (r: AddResult)
      requires Settings() && |bands| == pointsInHull >= 2 && BandsOk(bands) && HullsOk()
      requires firstX == bands[0].x
      requires bands[|bands| - 1].x < band.x && lastX == band.x && SameKind([band], epsilon)
      modifies this, rectangle
      ensures r == Accepted || r == Rejected
      ensures r == Accepted ==> Shape() && bands == old(bands) + [band] && Fits(bands)
      ensures r == Rejected ==> Valid() && points == [] && bands == [] && !Fits(old(bands) + [band])
      ensures lastX == band.x
    {
      hide Fits, HullOk, Offset, Ascending, SameKind, BandsOf;
      var slope1 := rectangle[2].Minus(rectangle[0]);
      var slope2 := rectangle[3].Minus(rectangle[1]);
      var outsideLine1 := band.Top().Minus(rectangle[2]).Less(slope1);
      var outsideLine2 := band.Bottom().Minus(rectangle[3]).Greater(slope2);
      AppendBand(bands, band, epsilon);

      if outsideLine1 || outsideLine2 {
        OutsideMisfit(rectangle[..], lower[lowerStart..], upper[upperStart..], bands, band);
        Restart();
        return Rejected;
      }

      InsideBoth(rectangle[..], band.Top(), band.Bottom());
      GrowHull(band);
      HullFits(rectangle[..], lower[lowerStart..], upper[upperStart..], bands);
      return Accepted;
    }

    /** A rejected point leaves the old hulls behind but forgets how many points they cover. */
    method Restart()
      requires Settings() && |bands| >= 1
      modifies this`pointsInHull, this`points, this`bands
      ensures Valid() && points == [] && bands == []
    {
      pointsInHull := 0;
      points, bands := [], [];
    }

    /** The first point of a segment. */
    method StartHull(band: Band)
      requires Settings() && lastX == band.x && pointsInHull == 0 && SameKind([band], epsilon)
      modifies this, rectangle
      ensures Shape() && bands == [band]
    {
      firstX := band.x;
      rectangle[0] := band.Top();
      rectangle[1] := band.Bottom();
      upper := [band.Top()];
      lower := [band.Bottom()];
      upperStart, lowerStart := 0, 0;
      pointsInHull := pointsInHull + 1;
      bands := [band];
    }

    /** The second point: every pair of a top and a bottom is a corner. */
    method OpenHull(band: Band)
      requires Settings() && |bands| == pointsInHull == 1 && BandsOk(bands) && StartOk()
      requires bands[0].x < band.x && lastX == band.x && SameKind([band], epsilon)
      modifies this, rectangle
      ensures Shape() && bands == old(bands) + [band]
    {
      hide HullOk;
      AppendBand(bands, band, epsilon);
      rectangle[2] := band.Bottom();
      rectangle[3] := band.Top();
      upper := upper + [band.Top()];
      lower := lower + [band.Bottom()];
      pointsInHull := pointsInHull + 1;
      bands := bands + [band];
      assert lower == [rectangle[1], rectangle[2]] && upper == [rectangle[0], rectangle[3]];
      assert lower[0..] == lower && upper[0..] == upper;
      TwoBands(rectangle[..], bands);
    }

    /** Every further point that both extreme lines can still reach. */
    method GrowHull(band: Band)
      requires Settings() && |bands| == pointsInHull >= 2 && BandsOk(bands) && HullsOk()
      requires firstX == bands[0].x
      requires bands[|bands| - 1].x < band.x && lastX == band.x && SameKind([band], epsilon)
      requires ClearsFlattest(rectangle[..], band.Top()) && ClearsSteepest(rectangle[..], band.Bottom())
      modifies this, rectangle
      ensures Shape() && bands == old(bands) + [band]
    {
      hide HullOk, ClearsFlattest, ClearsSteepest;
      AppendBand(bands, band, epsilon);
      assert SameKind([band], epsilon) && [band][0] == band;
      hide SameKind, Ascending;
      NarrowBy(band);
      pointsInHull := pointsInHull + 1;
      bands := bands + [band];
    }

    /** Updates the extreme lines and the hulls for a band that both lines can still reach. */
    method NarrowBy(band: Band)
      requires rectangle.Length == 4 && lowerStart < |lower| && upperStart < |upper|
      requires HullOk(rectangle[..], lower[lowerStart..], upper[upperStart..], Bottoms(bands), Tops(bands))
      requires forall i :: 0 <= i < |bands| ==> bands[i].x < band.x
      requires ClearsFlattest(rectangle[..], band.Top()) && ClearsSteepest(rectangle[..], band.Bottom())
      requires band.lo < band.hi ||
               (band.lo == band.hi && rectangle[0] == rectangle[1] && rectangle[2] == rectangle[3])
      modifies this`lower, this`upper, this`lowerStart, this`upperStart, rectangle
      ensures lowerStart < |lower| && upperStart < |upper|
      ensures HullOk(rectangle[..], lower[lowerStart..], upper[upperStart..], Bottoms(bands + [band]), Tops(bands + [band]))
      ensures band.lo == band.hi ==> rectangle[..] == old(rectangle[..])
    {
      hide HullOk, Offset;
      var p1, p2 := band.Top(), band.Bottom();
      var slope1 := rectangle[2].Minus(rectangle[0]);
      var slope2 := rectangle[3].Minus(rectangle[1]);
      ghost var bots, tops := Bottoms(bands), Tops(bands);
      CompareOffset(slope2, rectangle[1], p1);
      if p1.Minus(rectangle[1]).Less(slope2) {
        LowerSteepest(p1, bots, tops);
        BottomUnderTop(rectangle[..], p1, p2);
      } else {
        IgnoreTop(rectangle[..], lower[lowerStart..], upper[upperStart..], bots, tops, p1);
      }
      tops := tops + [p1];

      CompareOffset(slope1, rectangle[0], p2);
      if p2.Minus(rectangle[0]).Greater(slope1) {
        RaiseFlattest(p2, bots, tops);
      } else {
        IgnoreBottom(rectangle[..], lower[lowerStart..], upper[upperStart..], bots, tops, p2);
      }
      assert Bottoms(bands + [band]) == bots + [p2] && Tops(bands + [band]) == tops;
    }

    /** The update for a top under the steepest line. */
    method LowerSteepest(p1: Point, ghost bots: seq<Point>, ghost tops: seq<Point>)
      requires rectangle.Length == 4 && lowerStart < |lower| && upperStart < |upper|
      requires HullOk(rectangle[..], lower[lowerStart..], upper[upperStart..], bots, tops)
      requires forall i :: 0 <= i < |tops| ==> tops[i].x < p1.x
      requires forall i :: 0 <= i < |bots| ==> bots[i].x < p1.x
      requires ClearsFlattest(rectangle[..], p1) && UnderSteepest(rectangle[..], p1)
      modifies this`lower, this`upper, this`lowerStart, this`upperStart, rectangle
      ensures lowerStart < |lower| && upperStart < |upper|
      ensures HullOk(rectangle[..], lower[lowerStart..], upper[upperStart..], bots, tops + [p1])
      ensures rectangle[0] == old(rectangle[0]) && rectangle[2] == old(rectangle[2])
      ensures rectangle[3] == p1 && rectangle[1].x < p1.x
    {
      hide HullOk, Concave, XIncreasing, Offset, Touches, Trims;
      ghost var r, lo, up := rectangle[..], lower[lowerStart..], upper[upperStart..];
      HullFacts(r, lo, up, bots, tops);
      var minI := FindLowerTouch(lower, lowerStart, p1);
      var end := TrimUpper(upper, upperStart, p1);
      ghost var r', lo', up' := [r[0], lower[minI], r[2], p1], lo[minI - lowerStart..], up[..end - upperStart] + [p1];
      AbsorbTop(r, lo, up, bots, tops, p1, minI - lowerStart, end - upperStart);
      ResumeTail(upper, upperStart, end, p1);
      rectangle[1] := lower[minI];
      rectangle[3] := p1;
      lowerStart := minI;
      upper := upper[..end] + [p1];
      assert rectangle[..] == r';
      assert lower[lowerStart..] == lo' && upper[upperStart..] == up';
    }

    /** The update for a bottom over the flattest line. */
    method RaiseFlattest(p2: Point, ghost bots: seq<Point>, ghost tops: seq<Point>)
      requires rectangle.Length == 4 && lowerStart < |lower| && upperStart < |upper|
      requires HullOk(rectangle[..], lower[lowerStart..], upper[upperStart..], bots, tops)
      requires forall i :: 0 <= i < |bots| ==> bots[i].x < p2.x
      requires forall i :: 0 <= i < |tops| ==> Behind(tops[i].Flip(), p2.Flip())
      requires ClearsSteepest(rectangle[..], p2) && OverFlattest(rectangle[..], p2)
      modifies this`lower, this`upper, this`lowerStart, this`upperStart, rectangle
      ensures lowerStart < |lower| && upperStart < |upper|
      ensures HullOk(rectangle[..], lower[lowerStart..], upper[upperStart..], bots + [p2], tops)
    {
      hide HullOk, Concave, XIncreasing, Offset, Touches, Trims;
      ghost var r, lo, up := rectangle[..], lower[lowerStart..], upper[upperStart..];
      HullFacts(r, lo, up, bots, tops);
      var maxI := FindUpperTouch(upper, upperStart, p2);
      var end := TrimLower(lower, lowerStart, p2);
      ghost var r', lo', up' := [upper[maxI], r[1], p2, r[3]], lo[..end - lowerStart] + [p2], up[maxI - upperStart..];
      AbsorbBottom(r, lo, up, bots, tops, p2, maxI - upperStart, end - lowerStart);
      ResumeTail(lower, lowerStart, end, p2);
      rectangle[0] := upper[maxI];
      rectangle[2] := p2;
      upperStart := maxI;
      lower := lower[..end] + [p2];
      assert rectangle[..] == r';
      assert lower[lowerStart..] == lo' && upper[upperStart..] == up';
    }
  }
}
