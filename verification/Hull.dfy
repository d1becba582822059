/** The invariant of the segmenter's two hulls and what one new point does to it. The
    lemmas treat the update that lowers the steepest line; the other half of the
    algorithm is the same update seen in a mirror. */
module Hull {
  import opened Geometry

  /** A closed tolerance interval [lo, hi] at abscissa x. */
  datatype Band = Band(x: int, lo: int, hi: int) {
    function Top(): Point {
      Point(x, hi)
    }

    function Bottom(): Point {
      Point(x, lo)
    }

    /** The value is between the bottom and the top. */
    ghost predicate Has(v: real) {
      lo as real <= v <= hi as real
    }
  }

  /** One hull: a concave chain over some of the points ps that, for every slope from
      least to most, still contains the highest of all of them. */
  ghost predicate SideOk(c: seq<Point>, ps: seq<Point>, least: Slope, most: Slope) {
    && |c| > 0
    && XIncreasing(c)
    && Concave(c)
    && SubsetOf(c, ps)
    && Supports(c, ps, least, most)
  }

  ghost predicate NoneAbove(ps: seq<Point>, s: Slope, o: Point) {
    forall i :: 0 <= i < |ps| ==> Offset(s, ps[i]) <= Offset(s, o)
  }

  ghost predicate NoneBelow(ps: seq<Point>, s: Slope, o: Point) {
    forall i :: 0 <= i < |ps| ==> Offset(s, o) <= Offset(s, ps[i])
  }

  /** The four corners r, the active hulls, and the bounds absorbed so far: the flattest
      line runs through r[0] and r[2], the steepest through r[1] and r[3]; both pass
      under every top and over every bottom. */
  ghost predicate HullOk(r: seq<Point>, lower: seq<Point>, upper: seq<Point>, bots: seq<Point>, tops: seq<Point>) {
    && |r| == 4
    && |lower| > 0 && |upper| > 0
    && lower[0] == r[1] && lower[|lower| - 1] == r[2]
    && upper[0] == r[0] && upper[|upper| - 1] == r[3]
    && r[0].x < r[2].x && r[1].x < r[3].x
    && var flat, steep := r[2].Minus(r[0]), r[3].Minus(r[1]);
    && AtMost(flat, steep)
    && NoneAbove(bots, flat, r[0]) && NoneAbove(bots, steep, r[1])
    && NoneBelow(tops, flat, r[0]) && NoneBelow(tops, steep, r[1])
    && SideOk(lower, bots, flat, steep)
    && SideOk(FlipAll(upper), FlipAll(tops), steep.Flip(), flat.Flip())
  }

  /** lower[k] is where the line from p touches the lower hull. */
  ghost predicate Touches(lower: seq<Point>, p: Point, k: int) {
    && 0 <= k < |lower|
    && lower[k].x < p.x
    && var t := p.Minus(lower[k]);
    && forall j :: 0 <= j < |lower| ==> Offset(t, lower[j]) <= Offset(t, lower[k])
  }

  /** Keeping the first end points and appending p leaves a concave chain that covers
      everything the old chain covered. */
  ghost predicate Trims(c: seq<Point>, p: Point, end: int) {
    && 1 <= end <= |c|
    && Concave(c[..end] + [p])
    && Dominates(c[..end] + [p], c)
  }

  // ------------------------------------------------------------------ the new line

  lemma NotSteeper(steep: Slope, t: Slope, a: Point, p: Point)
    requires steep.dx > 0 && t.dx > 0 && a.x < p.x
    requires Offset(steep, p) < Offset(steep, a)
    requires Offset(t, a) <= Offset(t, p)
    ensures AtMost(t, steep)
  {
    if !AtMost(t, steep) {
      Tilt(steep, t, a, p);
      assert false;
    }
  }

  lemma NotFlatter(flat: Slope, q: Point, p: Point)
    requires Offset(flat, q) <= Offset(flat, p)
    ensures AtMost(flat, p.Minus(q))
    ensures Offset(p.Minus(q), p) == Offset(p.Minus(q), q)
  {
    var t := p.Minus(q);
    assert Offset(flat, p) - Offset(flat, q) == flat.dx * t.dy - flat.dy * t.dx;
  }

  lemma TouchSlope(r: seq<Point>, lower: seq<Point>, upper: seq<Point>, bots: seq<Point>, tops: seq<Point>, p: Point, k: int)
    requires HullOk(r, lower, upper, bots, tops)
    requires r[1].x < p.x && Touches(lower, p, k)
    requires Offset(r[2].Minus(r[0]), r[0]) <= Offset(r[2].Minus(r[0]), p)
    requires Offset(r[3].Minus(r[1]), p) < Offset(r[3].Minus(r[1]), r[1])
    ensures AtMost(r[2].Minus(r[0]), p.Minus(lower[k]))
    ensures AtMost(p.Minus(lower[k]), r[3].Minus(r[1]))
  {
    hide Offset, AtMost, Cross, Supports, Concave;
    var flat, steep, t := r[2].Minus(r[0]), r[3].Minus(r[1]), p.Minus(lower[k]);
    assert lower[k] in bots;
    assert Offset(flat, lower[k]) <= Offset(flat, r[0]);
    NotFlatter(flat, lower[k], p);
    assert Offset(t, lower[0]) <= Offset(t, lower[k]);
    NotSteeper(steep, t, r[1], p);
  }

  lemma TouchLineOverBottoms(lower: seq<Point>, bots: seq<Point>, least: Slope, most: Slope, p: Point, k: int)
    requires SideOk(lower, bots, least, most)
    requires Touches(lower, p, k)
    requires AtMost(least, p.Minus(lower[k])) && AtMost(p.Minus(lower[k]), most)
    ensures NoneAbove(bots, p.Minus(lower[k]), lower[k])
  {
    var t := p.Minus(lower[k]);
    forall i | 0 <= i < |bots| ensures Offset(t, bots[i]) <= Offset(t, lower[k]) {
      assert Covered(t, bots[i], lower);
    }
  }

  lemma TouchLineUnderTops(r: seq<Point>, lower: seq<Point>, upper: seq<Point>, bots: seq<Point>, tops: seq<Point>, p: Point, k: int)
    requires HullOk(r, lower, upper, bots, tops)
    requires Touches(lower, p, k)
    requires AtMost(r[2].Minus(r[0]), p.Minus(lower[k]))
    requires AtMost(p.Minus(lower[k]), r[3].Minus(r[1]))
    ensures NoneBelow(tops, p.Minus(lower[k]), lower[k])
  {
    var flat, steep, t := r[2].Minus(r[0]), r[3].Minus(r[1]), p.Minus(lower[k]);
    var q := lower[k];
    assert q in bots;
    forall i | 0 <= i < |tops| ensures Offset(t, q) <= Offset(t, tops[i]) {
      if tops[i].x <= q.x {
        assert Offset(flat, q) <= Offset(flat, r[0]) <= Offset(flat, tops[i]);
        Tilt(flat, t, tops[i], q);
      } else {
        assert Offset(steep, q) <= Offset(steep, r[1]) <= Offset(steep, tops[i]);
        Tilt(t, steep, q, tops[i]);
      }
    }
  }

  // ------------------------------------------------------------------ the two hulls

  lemma NarrowSide(c: seq<Point>, ps: seq<Point>, least: Slope, most: Slope, least': Slope)
    requires least.dx > 0 && least'.dx > 0
    requires SideOk(c, ps, least, most)
    requires AtMost(least, least')
    ensures SideOk(c, ps, least', most)
  {
    forall s: Slope, i | s.dx > 0 && AtMost(least', s) && AtMost(s, most) && 0 <= i < |ps| ensures Covered(s, ps[i], c) {
      AtMostTransitive(least, least', s);
    }
  }

  lemma AtMostTransitive(a: Slope, b: Slope, c: Slope)
    requires a.dx > 0 && b.dx > 0 && c.dx > 0
    requires AtMost(a, b) && AtMost(b, c)
    ensures AtMost(a, c)
  {
    assert a.dy * b.dx * c.dx <= b.dy * a.dx * c.dx by { Scale(c.dx, a.dy * b.dx, b.dy * a.dx); }
    assert b.dy * c.dx * a.dx <= c.dy * b.dx * a.dx by { Scale(a.dx, b.dy * c.dx, c.dy * b.dx); }
    assert b.dx * (a.dy * c.dx) <= b.dx * (c.dy * a.dx);
    if a.dy * c.dx > c.dy * a.dx {
      MulSign(b.dx, a.dy * c.dx - c.dy * a.dx);
      assert false;
    }
  }

  lemma Scale(k: int, a: int, b: int)
    requires k >= 0 && a <= b
    ensures a * k <= b * k
  {
  }

  /** Points of the lower hull left of the touching point are never needed again. */
  lemma TailSupports(lower: seq<Point>, bots: seq<Point>, least: Slope, most: Slope, p: Point, k: int)
    requires least.dx > 0 && most.dx > 0
    requires XIncreasing(lower) && Supports(lower, bots, least, most)
    requires Touches(lower, p, k)
    requires AtMost(p.Minus(lower[k]), most)
    ensures Supports(lower[k..], bots, least, p.Minus(lower[k]))
  {
    hide Offset, AtMost;
    var t, c := p.Minus(lower[k]), lower[k..];
    forall s: Slope, i | s.dx > 0 && AtMost(least, s) && AtMost(s, t) && 0 <= i < |bots| ensures Covered(s, bots[i], c) {
      AtMostTransitive(s, t, most);
      assert Covered(s, bots[i], lower);
      var j :| 0 <= j < |lower| && Offset(s, bots[i]) <= Offset(s, lower[j]);
      if j < k {
        Tilt(s, t, lower[j], lower[k]);
        assert Offset(s, bots[i]) <= Offset(s, c[0]);
      } else {
        assert Offset(s, bots[i]) <= Offset(s, c[j - k]);
      }
    }
  }

  lemma AdvanceStart(lower: seq<Point>, bots: seq<Point>, least: Slope, most: Slope, p: Point, k: int)
    requires least.dx > 0 && most.dx > 0
    requires SideOk(lower, bots, least, most)
    requires Touches(lower, p, k)
    requires AtMost(p.Minus(lower[k]), most)
    ensures SideOk(lower[k..], bots, least, p.Minus(lower[k]))
  {
    hide Offset, AtMost, Cross, Supports;
    TailSupports(lower, bots, least, most, p, k);
    var c := lower[k..];
    forall j | 1 <= j < |c| - 1 ensures Turn(c, j) < 0 {
      assert Turn(lower, j + k) < 0;
    }
    forall j | 0 <= j < |c| ensures c[j] in bots {
      assert lower[j + k] in bots;
    }
  }

  /** A bottom under the flattest line needs no place in the hull: its last point, which
      lies on that line, covers it. */
  lemma SkipPoint(c: seq<Point>, ps: seq<Point>, least: Slope, most: Slope, p: Point)
    requires least.dx > 0
    requires SideOk(c, ps, least, most)
    requires c[|c| - 1].x <= p.x
    requires Offset(least, p) <= Offset(least, c[|c| - 1])
    ensures SideOk(c, ps + [p], least, most)
  {
    var ps' := ps + [p];
    forall s: Slope, i | s.dx > 0 && AtMost(least, s) && AtMost(s, most) && 0 <= i < |ps'| ensures Covered(s, ps'[i], c) {
      if i < |ps| {
        assert Covered(s, ps[i], c);
      } else {
        Tilt(least, s, c[|c| - 1], p);
      }
    }
    forall i | 0 <= i < |c| ensures c[i] in ps' {
      assert c[i] in ps;
    }
  }

  /** What was covered before the trim still is. */
  lemma StillOver(c: seq<Point>, p: Point, end: int, s: Slope, q: Point)
    requires Trims(c, p, end) && s.dx > 0 && Covered(s, q, c)
    ensures Covered(s, q, c[..end] + [p])
  {
    var j :| 0 <= j < |c| && Offset(s, q) <= Offset(s, c[j]);
    assert Covered(s, c[j], c[..end] + [p]);
  }

  lemma AppendPoint(c: seq<Point>, ps: seq<Point>, least: Slope, most: Slope, p: Point, end: int)
    requires SideOk(c, ps, least, most)
    requires c[|c| - 1].x < p.x
    requires Trims(c, p, end)
    ensures SideOk(c[..end] + [p], ps + [p], least, most)
  {
    var c', ps' := c[..end] + [p], ps + [p];
    forall s: Slope, i | s.dx > 0 && AtMost(least, s) && AtMost(s, most) && 0 <= i < |ps'| ensures Covered(s, ps'[i], c') {
      if i < |ps| {
        StillOver(c, p, end, s, ps[i]);
      } else {
        assert c'[end] == p;
      }
    }
    forall i, j | 0 <= i < j < |c'| ensures c'[i].x < c'[j].x {
      if j == end {
        assert c[i].x <= c[|c| - 1].x;
      }
    }
    forall i | 0 <= i < |c'| ensures c'[i] in ps' {
      if i < end { assert c[i] in ps; }
    }
  }

  // ------------------------------------------------------------------ one half update

  /** What the source does with a top p that is not under the flattest line. Under the
      steepest line: the lower hull restarts at the touching point and p closes the
      upper hull. Otherwise: nothing. */
  lemma AbsorbTop(r: seq<Point>, lower: seq<Point>, upper: seq<Point>, bots: seq<Point>, tops: seq<Point>, p: Point, k: int, end: int)
    requires HullOk(r, lower, upper, bots, tops)
    requires forall i :: 0 <= i < |tops| ==> tops[i].x < p.x
    requires Offset(r[2].Minus(r[0]), r[0]) <= Offset(r[2].Minus(r[0]), p)
    requires Offset(r[3].Minus(r[1]), p) < Offset(r[3].Minus(r[1]), r[1])
    requires Touches(lower, p, k)
    requires Trims(FlipAll(upper), p.Flip(), end)
    ensures HullOk([r[0], lower[k], r[2], p], lower[k..], upper[..end] + [p], bots, tops + [p])
    ensures AtMost(p.Minus(lower[k]), r[3].Minus(r[1]))
  {
    hide Offset, AtMost, Cross, SideOk, Concave, Dominates;
    var flat, steep, t := r[2].Minus(r[0]), r[3].Minus(r[1]), p.Minus(lower[k]);
    LastInTops(r, lower, upper, bots, tops);
    TouchSlope(r, lower, upper, bots, tops, p, k);
    TouchLineOverBottoms(lower, bots, flat, steep, p, k);
    TouchLineUnderTops(r, lower, upper, bots, tops, p, k);
    SameLine(lower[k], p);
    AdvanceStart(lower, bots, flat, steep, p, k);
    AtMostFlip(t, steep);
    NarrowSide(FlipAll(upper), FlipAll(tops), steep.Flip(), flat.Flip(), t.Flip());
    AppendPoint(FlipAll(upper), FlipAll(tops), t.Flip(), flat.Flip(), p.Flip(), end);
    assert FlipAll(upper[..end] + [p]) == FlipAll(upper)[..end] + [p.Flip()];
    assert FlipAll(tops + [p]) == FlipAll(tops) + [p.Flip()];
  }

  lemma LastInTops(r: seq<Point>, lower: seq<Point>, upper: seq<Point>, bots: seq<Point>, tops: seq<Point>)
    requires HullOk(r, lower, upper, bots, tops)
    ensures upper[|upper| - 1] in tops
  {
    hide Offset, AtMost, Supports, Concave;
    var i := |upper| - 1;
    assert FlipAll(upper)[i] in FlipAll(tops);
    var j :| 0 <= j < |tops| && FlipAll(tops)[j] == FlipAll(upper)[i];
    assert tops[j] == upper[i];
  }

  lemma AtMostFlip(s: Slope, t: Slope)
    ensures AtMost(s, t) == AtMost(t.Flip(), s.Flip())
  {
  }

  lemma SameLine(a: Point, b: Point)
    ensures Offset(b.Minus(a), b) == Offset(b.Minus(a), a)
  {
  }

  /** A top on or over the steepest line changes nothing. */
  lemma IgnoreTop(r: seq<Point>, lower: seq<Point>, upper: seq<Point>, bots: seq<Point>, tops: seq<Point>, p: Point)
    requires HullOk(r, lower, upper, bots, tops)
    requires forall i :: 0 <= i < |tops| ==> tops[i].x < p.x
    requires Offset(r[2].Minus(r[0]), r[0]) <= Offset(r[2].Minus(r[0]), p)
    requires Offset(r[3].Minus(r[1]), p) >= Offset(r[3].Minus(r[1]), r[1])
    ensures HullOk(r, lower, upper, bots, tops + [p])
  {
    hide Offset, AtMost, Cross, Supports, Concave, XIncreasing;
    var steep := r[3].Minus(r[1]);
    LastInTops(r, lower, upper, bots, tops);
    SameLine(r[1], r[3]);
    OffsetFlip(steep, r[3]);
    OffsetFlip(steep, p);
    SkipPoint(FlipAll(upper), FlipAll(tops), steep.Flip(), r[2].Minus(r[0]).Flip(), p.Flip());
    assert FlipAll(tops + [p]) == FlipAll(tops) + [p.Flip()];
  }

  // ------------------------------------------------------------------ the mirror

  function MirrorCorners(r: seq<Point>): seq<Point>
    requires |r| == 4
  {
    [r[1].Flip(), r[0].Flip(), r[3].Flip(), r[2].Flip()]
  }

  lemma Mirror(r: seq<Point>, lower: seq<Point>, upper: seq<Point>, bots: seq<Point>, tops: seq<Point>)
    requires HullOk(r, lower, upper, bots, tops)
    ensures HullOk(MirrorCorners(r), FlipAll(upper), FlipAll(lower), FlipAll(tops), FlipAll(bots))
  {
    hide Offset, Cross, SideOk;
    FlipTwice(lower);
    FlipTwice(bots);
    var flat, steep := r[2].Minus(r[0]), r[3].Minus(r[1]);
    var m := MirrorCorners(r);
    assert m[2].Minus(m[0]) == steep.Flip() && m[3].Minus(m[1]) == flat.Flip();
    assert flat.Flip().Flip() == flat && steep.Flip().Flip() == steep;
    forall i | 0 <= i < |tops|
      ensures Offset(steep.Flip(), FlipAll(tops)[i]) <= Offset(steep.Flip(), m[0])
      ensures Offset(flat.Flip(), FlipAll(tops)[i]) <= Offset(flat.Flip(), m[1])
    {
      OffsetFlip(steep, tops[i]);
      OffsetFlip(steep, r[1]);
      OffsetFlip(flat, tops[i]);
      OffsetFlip(flat, r[0]);
    }
    forall i | 0 <= i < |bots|
      ensures Offset(steep.Flip(), m[0]) <= Offset(steep.Flip(), FlipAll(bots)[i])
      ensures Offset(flat.Flip(), m[1]) <= Offset(flat.Flip(), FlipAll(bots)[i])
    {
      OffsetFlip(steep, bots[i]);
      OffsetFlip(steep, r[1]);
      OffsetFlip(flat, bots[i]);
      OffsetFlip(flat, r[0]);
    }
  }

  lemma OffsetFlip(s: Slope, p: Point)
    ensures Offset(s.Flip(), p.Flip()) == -Offset(s, p)
  {
  }

  lemma AbsorbBottom(r: seq<Point>, lower: seq<Point>, upper: seq<Point>, bots: seq<Point>, tops: seq<Point>, p: Point, k: int, end: int)
    requires HullOk(r, lower, upper, bots, tops)
    requires forall i :: 0 <= i < |bots| ==> bots[i].x < p.x
    requires Offset(r[3].Minus(r[1]), p) <= Offset(r[3].Minus(r[1]), r[1])
    requires Offset(r[2].Minus(r[0]), r[0]) < Offset(r[2].Minus(r[0]), p)
    requires Touches(FlipAll(upper), p.Flip(), k)
    requires Trims(lower, p, end)
    ensures HullOk([upper[k], r[1], p, r[3]], lower[..end] + [p], upper[k..], bots + [p], tops)
  {
    hide Offset, AtMost, Cross, SideOk, Concave, Dominates;
    Mirror(r, lower, upper, bots, tops);
    FlipTwice(lower);
    FlipTwice(upper);
    FlipTwice(bots);
    FlipTwice(tops);
    var m := MirrorCorners(r);
    OffsetFlip(r[3].Minus(r[1]), p);
    OffsetFlip(r[3].Minus(r[1]), r[1]);
    OffsetFlip(r[2].Minus(r[0]), p);
    OffsetFlip(r[2].Minus(r[0]), r[0]);
    AbsorbTop(m, FlipAll(upper), FlipAll(lower), FlipAll(tops), FlipAll(bots), p.Flip(), k, end);
    var r', lower', upper', bots' := [upper[k], r[1], p, r[3]], lower[..end] + [p], upper[k..], bots + [p];
    var m' := [m[0], FlipAll(upper)[k], m[2], p.Flip()];
    Mirror(m', FlipAll(upper)[k..], FlipAll(lower)[..end] + [p.Flip()], FlipAll(tops), FlipAll(bots) + [p.Flip()]);
    assert MirrorCorners(m') == r';
    assert FlipAll(FlipAll(lower)[..end] + [p.Flip()]) == lower';
    assert FlipAll(FlipAll(upper)[k..]) == upper';
    assert FlipAll(FlipAll(bots) + [p.Flip()]) == bots';
  }

  lemma IgnoreBottom(r: seq<Point>, lower: seq<Point>, upper: seq<Point>, bots: seq<Point>, tops: seq<Point>, p: Point)
    requires HullOk(r, lower, upper, bots, tops)
    requires forall i :: 0 <= i < |bots| ==> bots[i].x < p.x
    requires Offset(r[3].Minus(r[1]), p) <= Offset(r[3].Minus(r[1]), r[1])
    requires Offset(r[2].Minus(r[0]), r[0]) >= Offset(r[2].Minus(r[0]), p)
    ensures HullOk(r, lower, upper, bots + [p], tops)
  {
    hide Offset, AtMost, Cross;
    var flat := r[2].Minus(r[0]);
    assert r[2] in bots;
    SameLine(r[0], r[2]);
    SkipPoint(lower, bots, flat, r[3].Minus(r[1]), p);
  }
}
