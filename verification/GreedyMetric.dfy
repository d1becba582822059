/** The number of segments the greedy loop needs, and why no segmentation needs fewer. */
module GreedyMetric {
  import opened Hull
  import opened Segmenter

  const U64_LIMIT: int := 0x1_0000_0000_0000_0000

  /** A signed 32-bit tolerance converted to the unsigned 64-bit value type. */
  function AsU64(v: int): (r: int)
    requires -0x8000_0000 <= v < 0x8000_0000
    ensures 0 <= r < 0x1_0000_0000_0000_0000 && (r - v) % 0x1_0000_0000_0000_0000 == 0
  {
    if v < 0 then v + U64_LIMIT else v
  }

  // ------------------------------------------------------------------ sorted keys

  ghost predicate Sorted(s: seq<int>) {
    forall i, j :: 0 <= i < j < |s| ==> s[i] <= s[j]
  }

  function Insert(x: int, s: seq<int>): (r: seq<int>)
    ensures multiset(r) == multiset(s) + multiset{x}
  {
    if s == [] then [x]
    else if x <= s[0] then [x] + s
    else
      assert s == [s[0]] + s[1..];
      [s[0]] + Insert(x, s[1..])
  }

  lemma {:induction false} InsertSorted(x: int, s: seq<int>)
    requires Sorted(s)
    ensures Sorted(Insert(x, s))
  {
    if s != [] && s[0] < x {
      InsertSorted(x, s[1..]);
      var t := Insert(x, s[1..]);
      forall i | 0 <= i < |t| ensures s[0] <= t[i] {
        assert t[i] in multiset(t);
        assert t[i] in s[1..] || t[i] == x;
      }
    }
  }

  /** The contents of the key array after std::sort. */
  function SortKeys(keys: seq<int>): (r: seq<int>)
    ensures multiset(r) == multiset(keys) && |r| == |keys|
  {
    if keys == [] then []
    else
      assert keys == [keys[0]] + keys[1..];
      var r := Insert(keys[0], SortKeys(keys[1..]));
      assert |r| == |multiset(r)| == |multiset(keys)|;
      r
  }

  lemma {:induction false} SortKeysSorted(keys: seq<int>)
    ensures Sorted(SortKeys(keys))
  {
    if keys != [] {
      SortKeysSorted(keys[1..]);
      InsertSorted(keys[0], SortKeys(keys[1..]));
    }
  }

  ghost predicate Distinct(keys: seq<int>) {
    forall x :: multiset(keys)[x] <= 1
  }

  lemma RepeatedKey(s: seq<int>, i: int)
    requires 1 <= i < |s| && s[i - 1] == s[i]
    ensures !Distinct(s)
  {
    assert s == s[..i - 1] + [s[i - 1]] + [s[i]] + s[i + 1..];
    assert multiset(s)[s[i]] >= 2;
  }

  lemma {:induction false} AscendingIsDistinct(s: seq<int>)
    requires forall i, j :: 0 <= i < j < |s| ==> s[i] < s[j]
    ensures Distinct(s)
  {
    if s != [] {
      AscendingIsDistinct(s[1..]);
      assert s == [s[0]] + s[1..];
      assert s[0] !in s[1..];
      assert forall x :: multiset(s)[x] == multiset(s[1..])[x] + (if x == s[0] then 1 else 0);
    }
  }

  // ------------------------------------------------------------------ segmentations

  /** The i-th key is to be mapped to rank i. */
  function RankBands(keys: seq<int>, epsilon: int): (r: seq<Band>)
    requires epsilon >= 0 && |keys| <= U64_LIMIT
    ensures |r| == |keys|
    ensures forall i :: 0 <= i < |r| ==> r[i] == BandAround(keys[i], i, epsilon, 0, U64_LIMIT - 1)
  {
    seq(|keys|, i requires 0 <= i < |keys| => BandAround(keys[i], i, epsilon, 0, U64_LIMIT - 1))
  }

  /** A 64-bit unsigned value within epsilon of the rank. */
  ghost predicate PredictsRank(v: real, rank: nat, epsilon: int) {
    0.0 <= v <= 0xffff_ffff_ffff_ffff as real && -(epsilon as real) <= v - rank as real <= epsilon as real
  }

  /** The line predicts every rank from a to b - 1. */
  ghost predicate PredictsRanks(m: real, c: real, keys: seq<int>, epsilon: int, a: nat, b: nat)
    requires b <= |keys|
  {
    forall i :: a <= i < b ==> PredictsRank(Height(m, c, keys[i]), i, epsilon)
  }

  ghost predicate OneLine(keys: seq<int>, epsilon: int, a: nat, b: nat) {
    a < b <= |keys| && exists m: real, c: real :: PredictsRanks(m, c, keys, epsilon, a, b)
  }

  /** The keys cut into runs, each of which one line predicts. */
  ghost predicate Pieces(keys: seq<int>, epsilon: int, cuts: seq<nat>) {
    && |cuts| >= 1 && cuts[0] == 0 && cuts[|cuts| - 1] == |keys|
    && forall k :: 0 <= k < |cuts| - 1 ==> OneLine(keys, epsilon, cuts[k], cuts[k + 1])
  }

  ghost predicate LeastPieces(keys: seq<int>, epsilon: int, n: nat) {
    && (exists cuts: seq<nat> :: Pieces(keys, epsilon, cuts) && |cuts| - 1 == n)
    && (forall cuts: seq<nat> :: Pieces(keys, epsilon, cuts) ==> n <= |cuts| - 1)
  }

  /** A line meets the bands of a run exactly when it predicts the ranks of its keys. */
  lemma MeetsIsPredicts(m: real, c: real, keys: seq<int>, epsilon: int, a: nat, b: nat)
    requires epsilon >= 0 && a <= b <= |keys| <= U64_LIMIT
    ensures LineFits(m, c, RankBands(keys, epsilon)[a..b]) <==> PredictsRanks(m, c, keys, epsilon, a, b)
  {
    hide PredictsRank, BandAround, Height;
    var run := RankBands(keys, epsilon)[a..b];
    forall k | 0 <= k < b - a
      ensures run[k].Has(Height(m, c, run[k].x)) <==> PredictsRank(Height(m, c, keys[a + k]), a + k, epsilon)
    {
      MeetsIsPredictsAt(Height(m, c, keys[a + k]), run[k], keys[a + k], a + k, epsilon);
    }
    if LineFits(m, c, run) {
      forall i | a <= i < b ensures PredictsRank(Height(m, c, keys[i]), i, epsilon) {
        assert run[i - a].Has(Height(m, c, run[i - a].x));
      }
    }
  }

  lemma MeetsIsPredictsAt(v: real, band: Band, x: int, rank: nat, epsilon: int)
    requires epsilon >= 0 && rank < U64_LIMIT && band == BandAround(x, rank, epsilon, 0, U64_LIMIT - 1)
    ensures band.x == x && (band.Has(v) <==> PredictsRank(v, rank, epsilon))
  {
    assert band.Has(v) <==> Near(v, rank, epsilon, 0, U64_LIMIT - 1);
  }

  lemma FitsIsOneLine(keys: seq<int>, epsilon: int, a: nat, b: nat)
    requires epsilon >= 0 && a < b <= |keys| <= U64_LIMIT
    ensures Fits(RankBands(keys, epsilon)[a..b]) <==> OneLine(keys, epsilon, a, b)
  {
    hide LineFits, PredictsRanks, RankBands;
    forall m: real, c: real
      ensures LineFits(m, c, RankBands(keys, epsilon)[a..b]) <==> PredictsRanks(m, c, keys, epsilon, a, b)
    {
      MeetsIsPredicts(m, c, keys, epsilon, a, b);
    }
  }

  /** The segmentations of the rank bands are the ways to cut the keys into pieces. */
  lemma SegmentationIsPieces(keys: seq<int>, epsilon: int, cuts: seq<nat>)
    requires epsilon >= 0 && |keys| <= U64_LIMIT
    ensures Segmentation(RankBands(keys, epsilon), cuts) <==> Pieces(keys, epsilon, cuts)
  {
    hide Fits, RankBands;
    forall k | 0 <= k < |cuts| - 1
      ensures RunFits(RankBands(keys, epsilon), cuts, k) <==> OneLine(keys, epsilon, cuts[k], cuts[k + 1])
    {
      if cuts[k] < cuts[k + 1] <= |keys| {
        FitsIsOneLine(keys, epsilon, cuts[k], cuts[k + 1]);
      }
    }
  }

  lemma LeastIsLeast(keys: seq<int>, epsilon: int, n: nat)
    requires epsilon >= 0 && |keys| <= U64_LIMIT && LeastRuns(RankBands(keys, epsilon), n)
    ensures LeastPieces(keys, epsilon, n)
  {
    hide Segmentation, Pieces, RankBands;
    forall cuts: seq<nat>
      ensures Segmentation(RankBands(keys, epsilon), cuts) <==> Pieces(keys, epsilon, cuts)
    {
      SegmentationIsPieces(keys, epsilon, cuts);
    }
  }

  /** Cut points 0 == cuts[0] < ... < cuts[k] == |bands| with one line for every run between them. */
  ghost predicate Segmentation(bands: seq<Band>, cuts: seq<nat>) {
    && |cuts| >= 1 && cuts[0] == 0 && cuts[|cuts| - 1] == |bands|
    && (forall k :: 0 <= k < |cuts| - 1 ==> RunFits(bands, cuts, k))
  }

  ghost predicate RunFits(bands: seq<Band>, cuts: seq<nat>, k: nat)
    requires k < |cuts| - 1
  {
    cuts[k] < cuts[k + 1] <= |bands| && Fits(bands[cuts[k]..cuts[k + 1]])
  }

  /** The run starting at starts[k] ends only where one more band would be too many. */
  ghost predicate RunIsMaximal(bands: seq<Band>, starts: seq<nat>, k: nat)
    requires k < |starts| - 1
  {
    starts[k] < starts[k + 1] < |bands| && !Fits(bands[starts[k]..starts[k + 1] + 1])
  }

  lemma SubrunFits(bands: seq<Band>, a: nat, i: nat, j: nat, b: nat)
    requires a <= i <= j <= b <= |bands| && Fits(bands[a..b])
    ensures Fits(bands[i..j])
  {
    var m: real, c: real :| LineFits(m, c, bands[a..b]);
    forall k | 0 <= k < j - i
      ensures bands[i..j][k].Has(Height(m, c, bands[i..j][k].x))
    {
      assert bands[i..j][k] == bands[a..b][i - a + k];
    }
    assert LineFits(m, c, bands[i..j]);
  }

  /** Greedy stays ahead: its k-th run starts no earlier than that of any segmentation. */
  lemma {:induction false} GreedyAhead(bands: seq<Band>, starts: seq<nat>, cuts: seq<nat>, k: nat)
    requires Segmentation(bands, cuts)
    requires |starts| > 0 && starts[0] == 0
    requires forall j :: 0 <= j < |starts| - 1 ==> RunIsMaximal(bands, starts, j)
    requires k < |starts| && k < |cuts|
    ensures cuts[k] <= starts[k]
  {
    if k > 0 {
      GreedyAhead(bands, starts, cuts, k - 1);
      assert RunIsMaximal(bands, starts, k - 1) && RunFits(bands, cuts, k - 1);
      if cuts[k] > starts[k] {
        SubrunFits(bands, cuts[k - 1], starts[k - 1], starts[k] + 1, cuts[k]);
        assert false;
      }
    }
  }

  /** No segmentation has fewer runs than the greedy one. */
  lemma GreedyIsLeast(bands: seq<Band>, starts: seq<nat>, cuts: seq<nat>)
    requires Segmentation(bands, cuts)
    requires |starts| > 0 && starts[0] == 0 && starts[|starts| - 1] < |bands|
    requires forall j :: 0 <= j < |starts| - 1 ==> RunIsMaximal(bands, starts, j)
    ensures |starts| <= |cuts| - 1
  {
    if |cuts| <= |starts| {
      var last := |cuts| - 1;
      GreedyAhead(bands, starts, cuts, last);
      StartsBelow(bands, starts, last);
      assert false;
    }
  }

  lemma StartsBelow(bands: seq<Band>, starts: seq<nat>, k: nat)
    requires |starts| > 0 && starts[|starts| - 1] < |bands| && k < |starts|
    requires forall j :: 0 <= j < |starts| - 1 ==> RunIsMaximal(bands, starts, j)
    ensures starts[k] < |bands|
  {
    if k < |starts| - 1 {
      assert RunIsMaximal(bands, starts, k);
    }
  }

  // ------------------------------------------------------------------ the metric

  /** Thrown stands for the logic_error that a repeated key raises. */
  datatype Metric = Thrown | Runs(count: nat)

  ghost predicate LeastRuns(bands: seq<Band>, n: nat) {
    && (exists cuts: seq<nat> :: Segmentation(bands, cuts) && |cuts| - 1 == n)
    && (forall cuts: seq<nat> :: Segmentation(bands, cuts) ==> n <= |cuts| - 1)
  }

  /** The state of the greedy loop before rank i: where each run so far started, that every
      closed run fits and could not have gone further, and the bands of the open run. */
  ghost predicate GreedyState(bands: seq<Band>, starts: seq<nat>, i: nat, open: seq<Band>) {
    && i <= |bands|
    && |starts| > 0 && starts[0] == 0
    && var last := starts[|starts| - 1];
    && (if i == 0 then last == 0 else last < i)
    && open == bands[last..i]
    && (i > 0 ==> Fits(open))
    && (forall k :: 0 <= k < |starts| - 1 ==> RunFits(bands, starts, k))
    && (forall k :: 0 <= k < |starts| - 1 ==> RunIsMaximal(bands, starts, k))
  }

  lemma AcceptStep(bands: seq<Band>, starts: seq<nat>, i: nat, open: seq<Band>)
    requires i < |bands| && GreedyState(bands, starts, i, open) && Fits(open + [bands[i]])
    ensures GreedyState(bands, starts, i + 1, open + [bands[i]])
  {
    hide Fits;
    assert open + [bands[i]] == bands[starts[|starts| - 1]..i + 1];
  }

  lemma RejectStep(bands: seq<Band>, starts: seq<nat>, i: nat, open: seq<Band>)
    requires 0 < i < |bands| && GreedyState(bands, starts, i, open)
    requires !Fits(open + [bands[i]]) && Fits([bands[i]])
    ensures GreedyState(bands, starts + [i], i + 1, [bands[i]])
  {
    hide Fits;
    var starts' := starts + [i];
    assert open + [bands[i]] == bands[starts[|starts| - 1]..i + 1];
    forall k | 0 <= k < |starts'| - 1 ensures RunFits(bands, starts', k) && RunIsMaximal(bands, starts', k) {
      if k < |starts| - 1 {
        assert RunFits(bands, starts, k) && RunIsMaximal(bands, starts, k);
      }
    }
    assert bands[i..i + 1] == [bands[i]];
  }

  lemma GreedyDone(bands: seq<Band>, starts: seq<nat>, open: seq<Band>)
    requires |bands| > 0 && GreedyState(bands, starts, |bands|, open)
    ensures LeastRuns(bands, |starts|)
  {
    hide Fits;
    var cuts := starts + [|bands|];
    forall k | 0 <= k < |cuts| - 1 ensures RunFits(bands, cuts, k) {
      if k < |starts| - 1 {
        assert RunFits(bands, starts, k);
      }
    }
    assert Segmentation(bands, cuts);
    forall other: seq<nat> | Segmentation(bands, other) ensures |starts| <= |other| - 1 {
      GreedyIsLeast(bands, starts, other);
    }
  }

  lemma NothingToSegment()
    ensures LeastRuns([], 0)
  {
    var cuts: seq<nat> := [0];
    assert Segmentation([], cuts);
  }

  /** With no keys at all the count is still 1, although no run is needed. */
  method PgmMetric(keys: seq<int>, errorBound: int) returns (metric: Metric)
    requires |keys| < 0x8000_0000 && -0x8000_0000 <= errorBound < 0x8000_0000
    ensures metric == Thrown <==> !Distinct(keys)
    ensures Distinct(keys) && keys != [] ==> LeastPieces(SortKeys(keys), AsU64(errorBound), metric.count)
    ensures keys == [] ==> metric == Runs(1) && LeastPieces(SortKeys(keys), AsU64(errorBound), 0)
    ensures Sorted(SortKeys(keys))
  {
    hide LeastRuns, LeastPieces, Fits, SomeLineNear, GreedyState, Distinct, OptimalPiecewiseLinearModel.Valid, RankBands,
         SortKeys, Sorted, BandAround;
    var epsilon := AsU64(errorBound);
    var segment := new OptimalPiecewiseLinearModel(epsilon, 0, U64_LIMIT - 1);
    var sorted := SortKeys(keys);
    SortKeysSorted(keys);
    SameDistinct(keys, sorted);
    ghost var bands := RankBands(sorted, epsilon);
    ghost var starts: seq<nat> := [0];
    StartState(bands);
    var count := 1;
    var i := 0;
    while i < |sorted|
      invariant 0 <= i <= |sorted|
      invariant fresh(segment) && fresh(segment.rectangle) && segment.Valid()
      invariant segment.epsilon == epsilon && segment.minY == 0 && segment.maxY == U64_LIMIT - 1
      invariant |starts| == count
      invariant GreedyState(bands, starts, i, segment.bands)
      invariant i == 0 ==> count == 1 && segment.pointsInHull == 0 && segment.bands == []
      invariant i > 0 ==> segment.pointsInHull > 0 && segment.lastX == sorted[i - 1]
      invariant forall a, b :: 0 <= a < b < i ==> sorted[a] < sorted[b]
    {
      ghost var open := segment.bands;
      assert BandAround(sorted[i], i, epsilon, 0, U64_LIMIT - 1) == bands[i];
      var added := segment.AddPoint(sorted[i], i);
      if added == NotIncreasing {
        RepeatedKey(sorted, i);
        return Thrown;
      }
      BandFits(bands[i], sorted[i], i, epsilon);
      assert [] + [bands[i]] == [bands[i]];
      if added == Rejected {
        count := count + 1;
        segment.Reset();
        added := segment.AddPoint(sorted[i], i);
        RejectStep(bands, starts, i, open);
        starts := starts + [i];
      } else {
        AcceptStep(bands, starts, i, open);
      }
      i := i + 1;
    }
    AscendingIsDistinct(sorted);
    metric := Runs(count);
    if keys == [] {
      NothingToSegment();
      LeastIsLeast(sorted, epsilon, 0);
    } else {
      GreedyDone(bands, starts, segment.bands);
      LeastIsLeast(sorted, epsilon, count);
    }
  }

  lemma BandFits(band: Band, x: int, y: int, epsilon: int)
    requires epsilon >= 0 && 0 <= y < U64_LIMIT && band == BandAround(x, y, epsilon, 0, U64_LIMIT - 1)
    ensures Fits([band])
  {
    OneBand([band]);
  }

  lemma StartState(bands: seq<Band>)
    ensures GreedyState(bands, [0], 0, [])
  {
  }

  lemma SameDistinct(a: seq<int>, b: seq<int>)
    requires multiset(a) == multiset(b)
    ensures Distinct(a) == Distinct(b)
  {
  }
}
