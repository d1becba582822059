/** The page-based variant of the learned index: a model of page numbers and a binary search for the segment. */
module PageModel {
  import opened LearnedIndex

  const PAGE_SIZE: int := 4096

  function PageOf(pos: real): int {
    (pos / (PAGE_SIZE as real)).Floor
  }

  /** The positions as page numbers. */
  function Pages(y: seq<real>): (r: seq<real>)
    ensures |r| == |y| && forall i :: 0 <= i < |y| ==> r[i] == PageOf(y[i]) as real
  {
    seq(|y|, i requires 0 <= i < |y| => PageOf(y[i]) as real)
  }

  method ToPages(y: seq<real>) returns (pages: seq<real>)
    ensures pages == Pages(y)
  {
    pages := [];
    var k := 0;
    while k < |y|
      invariant 0 <= k <= |y| && pages == Pages(y)[..k]
    {
      pages := pages + [PageOf(y[k]) as real];
      k := k + 1;
    }
  }

  /** Builds the model; with fewer than two keys nothing is written. A new segment starts at the key before. */
  method Build(x: seq<nat>, y: seq<real>, err: real) returns (ok: bool, model: seq<Segment>)
    requires |x| == |y| && Ascending(x) && err >= 0.0
    ensures ok <==> |x| >= 2
    ensures ok ==> model != [] && model[0].start == x[0] && StartsAscend(model)
    ensures ok ==> WithinError(model, x, Pages(y), |x|, err) && Forced(model, x, Pages(y), err, true)
  {
    hide BuildState, Through, StartsAscend, WithinError, Pages, Forced, Segment.Eval;
    if |x| < 2 {
      return false, [];
    }
    var pages := ToPages(y);
    model := [];
    var lastStart := x[0];
    var cur := Through(x, pages, 0);
    ghost var s := 0;
    FirstSegment(x, pages, err);
    OneIsForced(cur, x, pages, err, true);
    StartOf(x, pages, 0);
    var i := 2;
    while i < |x|
      invariant 2 <= i <= |x| && 0 <= s < i - 1 && lastStart == x[s] == cur.start
      invariant BuildState(model, cur, s, x, pages, i, err) && Forced(model + [cur], x, pages, err, true)
    {
      if Abs(cur.Eval(x[i]) - pages[i]) > err {
        OpenSegment(model, cur, s, x, pages, i, err, i - 1);
        model := model + [Segment(lastStart, cur.slope, cur.intercept)];
        lastStart := x[i - 1];
        StartOf(x, pages, i - 1);
        ForcedMore(model[..|model| - 1], cur, Through(x, pages, i - 1), x, pages, err, i, true);
        cur := Through(x, pages, i - 1);
        s := i - 1;
      } else {
        KeepSegment(model, cur, s, x, pages, i, err);
      }
      i := i + 1;
    }
    BuildDone(model, cur, s, x, pages, err);
    return true, model + [Segment(lastStart, cur.slope, cur.intercept)];
  }

  /** Binary search for the segment of a key: the last one that starts at or before it, else the first. */
  method Locate(model: seq<Segment>, key: nat) returns (segmentIdx: nat)
    requires model != [] && StartsAscend(model)
    ensures segmentIdx < |model|
    ensures model[0].start <= key ==> model[segmentIdx] == Pick(model, key)
    ensures key < model[0].start ==> segmentIdx == 0
  {
    var left, right := 0, |model| - 1;
    segmentIdx := 0;
    while left <= right
      invariant 0 <= left <= right + 1 <= |model|
      invariant forall j :: 0 <= j < left ==> model[j].start <= key
      invariant forall j :: right < j < |model| ==> key < model[j].start
      invariant segmentIdx == if left == 0 then 0 else left - 1
      decreases right - left
    {
      var mid := left + (right - left) / 2;
      if key < model[mid].start {
        right := mid - 1;
      } else {
        segmentIdx := mid;
        left := mid + 1;
      }
    }
    if left > 0 {
      PickIs(model, key, left - 1);
    }
  }

  /** The scan of the rank-based index and the binary search choose the same segment. */
  lemma {:induction false} PickIs(model: seq<Segment>, key: nat, k: nat)
    requires k < |model| && model[0].start <= key && model[k].start <= key
    requires forall j :: k < j < |model| ==> key < model[j].start
    ensures Pick(model, key) == model[k]
    decreases |model|
  {
    if k < |model| - 1 {
      PickIs(model[..|model| - 1], key, k);
    }
  }

  /** The middle of the predicted page, truncated and clamped at zero. */
  method QueryModel(model: seq<Segment>, key: nat) returns (pos: nat)
    requires model != [] && StartsAscend(model)
    ensures model[0].start <= key ==> pos == Position(Predict(model, key))
    ensures key < model[0].start ==> pos == Position(model[0].Eval(key))
  {
    hide Predict, Pick;
    var i := Locate(model, key);
    PredictIsPick(model, key);
    pos := Position(model[i].Eval(key));
  }

  lemma PredictIsPick(model: seq<Segment>, key: nat)
    requires model != []
    ensures model[0].start <= key ==> Predict(model, key) == Pick(model, key).Eval(key)
  {
  }

  function Position(page: real): (pos: nat)
    ensures var p := page * 4096.0 + 2048.0; if p < 1.0 then pos == 0 else p - 1.0 < pos as real <= p
  {
    var pos := Truncate(page * (PAGE_SIZE as real) + 2048.0);
    if pos < 0 then 0 else pos
  }

  /** The position predicted for a modelled key is off by less than the error in pages and half a page, and one. */
  lemma PositionNear(model: seq<Segment>, x: seq<nat>, y: seq<real>, err: real, j: nat)
    requires |x| == |y| && WithinError(model, x, Pages(y), |x|, err) && j < |x| && y[j] >= 0.0
    ensures Abs(Position(Predict(model, x[j])) as real - y[j]) <= err * 4096.0 + 2049.0
  {
    hide Predict;
    var page, actual := Predict(model, x[j]), Pages(y)[j];
    var raw := page * 4096.0 + 2048.0;
    PageHolds(y[j]);
    Scale(page - actual, err);
    assert raw - y[j] <= err * 4096.0 + 2048.0 && y[j] - raw <= err * 4096.0 + 2048.0;
    TruncateNear(raw);
  }

  lemma PageHolds(pos: real)
    requires pos >= 0.0
    ensures (PageOf(pos) as real) * 4096.0 <= pos < (PageOf(pos) as real) * 4096.0 + 4096.0
  {
    var q := pos / 4096.0;
    assert q.Floor as real <= q < q.Floor as real + 1.0;
    assert q * 4096.0 == pos;
  }

  lemma Scale(a: real, err: real)
    requires Abs(a) <= err
    ensures -err * 4096.0 <= a * 4096.0 <= err * 4096.0
  {
  }

  lemma TruncateNear(raw: real)
    ensures raw >= 0.0 ==> raw - 1.0 <= Truncate(raw) as real <= raw && Truncate(raw) >= 0
    ensures raw < 0.0 ==> Truncate(raw) <= 0
  {
    assert raw.Floor as real <= raw < raw.Floor as real + 1.0;
    assert (-raw).Floor as real <= -raw < (-raw).Floor as real + 1.0;
  }
}
