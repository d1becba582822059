/** The learned index: a piecewise-linear model of key ranks, and the bounded search that
    turns its prediction into a position. Arithmetic is exact. */
module LearnedIndex {

  datatype Segment = Segment(start: nat, slope: real, intercept: real) {
    function Eval(key: nat): real {
      Line(slope, intercept, key)
    }
  }

  function Line(slope: real, intercept: real, key: nat): real {
    slope * (key as real) + intercept
  }

  const ERR_BOUND: int := 1000

  function Abs(r: real): (a: real)
    ensures a >= 0.0 && (a == r || a == -r)
  {
    if r < 0.0 then -r else r
  }

  /** Conversion of a floating-point number to an integer: toward zero. */
  function Truncate(r: real): (t: int)
    ensures r >= 0.0 ==> 0.0 <= t as real <= r < t as real + 1.0
    ensures r < 0.0 ==> t as real - 1.0 < r <= t as real <= 0.0
  {
    if r >= 0.0 then r.Floor else -((-r).Floor)
  }

  /** The segment through two neighbouring points, starting at the first. */
  function Through(x: seq<nat>, y: seq<real>, i: nat): Segment
    requires |x| == |y| && i + 1 < |x| && x[i] < x[i + 1]
  {
    var dx := (x[i + 1] - x[i]) as real;
    Segment(x[i],
            (y[i + 1] - y[i]) / dx,
            (y[i] * (x[i + 1] as real) - (x[i] as real) * y[i + 1]) / dx)
  }

  ghost predicate Ascending(x: seq<nat>) {
    forall i, j :: 0 <= i < j < |x| ==> x[i] < x[j]
  }

  ghost predicate StartsAscend(model: seq<Segment>) {
    forall i, j :: 0 <= i < j < |model| ==> model[i].start < model[j].start
  }

  /** The last segment that starts at or before the key. */
  function Pick(model: seq<Segment>, key: nat): Segment
    requires model != [] && model[0].start <= key
    decreases |model|
  {
    var last := |model| - 1;
    if model[last].start <= key then model[last] else Pick(model[..last], key)
  }

  /** What the model says about a key; before the first segment it says 0. */
  function Predict(model: seq<Segment>, key: nat): real {
    if model == [] || key < model[0].start then 0.0 else Pick(model, key).Eval(key)
  }

  /** The model knows the rank of every one of the keys up to err. */
  ghost predicate WithinError(model: seq<Segment>, x: seq<nat>, y: seq<real>, n: nat, err: real)
    requires |x| == |y| && n <= |x|
  {
    forall j :: 0 <= j < n ==> Abs(Predict(model, x[j]) - y[j]) <= err
  }

  lemma ThroughIsExact(x: seq<nat>, y: seq<real>, i: nat)
    requires |x| == |y| && i + 1 < |x| && x[i] < x[i + 1]
    ensures Through(x, y, i).Eval(x[i]) == y[i] && Through(x, y, i).Eval(x[i + 1]) == y[i + 1]
  {
    var x0, x1, y0, y1 := x[i] as real, x[i + 1] as real, y[i], y[i + 1];
    var dx := (x[i + 1] - x[i]) as real;
    assert dx == x1 - x0;
    var a, b := (y1 - y0) / dx, (y0 * x1 - x0 * y1) / dx;
    LineAt(x0, x1, y0, y1, dx, x0, y0);
    LineAt(x0, x1, y0, y1, dx, x1, y1);
  }

  lemma LineAt(x0: real, x1: real, y0: real, y1: real, dx: real, x: real, y: real)
    requires dx == x1 - x0 > 0.0 && ((x == x0 && y == y0) || (x == x1 && y == y1))
    ensures (y1 - y0) / dx * x + (y0 * x1 - x0 * y1) / dx == y
  {
    var a, b := (y1 - y0) / dx, (y0 * x1 - x0 * y1) / dx;
    assert dx * a == y1 - y0 && dx * b == y0 * x1 - x0 * y1;
    assert dx * (a * x) == (dx * a) * x;
    assert dx * (a * x + b) == (y1 - y0) * x + (y0 * x1 - x0 * y1);
    assert dx * (a * x + b) == dx * y;
    Cancel(dx, a * x + b, y);
  }

  lemma Cancel(d: real, a: real, b: real)
    requires d > 0.0 && d * a == d * b
    ensures a == b
  {
    StrictScale(d, a, b);
    StrictScale(d, b, a);
  }

  lemma StrictScale(d: real, a: real, b: real)
    requires d > 0.0
    ensures a < b ==> d * a < d * b
  {
  }

  lemma PickBeforeLast(model: seq<Segment>, next: Segment, key: nat)
    requires model != [] && model[0].start <= key
    ensures key < next.start ==> Pick(model + [next], key) == Pick(model, key)
    ensures next.start <= key ==> Pick(model + [next], key) == next
  {
    assert (model + [next])[..|model|] == model;
  }

  // ------------------------------------------------------------------ building the model

  /** The state of the builder before key i: the closed segments, the current one, which runs
      through the points s and s + 1, and correct predictions for the keys so far. */
  ghost predicate BuildState(closed: seq<Segment>, cur: Segment, s: nat, x: seq<nat>, y: seq<real>, i: nat, err: real) {
    && |x| == |y| && i <= |x| && Ascending(x)
    && s + 1 < |x| && s <= i && cur == Through(x, y, s)
    && StartsAscend(closed + [cur])
    && (closed + [cur])[0].start == x[0]
    && WithinError(closed + [cur], x, y, i, err)
  }

  lemma KeepSegment(closed: seq<Segment>, cur: Segment, s: nat, x: seq<nat>, y: seq<real>, i: nat, err: real)
    requires BuildState(closed, cur, s, x, y, i, err) && i < |x| && x[s] <= x[i]
    requires Abs(cur.Eval(x[i]) - y[i]) <= err
    ensures BuildState(closed, cur, s, x, y, i + 1, err)
  {
    assert cur.start == x[s];
    PredictCurrent(closed, cur, x[i]);
  }

  lemma PredictCurrent(closed: seq<Segment>, cur: Segment, key: nat)
    requires StartsAscend(closed + [cur]) && cur.start <= key
    ensures Predict(closed + [cur], key) == cur.Eval(key)
  {
    var all := closed + [cur];
    assert all[|closed|] == cur;
    if closed != [] {
      assert all[0].start < all[|closed|].start;
    }
  }

  /** A new segment from point t on leaves the predictions for earlier keys alone and is
      exact at its own two points. */
  lemma OpenSegment(closed: seq<Segment>, cur: Segment, s: nat, x: seq<nat>, y: seq<real>, i: nat, err: real, t: nat)
    requires BuildState(closed, cur, s, x, y, i, err) && err >= 0.0
    requires s < t && t + 1 < |x| && t <= i <= t + 1
    ensures BuildState(closed + [cur], Through(x, y, t), t, x, y, i + 1, err)
  {
    var model, next := closed + [cur], Through(x, y, t);
    OpenStarts(closed, cur, s, x, y, i, err, t, next);
    ThroughIsExact(x, y, t);
    assert next.start == x[t];
    hide Through;
    forall j | 0 <= j < i + 1 ensures Abs(Predict(model + [next], x[j]) - y[j]) <= err {
      if j < t {
        PredictEarlier(model, next, x[j]);
      } else {
        PredictCurrent(model, next, x[j]);
      }
    }
  }

  lemma PredictEarlier(model: seq<Segment>, next: Segment, key: nat)
    requires model != [] && key < next.start
    ensures Predict(model + [next], key) == Predict(model, key)
  {
    assert (model + [next])[0] == model[0];
    if model[0].start <= key {
      PickBeforeLast(model, next, key);
    }
  }

  lemma OpenStarts(closed: seq<Segment>, cur: Segment, s: nat, x: seq<nat>, y: seq<real>, i: nat, err: real, t: nat, next: Segment)
    requires BuildState(closed, cur, s, x, y, i, err)
    requires s < t < |x| && next.start == x[t]
    ensures StartsAscend(closed + [cur] + [next]) && (closed + [cur] + [next])[0].start == x[0]
  {
    var model := closed + [cur];
    var all := model + [next];
    assert model[|closed|] == cur && cur.start == x[s];
    forall a, b | 0 <= a < b < |all| ensures all[a].start < all[b].start {
      if b == |model| && a < |closed| {
        assert model[a].start < model[|closed|].start;
      }
    }
  }

  /** Segment prev is off by more than the error at key t, and next starts there; or one key earlier, always so or
      only where t is the last key. */
  ghost predicate Opens(prev: Segment, next: Segment, x: seq<nat>, y: seq<real>, err: real, t: nat, always: bool)
    requires |x| == |y|
  {
    && 0 < t < |x| && Abs(prev.Eval(x[t]) - y[t]) > err
    && next.start == x[if always || t == |x| - 1 then t - 1 else t]
  }

  ghost predicate OpenedByMiss(prev: Segment, next: Segment, x: seq<nat>, y: seq<real>, err: real, always: bool)
    requires |x| == |y|
  {
    exists t: nat :: Opens(prev, next, x, y, err, t, always)
  }

  /** No segment is opened unless the one before it misses a key. */
  ghost predicate Forced(model: seq<Segment>, x: seq<nat>, y: seq<real>, err: real, always: bool)
    requires |x| == |y|
  {
    forall k :: 0 < k < |model| ==> OpenedByMiss(model[k - 1], model[k], x, y, err, always)
  }

  lemma ForcedMore(closed: seq<Segment>, cur: Segment, next: Segment,
                   x: seq<nat>, y: seq<real>, err: real, t: nat, always: bool)
    requires |x| == |y| && Forced(closed + [cur], x, y, err, always) && Opens(cur, next, x, y, err, t, always)
    ensures Forced(closed + [cur] + [next], x, y, err, always)
  {
    hide Opens;
    var model := closed + [cur];
    var all := model + [next];
    forall k | 0 < k < |all| ensures OpenedByMiss(all[k - 1], all[k], x, y, err, always) {
      if k < |model| {
        assert OpenedByMiss(model[k - 1], model[k], x, y, err, always);
        assert all[k - 1] == model[k - 1] && all[k] == model[k];
      } else {
        assert all[k - 1] == cur && all[k] == next;
      }
    }
  }

  /** Builds the model; with fewer than two keys nothing is written. */
  method Build(x: seq<nat>, y: seq<real>, err: real) returns (ok: bool, model: seq<Segment>)
    requires |x| == |y| && Ascending(x) && err >= 0.0
    ensures ok <==> |x| >= 2
    ensures ok ==> model != [] && model[0].start == x[0] && StartsAscend(model)
    ensures ok ==> WithinError(model, x, y, |x|, err) && Forced(model, x, y, err, false)
  {
    hide BuildState, Through, StartsAscend, WithinError, Segment.Eval, Forced;
    if |x| < 2 {
      return false, [];
    }
    var n := |x|;
    model := [];
    var lastStart := x[0];
    var cur := Through(x, y, 0);
    ghost var s := 0;
    FirstSegment(x, y, err);
    OneIsForced(cur, x, y, err, false);
    StartOf(x, y, 0);
    var i := 2;
    while i < n - 1
      invariant 2 <= i && (i <= n - 1 || i == n == 2)
      invariant 0 <= s < n - 1 && s < i && lastStart == x[s]
      invariant cur == Through(x, y, s) && cur.start == x[s]
      invariant BuildState(model, cur, s, x, y, i, err) && Forced(model + [cur], x, y, err, false)
    {
      if Abs(cur.Eval(x[i]) - y[i]) > err {
        OpenSegment(model, cur, s, x, y, i, err, i);
        model := model + [Segment(lastStart, cur.slope, cur.intercept)];
        lastStart := x[i];
        StartOf(x, y, i);
        ForcedMore(model[..|model| - 1], cur, Through(x, y, i), x, y, err, i, false);
        cur := Through(x, y, i);
        s := i;
      } else {
        KeepSegment(model, cur, s, x, y, i, err);
      }
      i := i + 1;
    }
    ghost var closed, last := model, cur;
    model := model + [Segment(lastStart, cur.slope, cur.intercept)];
    assert model == closed + [cur];

    ThroughIsExact(x, y, s);
    if Abs(cur.Eval(x[n - 1]) - y[n - 1]) > err {
      OpenSegment(closed, cur, s, x, y, n - 1, err, n - 2);
      StartOf(x, y, n - 2);
      ForcedMore(closed, cur, Through(x, y, n - 2), x, y, err, n - 1, false);
      lastStart := x[n - 2];
      cur := Through(x, y, n - 2);
      model := model + [Segment(lastStart, cur.slope, cur.intercept)];
      BuildDone(closed + [last], cur, n - 2, x, y, err);
    } else {
      if n > 2 {
        KeepSegment(closed, cur, s, x, y, n - 1, err);
      }
      BuildDone(closed, cur, s, x, y, err);
    }
    ok := true;
  }

  lemma StartOf(x: seq<nat>, y: seq<real>, i: nat)
    requires |x| == |y| && i + 1 < |x| && x[i] < x[i + 1]
    ensures Through(x, y, i).start == x[i]
  {
  }

  lemma OneIsForced(cur: Segment, x: seq<nat>, y: seq<real>, err: real, always: bool)
    requires |x| == |y|
    ensures Forced([] + [cur], x, y, err, always)
  {
  }

  lemma FirstSegment(x: seq<nat>, y: seq<real>, err: real)
    requires |x| == |y| && |x| >= 2 && Ascending(x) && err >= 0.0
    ensures BuildState([], Through(x, y, 0), 0, x, y, 2, err)
  {
    ThroughIsExact(x, y, 0);
    var cur := Through(x, y, 0);
    assert [] + [cur] == [cur];
    forall j | 0 <= j < 2 ensures Abs(Predict([cur], x[j]) - y[j]) <= err {
      PredictCurrent([], cur, x[j]);
    }
  }

  lemma BuildDone(closed: seq<Segment>, cur: Segment, s: nat, x: seq<nat>, y: seq<real>, err: real)
    requires BuildState(closed, cur, s, x, y, |x|, err)
    ensures var model := closed + [cur];
      model[0].start == x[0] && StartsAscend(model) && WithinError(model, x, y, |x|, err)
  {
  }

  // ------------------------------------------------------------------ querying the model

  /** The predicted rank, truncated and clamped at zero. */
  function Rank(model: seq<Segment>, key: nat): (pos: nat)
    ensures var p := Predict(model, key); if p < 1.0 then pos == 0 else p - 1.0 < pos as real <= p
  {
    var pos := Truncate(Predict(model, key));
    if pos < 0 then 0 else pos
  }

  /** The linear scan over the segments, with its two breaks. */
  method QueryModel(model: seq<Segment>, key: nat) returns (pos: nat)
    requires StartsAscend(model)
    ensures pos == Rank(model, key)
  {
    var slope, intercept := 0.0, 0.0;
    var i := 0;
    assert model[..0] == [] && model[..|model|] == model;
    assert Predict([], key) == 0.0 == Line(slope, intercept, key);
    hide Predict, StartsAscend, Line;
    while i < |model|
      invariant 0 <= i <= |model|
      invariant Line(slope, intercept, key) == Predict(model[..i], key)
      invariant i > 0 ==> model[i - 1].start < key
    {
      ScanStep(model, key, i);
      if key < model[i].start {
        break;
      } else if key == model[i].start {
        slope := model[i].slope;
        intercept := model[i].intercept;
        break;
      } else {
        slope := model[i].slope;
        intercept := model[i].intercept;
      }
      i := i + 1;
    }
    var p := Truncate(Line(slope, intercept, key));
    if p < 0 {
      return 0;
    }
    return p;
  }

  /** Once a segment starts at or after the key, the later ones do not matter. */
  lemma {:induction false} LaterIgnored(model: seq<Segment>, key: nat, i: nat, n: nat)
    requires StartsAscend(model) && i <= n <= |model|
    requires i < |model| ==> key < model[i].start
    ensures Predict(model[..n], key) == Predict(model[..i], key)
    decreases n
  {
    if i < n {
      LaterIgnored(model, key, i, n - 1);
      assert model[..n] == model[..n - 1] + [model[n - 1]];
      assert key < model[n - 1].start;
      if n - 1 > 0 {
        PredictEarlier(model[..n - 1], model[n - 1], key);
      }
    }
  }

  lemma ScanStep(model: seq<Segment>, key: nat, i: nat)
    requires StartsAscend(model) && i < |model|
    ensures key < model[i].start ==> Predict(model, key) == Predict(model[..i], key)
    ensures key == model[i].start ==> Predict(model, key) == model[i].Eval(key)
    ensures key >= model[i].start ==> Predict(model[..i + 1], key) == model[i].Eval(key)
  {
    assert model[..|model|] == model;
    assert model[..i + 1] == model[..i] + [model[i]];
    if key < model[i].start {
      LaterIgnored(model, key, i, |model|);
    } else {
      assert StartsAscend(model[..i] + [model[i]]);
      PredictCurrent(model[..i], model[i], key);
      if key == model[i].start {
        LaterIgnored(model, key, i + 1, |model|);
      }
    }
  }

  // ------------------------------------------------------------------ the bounded search

  function Max(a: int, b: int): int {
    if a >= b then a else b
  }

  /** The rank is at most the error bound away from the prediction. */
  predicate InWindow(model: seq<Segment>, key: nat, i: nat) {
    Rank(model, key) - ERR_BOUND <= i <= Rank(model, key) + ERR_BOUND
  }

  /** In an ascending key array the search settles on the place of a key within the window; it never settles on
      the first place for any other key than the first. */
  ghost predicate Located(model: seq<Segment>, keys: seq<nat>, key: nat, position: nat) {
    && (Ascending(keys) ==>
          forall i: nat :: i < |keys| && keys[i] == key && InWindow(model, key, i) ==> position == i)
    && (position == 0 && keys != [] ==> keys[0] == key)
  }

  /** The position the search settles on: the key's place in the window around the predicted
      rank, or the end of the window when it is not there. The window is read from the key
      array file as far as the file goes; the rest of it holds whatever the freshly allocated
      memory held. */
  method LocateKey(model: seq<Segment>, keys: seq<nat>, key: nat, memory: seq<nat>) returns (position: nat)
    requires StartsAscend(model) && |memory| == 2 * ERR_BOUND
    ensures Located(model, keys, key, position)
  {
    var pos := QueryModel(model, key);
    var from := Max(pos - ERR_BOUND, 0);
    var to := pos + ERR_BOUND;
    var read := if to <= |keys| then to - from else if from <= |keys| then |keys| - from else 0;
    var chunk := (if from <= |keys| then keys[from..from + read] else []) + memory[read..to - from];
    var idx := 0;
    while idx < |chunk|
      invariant 0 <= idx <= |chunk|
      invariant forall j :: 0 <= j < idx ==> chunk[j] != key
    {
      if chunk[idx] == key {
        break;
      }
      idx := idx + 1;
    }
    position := from + idx;
    forall i | Ascending(keys) && 0 <= i < |keys| && keys[i] == key && InWindow(model, key, i) ensures position == i
    {
      assert forall j :: 0 <= j < read ==> chunk[j] == keys[from + j];
      if i < to {
        assert chunk[i - from] == key;
      }
    }
  }

  /** A prediction within the error bound keeps the true rank inside the window, or exactly
      at its excluded upper end. */
  lemma RankInWindow(model: seq<Segment>, key: nat, i: nat)
    requires Abs(Predict(model, key) - i as real) <= ERR_BOUND as real
    ensures InWindow(model, key, i)
  {
    var p := Predict(model, key);
    if p >= 0.0 {
      assert p.Floor as real <= p < p.Floor as real + 1.0;
    } else {
      assert (-p).Floor as real <= -p;
    }
  }

  /** The ranks the builder is given: the position of each key. */
  function Ranks(n: nat): (y: seq<real>)
    ensures |y| == n && forall i :: 0 <= i < n ==> y[i] == i as real
  {
    seq(n, i => i as real)
  }

  /** For every ascending key array the built model leads every key to its own position. */
  method LookUpEveryKey(keys: seq<nat>, i: nat, memory: seq<nat>) returns (position: nat)
    requires Ascending(keys) && |keys| >= 2 && i < |keys| && |memory| == 2000
    ensures position == i
  {
    var ok, model := Build(keys, Ranks(|keys|), ERR_BOUND as real);
    position := LocateKey(model, keys, keys[i], memory);
    RankInWindow(model, keys[i], i);
  }
}
