/** Merging a key range of the key-value store with the same range of the learned index. */
module RangeMerge {
  import opened Bytes
  import opened KeyCodec

  /** A key, as stored, with its value. */
  datatype Entry = Entry(key: seq<byte>, value: seq<byte>) {
    function Num(): Key
      requires |key| == 8
    {
      StringToUll(key)
    }
  }

  type StoredEntry = e: Entry | |e.key| == 8 witness Entry(UllToString(0), [])

  ghost predicate Ascending(es: seq<StoredEntry>) {
    forall i, j :: 0 <= i < j < |es| ==> es[i].Num() < es[j].Num()
  }

  /** What a range says about a key. */
  function Find(es: seq<StoredEntry>, k: Key): Option<seq<byte>> {
    if es == [] then None
    else if es[0].Num() == k then Some(es[0].value)
    else Find(es[1..], k)
  }

  function Merge(lsm: seq<StoredEntry>, learned: seq<StoredEntry>): seq<StoredEntry>
    decreases |lsm| + |learned|
  {
    if lsm == [] then learned
    else if learned == [] then lsm
    else if lsm[0].Num() < learned[0].Num() then [lsm[0]] + Merge(lsm[1..], learned)
    else if lsm[0].Num() > learned[0].Num() then [learned[0]] + Merge(lsm, learned[1..])
    else [lsm[0]] + Merge(lsm[1..], learned[1..])
  }

  lemma MergeStep(lsm: seq<StoredEntry>, learned: seq<StoredEntry>, i: nat, j: nat, out: seq<StoredEntry>)
    requires i < |lsm| && j < |learned|
    ensures var all, a, b := out + Merge(lsm[i..], learned[j..]), lsm[i].Num(), learned[j].Num();
      && (a < b ==> all == out + [lsm[i]] + Merge(lsm[i + 1..], learned[j..]))
      && (a > b ==> all == out + [learned[j]] + Merge(lsm[i..], learned[j + 1..]))
      && (a == b ==> all == out + [lsm[i]] + Merge(lsm[i + 1..], learned[j + 1..]))
  {
    hide StringToUll;
    assert lsm[i..][0] == lsm[i] && lsm[i..][1..] == lsm[i + 1..];
    assert learned[j..][0] == learned[j] && learned[j..][1..] == learned[j + 1..];
  }

  lemma MergeTail(lsm: seq<StoredEntry>, learned: seq<StoredEntry>, out: seq<StoredEntry>)
    requires lsm == [] || learned == []
    ensures out + Merge(lsm, learned) == out + lsm + learned
  {
  }

  method MergeKeyValueVectors(lsm: seq<StoredEntry>, learned: seq<StoredEntry>) returns (kvs: seq<StoredEntry>)
    ensures kvs == Merge(lsm, learned)
  {
    assert [] + Merge(lsm, learned) == Merge(lsm, learned);
    hide StringToUll, Merge;
    kvs := [];
    var i, j := 0, 0;
    assert lsm[0..] == lsm && learned[0..] == learned;
    while i < |lsm| && j < |learned|
      invariant i <= |lsm| && j <= |learned|
      invariant kvs + Merge(lsm[i..], learned[j..]) == Merge(lsm, learned)
      decreases |lsm| - i + |learned| - j
    {
      var a, b := lsm[i].Num(), learned[j].Num();
      MergeStep(lsm, learned, i, j, kvs);
      if a < b {
        kvs := kvs + [lsm[i]];
        i := i + 1;
      } else if a > b {
        kvs := kvs + [learned[j]];
        j := j + 1;
      } else {
        kvs := kvs + [lsm[i]];
        i := i + 1;
        j := j + 1;
      }
    }
    MergeTail(lsm[i..], learned[j..], kvs);
    kvs := kvs + lsm[i..];
    kvs := kvs + learned[j..];
  }

  ghost predicate Above(es: seq<StoredEntry>, k: Key) {
    forall i :: 0 <= i < |es| ==> k < es[i].Num()
  }

  lemma TailAbove(es: seq<StoredEntry>)
    requires Ascending(es) && es != []
    ensures Ascending(es[1..]) && Above(es[1..], es[0].Num())
  {
  }

  lemma PrependAscends(e: StoredEntry, es: seq<StoredEntry>)
    requires Ascending(es) && Above(es, e.Num())
    ensures Ascending([e] + es)
  {
    hide StringToUll;
    var all := [e] + es;
    forall i, j | 0 <= i < j < |all| ensures all[i].Num() < all[j].Num() {
      assert all[j] == es[j - 1];
      if i > 0 {
        assert all[i] == es[i - 1];
      }
    }
  }

  lemma {:induction false} AboveIsMissing(es: seq<StoredEntry>, k: Key)
    requires forall i :: 0 <= i < |es| ==> es[i].Num() != k
    ensures Find(es, k) == None
  {
    if es != [] {
      AboveIsMissing(es[1..], k);
    }
  }

  lemma {:induction false} MergeAbove(lsm: seq<StoredEntry>, learned: seq<StoredEntry>, k: Key)
    requires Above(lsm, k) && Above(learned, k)
    ensures Above(Merge(lsm, learned), k)
    decreases |lsm| + |learned|
  {
    if lsm != [] && learned != [] {
      if lsm[0].Num() < learned[0].Num() {
        MergeAbove(lsm[1..], learned, k);
      } else if lsm[0].Num() > learned[0].Num() {
        MergeAbove(lsm, learned[1..], k);
      } else {
        MergeAbove(lsm[1..], learned[1..], k);
      }
    }
  }

  lemma {:induction false} MergeAscends(lsm: seq<StoredEntry>, learned: seq<StoredEntry>)
    requires Ascending(lsm) && Ascending(learned)
    ensures Ascending(Merge(lsm, learned))
    decreases |lsm| + |learned|
  {
    if lsm != [] && learned != [] {
      hide StringToUll;
      TailAbove(lsm);
      TailAbove(learned);
      var a, b := lsm[0].Num(), learned[0].Num();
      var lsm', learned' := if a <= b then lsm[1..] else lsm, if b <= a then learned[1..] else learned;
      var head := if a <= b then lsm[0] else learned[0];
      MergeAscends(lsm', learned');
      assert Above(lsm', head.Num()) && Above(learned', head.Num());
      MergeAbove(lsm', learned', head.Num());
      PrependAscends(head, Merge(lsm', learned'));
    }
  }

  lemma FirstIsLeast(es: seq<StoredEntry>, k: Key)
    requires Ascending(es) && es != [] && k < es[0].Num()
    ensures Above(es, k)
  {
  }

  lemma MergeFirst(lsm: seq<StoredEntry>, learned: seq<StoredEntry>)
    ensures if lsm == [] then Merge(lsm, learned) == learned
            else if learned == [] then Merge(lsm, learned) == lsm
            else
              var a, b, all := lsm[0].Num(), learned[0].Num(), Merge(lsm, learned);
              && all != [] && all[0] == (if a <= b then lsm[0] else learned[0])
              && all[1..] == Merge(if a <= b then lsm[1..] else lsm, if b <= a then learned[1..] else learned)
  {
    hide StringToUll;
  }

  /** In the merged range the key-value store's entry for a key overrides the learned one. */
  lemma {:induction false} MergeOverrides(lsm: seq<StoredEntry>, learned: seq<StoredEntry>, k: Key)
    requires Ascending(lsm) && Ascending(learned)
    ensures Find(Merge(lsm, learned), k) == if Find(lsm, k).Some? then Find(lsm, k) else Find(learned, k)
    decreases |lsm| + |learned|
  {
    hide StringToUll, Entry.Num, Merge, Ascending;
    MergeFirst(lsm, learned);
    if lsm != [] && learned != [] {
      TailAbove(lsm);
      TailAbove(learned);
      var a, b := lsm[0].Num(), learned[0].Num();
      var lsm', learned' := if a <= b then lsm[1..] else lsm, if b <= a then learned[1..] else learned;
      MergeOverrides(lsm', learned', k);
      if b < a && k == b {
        FirstIsLeast(lsm, k);
        AboveIsMissing(lsm, k);
      }
    }
  }
}
