/** The store: an append-only value log, a key-to-position store behind a Bloom filter, and a
    learned index that garbage collection rebuilds. */
module LearnedStore {
  import opened Bytes
  import opened KeyCodec
  import opened StoreSpec
  import Bloom
  import LI = LearnedIndex

  // ------------------------------------------------------------------ the key-to-position store

  /** What the key-value store holds after the records from position from on were put. */
  function LsmOf(log: seq<Record>, from: nat): (m: map<seq<byte>, seq<byte>>)
    requires |log| <= MAX_RECORDS
    ensures forall s :: s in m ==> |m[s]| == 8
    decreases |log|
  {
    if |log| <= from then map[]
    else
      var n := |log| - 1;
      LsmOf(log[..n], from)[UllToString(log[n].key) := UllToString(n)]
  }

  lemma {:induction false} LsmLookup(log: seq<Record>, from: nat, key: Key)
    requires |log| <= MAX_RECORDS
    ensures var m, s := LsmOf(log, from), UllToString(key);
      if s in m then
        var p := StringToUll(m[s]);
        from <= p < |log| && log[p].key == key && IsLast(log, p)
      else forall i :: from <= i < |log| ==> log[i].key != key
    decreases |log|
  {
    hide UllToString, StringToUll;
    if |log| > from {
      var n := |log| - 1;
      LsmLookup(log[..n], from, key);
      StringsDiffer(key, log[n].key);
      KeyRoundTrip(n);
      if log[n].key != key {
        assert forall i :: 0 <= i < n ==> log[..n][i] == log[i];
      }
    }
  }

  ghost function FilterKeys(log: seq<Record>, from: nat): set<Key> {
    set i | from <= i < |log| :: log[i].key
  }

  function Keys(rs: seq<Record>): (r: seq<nat>)
    ensures |r| == |rs| && forall i :: 0 <= i < |r| ==> r[i] == rs[i].key
  {
    seq(|rs|, i requires 0 <= i < |rs| => rs[i].key)
  }

  /** The files written for the learned index. */
  datatype IndexFiles = NoIndex | IndexFiles(model: seq<LI.Segment>, keys: seq<nat>)

  /** What the index files hold, if anything: at least two keys, all predicted within the error bound. */
  ghost predicate Sound(index: IndexFiles) {
    index.IndexFiles? ==>
      && |index.keys| >= 2 && LI.Ascending(index.keys) && LI.StartsAscend(index.model)
      && LI.WithinError(index.model, index.keys, LI.Ranks(|index.keys|), |index.keys|, LI.ERR_BOUND as real)
  }

  /** The index leads every one of its keys to its own position. */
  ghost predicate Leads(index: IndexFiles, rs: seq<Record>) {
    index.IndexFiles? && index.keys == Keys(rs) && Sound(index)
  }

  ghost function IndexedKeys(index: IndexFiles): set<nat> {
    if index.NoIndex? then {} else set k: nat | k in index.keys
  }

  ghost predicate Least(key: Key, keys: set<nat>) {
    key in keys && forall k :: k in keys ==> key <= k
  }

  /** Undefined: the files of the index were never written, or the position is past the log. */
  datatype GetResult = Found(value: Value) | Missing | Undefined

  /** Some other key's record was read, or none that exists. */
  ghost predicate OtherRecord(log: seq<Record>, key: Key, r: GetResult) {
    r == Undefined || exists i :: 0 <= i < |log| && log[i].key != key && r == Found(log[i].value)
  }

  class LearnedKV {
    const learned: bool
    const groupSize: nat
    var log: seq<Record>
    var writePos: nat
    var lsm: map<seq<byte>, seq<byte>>
    const filter: Bloom.BloomFilter
    var index: IndexFiles

    /** How many records the last collection wrote; they come first in the log. */
    ghost var base: nat

    ghost function LsmFrom(): nat
      reads this
    {
      if learned then base else 0
    }

    ghost predicate Valid()
      reads this, filter, filter.bits
    {
      && RECORD_SIZE <= groupSize <= MAX_RECORDS * RECORD_SIZE
      && writePos == |log| && writePos * RECORD_SIZE <= groupSize && base <= |log|
      && KeysAscend(log[..base])
      && lsm == LsmOf(log, LsmFrom())
      && filter.Valid() && filter.keys == FilterKeys(log, LsmFrom())
      && Sound(index)
      && (learned && base >= 2 ==> Leads(index, log[..base]))
    }

    /** The abstract state of the store. */
    ghost function Abstract(): StoreState
      reads this
    {
      StoreState(LastWrites(log), |log|)
    }

    /** The index does not lead to the collection's record when there was exactly one, until its
        key is put again: the files on disk, if any, are those of an earlier collection. */
    ghost predicate Readable(key: Key)
      requires base <= |log|
      reads this
    {
      learned && base == 1 ==> log[0].key != key || key in FilterKeys(log, 1)
    }

    constructor (learned: bool, groupSize: nat, hash: Key -> nat)
      requires RECORD_SIZE <= groupSize <= MAX_RECORDS * RECORD_SIZE
      ensures Valid() && fresh(filter) && fresh(filter.bits)
      ensures Abstract() == EMPTY && index == NoIndex && base == 0
      ensures this.learned == learned && this.groupSize == groupSize
    {
      this.learned, this.groupSize := learned, groupSize;
      log, writePos, lsm := [], 0, map[];
      filter := new Bloom.BloomFilter(hash);
      index := NoIndex;
      base := 0;
    }

    method Put(key: Key, value: Value)
      requires Valid()
      modifies this, filter, filter.bits
      ensures Valid()
      ensures Abstract() == PutSpec(old(Abstract()), groupSize, Record(key, value))
      ensures NeedsCollection(old(|log|), groupSize) <==> old(|log|) * 1024 + 1024 > groupSize
      ensures if NeedsCollection(old(|log|), groupSize) then base == |DropGreatest(old(LastWrites(log)))| else base == old(base)
      ensures !NeedsCollection(old(|log|), groupSize) ==> log == old(log) + [Record(key, value)]
      ensures log[|log| - 1] == Record(key, value) && ComeFrom(log, old(log) + [Record(key, value)])
      ensures !NeedsCollection(old(|log|), groupSize) || !learned || base < 2 ==> index == old(index)
      ensures FilterKeys(log, base) == (if NeedsCollection(old(|log|), groupSize) then {} else old(FilterKeys(log, base))) + {key}
      ensures NeedsCollection(old(|log|), groupSize) && learned && base >= 2 ==>
                IndexedKeys(index) == DropGreatest(old(LastWrites(log))).Keys
    {
      hide LastWrites, LsmOf, FilterKeys, Leads, DropGreatest, UllToString;
      if (writePos + 1) * RECORD_SIZE > groupSize {
        CollectionFrees(log, groupSize);
        CollectGarbage();
      }
      assert (writePos + 1) * RECORD_SIZE <= groupSize;
      assert writePos < MAX_RECORDS;
      ghost var before, r := log, Record(key, value);
      LsmStep(before, r, LsmFrom());
      LastWritesStep(before, r);
      AppendFilterKey(before, r, LsmFrom());
      AppendFilterKey(before, r, base);
      log := log + [Record(key, value)];
      assert log[..base] == before[..base];
      var ptr := UllToString(writePos);
      lsm := lsm[UllToString(key) := ptr];
      writePos := writePos + 1;
      filter.Insert(key);
    }

    method Get(key: Key, memory: seq<nat>) returns (r: GetResult)
      requires Valid() && |memory| == 2 * LI.ERR_BOUND
      ensures key in LastWrites(log) && (Readable(key) || Least(key, IndexedKeys(index))) ==>
                r == Found(LastWrites(log)[key])
      ensures key in LastWrites(log) && !Readable(key) && !Least(key, IndexedKeys(index)) ==> OtherRecord(log, key, r)
      ensures !learned && key !in LastWrites(log) ==> r == Missing
      ensures learned && index.NoIndex? && key !in FilterKeys(log, base) ==> r == Undefined
    {
      LsmLookup(log, LsmFrom(), key);
      WritesComeFromLog(log, key);
      var possible := filter.PossiblyContains(key);
      if possible {
        var keyStr := UllToString(key);
        if keyStr in lsm {
          var pos := StringToUll(lsm[keyStr]);
          LastWriteAt(log, pos);
          return Found(log[pos].value);
        }
      }
      if !learned {
        return Missing;
      }
      if index.NoIndex? {
        return Undefined;
      }
      var pos := LI.LocateKey(index.model, index.keys, key, memory);
      if key in LastWrites(log) && Readable(key) {
        FoundByIndex(log, base, index, key, pos);
      } else if key in LastWrites(log) {
        LoneRecord(log, index, key, pos);
      }
      if pos >= |log| {
        return Undefined;
      }
      return Found(log[pos].value);
    }

    /** Keeps the latest record of every key but the greatest, in key order, and rebuilds
        either the key-value store or the learned index over them. */
    method CollectGarbage()
      requires Valid() && NeedsCollection(|log|, groupSize)
      modifies this, filter, filter.bits
      ensures Valid()
      ensures Abstract() == Collect(old(Abstract()))
      ensures base == |log| && FilterKeys(log, base) == {} && ComeFrom(log, old(log))
      ensures !learned || base < 2 ==> index == old(index)
      ensures learned && base >= 2 ==> IndexedKeys(index) == DropGreatest(old(LastWrites(log))).Keys
    {
      hide LsmOf, FilterKeys, DropGreatest, LastWrites, IndexedKeys, LI.Ascending, LI.Ranks;
      var validMap := LiveRecords();
      CollectionFrees(log, groupSize);
      var valid := SortRecords(validMap);
      WithoutLast(valid, validMap);
      ListedOccur(valid, log);
      assert KeysAscend(valid[..|valid| - 1]);
      var keys, positions := RewriteLog(valid);
      NothingLater(log);
      base := |log|;
      assert log[..base] == log;
      if learned {
        BuildIndex(keys, positions);
      }
    }

    /** Writes the index files, unless there are fewer than two keys. */
    method BuildIndex(keys: seq<nat>, positions: seq<real>)
      requires keys == Keys(log) && KeysAscend(log) && LI.Ascending(keys) && positions == LI.Ranks(|keys|)
      modifies this`index
      ensures if |log| < 2 then index == old(index)
              else Leads(index, log) && IndexedKeys(index) == LastWrites(log).Keys
    {
      hide LastWrites, IndexedKeys, KeysAscend;
      var built, model := LI.Build(keys, positions, LI.ERR_BOUND as real);
      if built {
        index := IndexFiles(model, keys);
        KeysOfLog(log, index);
      }
    }

    /** Reads the value log from the start; later records of a key replace earlier ones. */
    method LiveRecords() returns (validMap: map<Key, Value>)
      ensures validMap == LastWrites(log)
    {
      validMap := map[];
      for i := 0 to |log|
        invariant validMap == LastWrites(log[..i])
      {
        validMap := validMap[log[i].key := log[i].value];
        assert log[..i + 1][..i] == log[..i];
      }
      assert log[..|log|] == log;
    }

    /** The rewrite loop: every valid record but the last. */
    method RewriteLog(valid: seq<Record>) returns (keys: seq<nat>, positions: seq<real>)
      requires valid != [] && KeysAscend(valid[..|valid| - 1]) && |valid| <= MAX_RECORDS && filter.Valid()
      modifies this`log, this`writePos, this`lsm, filter, filter.bits
      ensures log == valid[..|valid| - 1] && writePos == |log|
      ensures filter.Valid() && filter.keys == if learned then {} else FilterKeys(log, 0)
      ensures lsm == if learned then map[] else LsmOf(log, 0)
      ensures learned ==> keys == Keys(log) && LI.Ascending(keys) && positions == LI.Ranks(|keys|)
    {
      hide LsmOf, FilterKeys, UllToString, KeysAscend, LI.Ascending, Keys, LI.Ranks, NeedsCollection, LastWrites;
      NothingRewritten();
      KeysOfAscending(valid[..|valid| - 1]);
      lsm := map[];
      filter.Reset();
      log := [];
      writePos := 0;
      keys, positions := [], [];
      var batch: map<seq<byte>, seq<byte>> := map[];
      for it := 0 to |valid| - 1
        invariant log == valid[..it] && writePos == it
        invariant filter.Valid() && filter.keys == if learned then {} else FilterKeys(log, 0)
        invariant batch == if learned then map[] else LsmOf(log, 0)
        invariant lsm == map[]
        invariant learned ==> keys == Keys(log) && positions == LI.Ranks(it)
      {
        var r := valid[it];
        ghost var before := log;
        log := log + [r];
        assert log == valid[..it + 1];
        AppendFilterKey(before, r, 0);
        LsmStep(before, r, 0);
        IndexInputStep(before, r);
        if learned {
          keys := keys + [r.key];
          positions := positions + [writePos as real];
        }
        if !learned {
          batch := batch[UllToString(r.key) := UllToString(writePos)];
          filter.Insert(r.key);
        }
        writePos := writePos + 1;
      }
      if !learned {
        lsm := lsm + batch;
      }
    }
  }

  lemma {:induction false} NotMoreKeysThanRecords(log: seq<Record>)
    ensures |LastWrites(log)| <= |log| && (log != [] ==> LastWrites(log) != map[])
  {
    if log != [] {
      NotMoreKeysThanRecords(log[..|log| - 1]);
    }
  }

  /** Deduplication and the greatest key left out always make room for one more record. */
  lemma CollectionFrees(log: seq<Record>, groupSize: nat)
    requires groupSize >= RECORD_SIZE && |log| * RECORD_SIZE <= groupSize && NeedsCollection(|log|, groupSize)
    ensures log != [] && LastWrites(log) != map[]
    ensures |DropGreatest(LastWrites(log))| < |log|
  {
    NotMoreKeysThanRecords(log);
    DropGreatestShrinks(LastWrites(log));
  }

  /** The keys of an ascending log are those of its map. */
  lemma KeysOfLog(log: seq<Record>, index: IndexFiles)
    requires KeysAscend(log) && index.IndexFiles? && index.keys == Keys(log)
    ensures IndexedKeys(index) == LastWrites(log).Keys
  {
    AscendingLogIsMap(log);
    hide LastWrites;
    var m := LastWrites(log);
    forall k: nat ensures k in m <==> k in index.keys {
      if k in m {
        var i := ListedAt(log, m, k);
        assert index.keys[i] == k;
      }
      if k in index.keys {
        var i :| 0 <= i < |index.keys| && index.keys[i] == k;
        assert log[i].key in m;
      }
    }
  }

  lemma NothingRewritten()
    ensures FilterKeys([], 0) == {} && LsmOf([], 0) == map[] && Keys([]) == [] && LI.Ranks(0) == []
  {
  }

  lemma KeysOfAscending(rs: seq<Record>)
    requires KeysAscend(rs)
    ensures LI.Ascending(Keys(rs))
  {
  }

  /** The contents of the valid records sorted by key. */
  method SortRecords(m: map<Key, Value>) returns (rs: seq<Record>)
    ensures Lists(rs, m)
  {
    rs := [];
    var left := m.Keys;
    while left != {}
      invariant SortState(rs, left, m)
      decreases |left|
    {
      ghost var least := LeastKey(left);
      var k: Key :| k in left && forall j :: j in left ==> k <= j;
      SortStep(rs, left, m, k);
      rs := rs + [Record(k, m[k])];
      left := left - {k};
    }
  }

  ghost predicate SortState(rs: seq<Record>, left: set<Key>, m: map<Key, Value>) {
    && left <= m.Keys && KeysAscend(rs) && |rs| + |left| == |m|
    && (forall i :: 0 <= i < |rs| ==> rs[i].key in m && m[rs[i].key] == rs[i].value)
    && (forall i, k :: 0 <= i < |rs| && k in left ==> rs[i].key < k)
    && (forall k :: k in m && k !in left ==> HasKey(rs, k))
  }

  lemma SortStep(rs: seq<Record>, left: set<Key>, m: map<Key, Value>, k: Key)
    requires SortState(rs, left, m) && k in left && forall j :: j in left ==> k <= j
    ensures SortState(rs + [Record(k, m[k])], left - {k}, m)
  {
    var rs' := rs + [Record(k, m[k])];
    assert rs'[|rs|].key == k;
    forall j | j in m && j !in left - {k} ensures HasKey(rs', j) {
      if j != k {
        assert HasKey(rs, j);
        var i :| 0 <= i < |rs| && rs[i].key == j;
        assert rs'[i].key == j;
      }
    }
  }

  lemma {:induction false} LeastKey(s: set<Key>) returns (least: Key)
    requires s != {}
    ensures least in s && forall j :: j in s ==> least <= j
    decreases s
  {
    var k :| k in s;
    if s == {k} {
      least := k;
    } else {
      var l := LeastKey(s - {k});
      least := if k < l then k else l;
      assert forall j :: j in s ==> j == k || j in s - {k};
    }
  }

  /** A live key that is not in the key-value store is found by the index. */
  lemma FoundByIndex(log: seq<Record>, base: nat, index: IndexFiles, key: Key, pos: nat)
    requires base <= |log| && KeysAscend(log[..base]) && Leads(index, log[..base])
    requires key in LastWrites(log) && forall i :: base <= i < |log| ==> log[i].key != key
    requires LI.Located(index.model, index.keys, key, pos)
    ensures pos < |log| && log[pos].value == LastWrites(log)[key]
  {
    WritesComeFromLog(log, key);
    var i :| 0 <= i < |log| && log[i].key == key;
    assert log[..base][i] == log[i];
    assert index.keys[i] == key;
    LI.RankInWindow(index.model, key, i);
    assert pos == i;
    forall j | i < j < |log| ensures log[j].key != log[i].key {
      if j < base {
        assert log[..base][i].key < log[..base][j].key;
      }
    }
    LastWriteAt(log, i);
  }

  /** The only record of a collection, its key not put since, is at position 0: the stale index leads there
      exactly when the key was also the least one when the index was built. */
  lemma LoneRecord(log: seq<Record>, index: IndexFiles, key: Key, pos: nat)
    requires log != [] && log[0].key == key && forall i :: 1 <= i < |log| ==> log[i].key != key
    requires index.IndexFiles? && Sound(index)
    requires LI.Located(index.model, index.keys, key, pos)
    ensures pos == 0 <==> Least(key, IndexedKeys(index))
    ensures key in LastWrites(log) && LastWrites(log)[key] == log[0].value
  {
    hide Sound, LI.Ascending, LastWrites, IndexedKeys, Least;
    LastWriteAt(log, 0);
    LeastIsFirst(index, key);
    if index.keys[0] == key {
      FirstInWindow(index);
    }
  }

  lemma LeastIsFirst(index: IndexFiles, key: Key)
    requires index.IndexFiles? && Sound(index)
    ensures |index.keys| >= 2 && LI.Ascending(index.keys)
    ensures Least(key, IndexedKeys(index)) <==> index.keys[0] == key
  {
    var first := index.keys[0];
    assert first in index.keys;
    assert first in IndexedKeys(index);
    if first != key && key in index.keys {
      var i :| 0 <= i < |index.keys| && index.keys[i] == key;
      assert index.keys[0] < index.keys[i];
    }
  }

  lemma FirstInWindow(index: IndexFiles)
    requires index.IndexFiles? && Sound(index)
    ensures |index.keys| > 0 && LI.InWindow(index.model, index.keys[0], 0)
  {
    LI.RankInWindow(index.model, index.keys[0], 0);
  }

  lemma NothingLater(log: seq<Record>)
    requires |log| <= MAX_RECORDS
    ensures LsmOf(log, |log|) == map[] && FilterKeys(log, |log|) == {}
  {
  }

  lemma IndexInputStep(log: seq<Record>, r: Record)
    ensures Keys(log + [r]) == Keys(log) + [r.key]
    ensures LI.Ranks(|log| + 1) == LI.Ranks(|log|) + [|log| as real]
  {
  }

  lemma LsmStep(log: seq<Record>, r: Record, from: nat)
    requires from <= |log| < MAX_RECORDS
    ensures LsmOf(log + [r], from) == LsmOf(log, from)[UllToString(r.key) := UllToString(|log|)]
  {
    assert (log + [r])[..|log|] == log;
  }

  lemma LastWritesStep(log: seq<Record>, r: Record)
    ensures LastWrites(log + [r]) == LastWrites(log)[r.key := r.value]
  {
    assert (log + [r])[..|log|] == log;
  }

  lemma AppendFilterKey(log: seq<Record>, r: Record, from: nat)
    requires from <= |log|
    ensures FilterKeys(log + [r], from) == FilterKeys(log, from) + {r.key}
  {
    var log' := log + [r];
    assert log'[|log|] == r;
    forall k ensures k in FilterKeys(log', from) <==> k in FilterKeys(log, from) + {r.key} {
      if k in FilterKeys(log, from) {
        var i :| from <= i < |log| && log[i].key == k;
        assert log'[i].key == k;
      }
    }
  }
}
