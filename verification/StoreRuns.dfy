/** Whole runs of the store, and the one state in which it cannot answer. */
module StoreRuns {
  import opened KeyCodec
  import opened StoreSpec
  import opened LearnedStore
  import LI = LearnedIndex

  /** What a run leaves behind: how many records the last collection kept, the keys put since, and the keys
      of the last collection that kept two or more, which are those of the index files. */
  datatype History = History(kept: nat, since: set<Key>, indexed: set<nat>)

  function Past(puts: seq<Record>, groupSize: nat): History {
    if puts == [] then History(0, {}, {})
    else
      var front := puts[..|puts| - 1];
      After(Past(front, groupSize), Run(front, groupSize), groupSize, puts[|puts| - 1].key)
  }

  function After(h: History, st: StoreState, groupSize: nat, key: Key): History {
    if NeedsCollection(st.used, groupSize) then
      var m := DropGreatest(st.content);
      History(|m|, {key}, if |m| >= 2 then m.Keys else h.indexed)
    else
      h.(since := h.since + {key})
  }

  ghost predicate LastPut(puts: seq<Record>, key: Key, j: nat) {
    j < |puts| && puts[j].key == key && IsLast(puts, j)
  }

  /** The learned index can answer for the key: the last collection did not keep one single record, or the key
      was put since, or it is the least key the files on disk were built for. */
  ghost predicate Answerable(h: History, key: Key) {
    h.kept != 1 || key in h.since || Least(key, h.indexed)
  }

  /** Some other key's value comes back, or none at all. */
  ghost predicate OtherPut(puts: seq<Record>, key: Key, r: GetResult) {
    r == Undefined || exists i :: 0 <= i < |puts| && puts[i].key != key && r == Found(puts[i].value)
  }

  /** Records of different keys have different values. */
  ghost predicate ValuesTell(puts: seq<Record>) {
    forall i, j :: 0 <= i < |puts| && 0 <= j < |puts| && puts[i].key != puts[j].key ==> puts[i].value != puts[j].value
  }

  /** After any puts on a new store, a key that survived the collections since its last put is found with the
      value of that put: always without the learned index, and with it when it is answerable. Otherwise the
      value of another key comes back, or none, and so, where values tell keys apart, never that of the last put.
      Without the learned index every other key is missing. */
  method PutAllThenGet(learned: bool, groupSize: nat, hash: Key -> nat, puts: seq<Record>, key: Key, memory: seq<nat>)
    returns (r: GetResult)
    requires RECORD_SIZE <= groupSize <= MAX_RECORDS * RECORD_SIZE && |memory| == 2 * LI.ERR_BOUND
    ensures !learned || Answerable(Past(puts, groupSize), key) ==>
              forall j: nat :: LastPut(puts, key, j) && Survives(puts, groupSize, key, j) ==> r == Found(puts[j].value)
    ensures learned && !Answerable(Past(puts, groupSize), key) ==>
              forall j: nat :: LastPut(puts, key, j) && Survives(puts, groupSize, key, j) ==>
                OtherPut(puts, key, r) && (ValuesTell(puts) ==> r != Found(puts[j].value))
    ensures !learned ==>
              forall j: nat :: LastPut(puts, key, j) && !Survives(puts, groupSize, key, j) ==> r == Missing
    ensures !learned && (forall j :: 0 <= j < |puts| ==> puts[j].key != key) ==> r == Missing
  {
    hide Run, Past, LastWrites, Survives, LastPut, LearnedKV.Valid, Least, FilterKeys, IndexedKeys, OtherRecord, OtherPut, ValuesTell;
    var store := PutAll(learned, groupSize, hash, puts);
    r := store.Get(key, memory);
    if key in LastWrites(store.log) {
      ReadableIs(store, key);
    }
    forall j: nat | LastPut(puts, key, j)
      ensures j < |puts|
      ensures key in LastWrites(store.log) <==> Survives(puts, groupSize, key, j)
      ensures key in LastWrites(store.log) ==> LastWrites(store.log)[key] == puts[j].value
      ensures OtherPut(puts, key, r) && ValuesTell(puts) ==> r != Found(puts[j].value)
    {
      LastPutDecides(puts, groupSize, key, j);
      if OtherPut(puts, key, r) && ValuesTell(puts) {
        OtherIsWrong(puts, key, r, j);
      }
    }
    OtherWasPut(store.log, puts, key, r);
    if forall j :: 0 <= j < |puts| ==> puts[j].key != key {
      NeverPut(puts, groupSize, key);
    }
  }

  method PutAll(learned: bool, groupSize: nat, hash: Key -> nat, puts: seq<Record>) returns (store: LearnedKV)
    requires RECORD_SIZE <= groupSize <= MAX_RECORDS * RECORD_SIZE
    ensures store.Valid() && store.learned == learned && store.groupSize == groupSize
    ensures store.Abstract() == Run(puts, groupSize) && Remembers(store, Past(puts, groupSize))
    ensures ComeFrom(store.log, puts)
  {
    hide LearnedKV.Valid, Run, Past, PutSpec, LastWrites, Remembers, ComeFrom;
    store := new LearnedKV(learned, groupSize, hash);
    NoPutsYet(store, groupSize);
    for i := 0 to |puts|
      invariant store.Valid() && fresh(store) && fresh(store.filter) && fresh(store.filter.bits)
      invariant store.learned == learned && store.groupSize == groupSize
      invariant store.Abstract() == Run(puts[..i], groupSize)
      invariant Remembers(store, Past(puts[..i], groupSize))
      invariant ComeFrom(store.log, puts[..i])
    {
      OneMorePut(puts, groupSize, i);
      PutNext(store, puts[..i], puts[i], Past(puts[..i], groupSize));
      assert puts[..i + 1] == puts[..i] + [puts[i]];
    }
    assert puts[..|puts|] == puts;
  }

  /** The store carries the history in its log and index files. */
  ghost predicate Remembers(store: LearnedKV, h: History)
    reads store
  {
    && store.base == h.kept && FilterKeys(store.log, store.base) == h.since
    && (store.learned ==> IndexedKeys(store.index) == h.indexed)
  }

  lemma LastPutDecides(puts: seq<Record>, groupSize: nat, key: Key, j: nat)
    requires LastPut(puts, key, j)
    ensures j < |puts|
    ensures var m := Run(puts, groupSize).content;
      (key in m <==> Survives(puts, groupSize, key, j)) && (key in m ==> m[key] == puts[j].value)
  {
    LastPutIsKept(puts, groupSize, j);
  }

  lemma NeverPut(puts: seq<Record>, groupSize: nat, key: Key)
    requires forall j :: 0 <= j < |puts| ==> puts[j].key != key
    ensures key !in Run(puts, groupSize).content
  {
    if key in Run(puts, groupSize).content {
      NothingInvented(puts, groupSize, key);
    }
  }

  /** A key of the log is readable unless it is that of a collection's only record and was not put since. */
  lemma ReadableIs(store: LearnedKV, key: Key)
    requires store.Valid() && key in LastWrites(store.log)
    ensures store.learned ==>
      (store.Readable(key) <==> store.base != 1 || key in FilterKeys(store.log, store.base))
  {
    hide LastWrites, KeysAscend, LsmOf, Sound, Leads;
    WritesComeFromLog(store.log, key);
    var i :| 0 <= i < |store.log| && store.log[i].key == key;
  }

  lemma OtherWasPut(log: seq<Record>, puts: seq<Record>, key: Key, r: GetResult)
    requires ComeFrom(log, puts)
    ensures OtherRecord(log, key, r) ==> OtherPut(puts, key, r)
  {
    if OtherRecord(log, key, r) && r != Undefined {
      var i :| 0 <= i < |log| && log[i].key != key && r == Found(log[i].value);
      assert log[i] in puts;
    }
  }

  /** Another key's record has another value. */
  lemma OtherIsWrong(puts: seq<Record>, key: Key, r: GetResult, j: nat)
    requires LastPut(puts, key, j) && OtherPut(puts, key, r) && ValuesTell(puts)
    ensures r != Found(puts[j].value)
  {
  }

  /** A put moves the history on. */
  method PutNext(store: LearnedKV, ghost before: seq<Record>, r: Record, ghost h: History)
    requires store.Valid() && Remembers(store, h) && ComeFrom(store.log, before)
    modifies store, store.filter, store.filter.bits
    ensures store.Valid() && store.Abstract() == PutSpec(old(store.Abstract()), store.groupSize, r)
    ensures Remembers(store, After(h, old(store.Abstract()), store.groupSize, r.key))
    ensures ComeFrom(store.log, before + [r])
  {
    hide FilterKeys, IndexedKeys, DropGreatest, LastWrites, PutSpec, KeysAscend, Sound, Leads, LsmOf, ComeFrom;
    ghost var log := store.log;
    store.Put(r.key, r.value);
    ComeFromStep(store.log, log, before, r);
  }

  lemma NoPutsYet(store: LearnedKV, groupSize: nat)
    requires store.base == 0 && store.log == [] && store.index == NoIndex
    ensures Run([], groupSize) == EMPTY && Remembers(store, Past([], groupSize)) && ComeFrom(store.log, [])
  {
  }

  lemma OneMorePut(puts: seq<Record>, groupSize: nat, i: nat)
    requires i < |puts|
    ensures Run(puts[..i + 1], groupSize) == PutSpec(Run(puts[..i], groupSize), groupSize, puts[i])
    ensures Past(puts[..i + 1], groupSize)
         == After(Past(puts[..i], groupSize), Run(puts[..i], groupSize), groupSize, puts[i].key)
  {
    assert puts[..i + 1][..i] == puts[..i];
  }

  /** With the learned index, a collection that finds exactly two live keys leaves one record
      that no index leads to: here the lookup of key 1 has no index files to read. */
  method TwoLiveKeysAtCollection(hash: Key -> nat, memory: seq<nat>) returns (r: GetResult)
    requires |memory| == 2 * LI.ERR_BOUND
    ensures r == Undefined
    ensures var puts := [Record(1, []), Record(2, []), Record(3, [])];
      1 in Run(puts, 2 * RECORD_SIZE).content && !Answerable(Past(puts, 2 * RECORD_SIZE), 1)
  {
    var groupSize := 2 * RECORD_SIZE;
    ThreePuts();
    ThreePutsPast();
    hide LearnedKV.Valid, Run, Past, LastWrites, DropGreatest;
    var store := new LearnedKV(true, groupSize, hash);
    store.Put(1, []);
    store.Put(2, []);
    store.Put(3, []);
    assert store.log[1] == Record(3, []);
    r := store.Get(1, memory);
  }

  lemma ThreePuts()
    ensures var g, a, b, c := 2 * RECORD_SIZE, Record(1, []), Record(2, []), Record(3, []);
      && PutSpec(EMPTY, g, a) == StoreState(map[1 := []], 1)
      && PutSpec(StoreState(map[1 := []], 1), g, b) == StoreState(map[1 := [], 2 := []], 2)
      && PutSpec(StoreState(map[1 := [], 2 := []], 2), g, c) == StoreState(map[1 := [], 3 := []], 2)
      && |DropGreatest(map[1 := [], 2 := []])| == 1
      && Run([], g) == EMPTY && Run([a], g) == StoreState(map[1 := []], 1)
      && Run([a, b], g) == StoreState(map[1 := [], 2 := []], 2)
      && Run([a, b, c], g) == StoreState(map[1 := [], 3 := []], 2)
  {
    var g, a, b, c := 2 * RECORD_SIZE, Record(1, []), Record(2, []), Record(3, []);
    var m: map<Key, Value> := map[1 := [], 2 := []];
    assert 2 in m && DropGreatest(m) == map[1 := []];
    assert [a, b, c][..2] == [a, b] && [a, b][..1] == [a] && [a][..0] == [];
    assert Run([a], g) == StoreState(map[1 := []], 1);
    assert Run([a, b], g) == StoreState(m, 2);
  }

  lemma ThreePutsPast()
    ensures var g := 2 * RECORD_SIZE;
      Past([Record(1, []), Record(2, []), Record(3, [])], g) == History(1, {3}, {})
  {
    hide Run, DropGreatest, PutSpec;
    var g, a, b, c := 2 * RECORD_SIZE, Record(1, []), Record(2, []), Record(3, []);
    ThreePuts();
    assert [a, b, c][..2] == [a, b] && [a, b][..1] == [a] && [a][..0] == [];
    assert Past([a], g) == History(0, {1}, {});
    assert Past([a, b], g) == History(0, {1, 2}, {});
  }
}
