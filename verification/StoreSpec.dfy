/** What the store means: a map that every put updates and that loses its greatest key at
    every garbage collection. */
module StoreSpec {
  import opened Bytes
  import opened KeyCodec

  type Value = seq<byte>

  datatype Record = Record(key: Key, value: Value)

  const RECORD_SIZE: nat := 1024
  const MAX_RECORDS: nat := 100000000

  /** The latest value of every key in the value log. */
  function LastWrites(log: seq<Record>): map<Key, Value> {
    if log == [] then map[]
    else
      var n := |log| - 1;
      LastWrites(log[..n])[log[n].key := log[n].value]
  }

  /** The abstract effect of a garbage collection. */
  function DropGreatest(m: map<Key, Value>): map<Key, Value> {
    map k | k in m && exists j :: j in m && k < j :: m[k]
  }

  /** Position i holds the last record of its key. */
  ghost predicate IsLast(log: seq<Record>, i: nat)
    requires i < |log|
  {
    forall j :: i < j < |log| ==> log[j].key != log[i].key
  }

  lemma {:induction false} LastWriteAt(log: seq<Record>, i: nat)
    requires i < |log| && IsLast(log, i)
    ensures log[i].key in LastWrites(log) && LastWrites(log)[log[i].key] == log[i].value
    decreases |log|
  {
    var n := |log| - 1;
    if i < n {
      assert log[n].key != log[i].key;
      LastWriteAt(log[..n], i);
    }
  }

  lemma {:induction false} WritesComeFromLog(log: seq<Record>, key: Key)
    ensures key in LastWrites(log) <==> exists i :: 0 <= i < |log| && log[i].key == key
  {
    if log != [] {
      var n := |log| - 1;
      WritesComeFromLog(log[..n], key);
      if key in LastWrites(log[..n]) {
        var i :| 0 <= i < n && log[..n][i].key == key;
        assert log[i].key == key;
      }
      if i :| 0 <= i < |log| && log[i].key == key {
        assert i < n ==> log[..n][i].key == key;
      }
    }
  }

  /** Every record of one log is also in the other. */
  ghost predicate ComeFrom(log: seq<Record>, puts: seq<Record>) {
    forall i :: 0 <= i < |log| ==> log[i] in puts
  }

  lemma ComeFromStep(log: seq<Record>, mid: seq<Record>, puts: seq<Record>, r: Record)
    requires ComeFrom(log, mid + [r]) && ComeFrom(mid, puts)
    ensures ComeFrom(log, puts + [r])
  {
    forall i | 0 <= i < |log| ensures log[i] in puts + [r] {
      if log[i] != r {
        assert log[i] in mid;
      }
    }
  }

  lemma {:induction false} LastWriteOccurs(log: seq<Record>, key: Key)
    requires key in LastWrites(log)
    ensures Record(key, LastWrites(log)[key]) in log
  {
    var n := |log| - 1;
    if log[n].key == key {
      assert log[n] in log;
    } else {
      LastWriteOccurs(log[..n], key);
      assert log == log[..n] + [log[n]];
    }
  }

  // ------------------------------------------------------------------ sorted records

  ghost predicate KeysAscend(rs: seq<Record>) {
    forall i, j :: 0 <= i < j < |rs| ==> rs[i].key < rs[j].key
  }

  /** rs lists the map in ascending key order. */
  ghost predicate Lists(rs: seq<Record>, m: map<Key, Value>) {
    && KeysAscend(rs)
    && |rs| == |m|
    && (forall i :: 0 <= i < |rs| ==> rs[i].key in m && m[rs[i].key] == rs[i].value)
    && (forall k :: k in m ==> HasKey(rs, k))
  }

  ghost predicate HasKey(rs: seq<Record>, k: Key) {
    exists i :: 0 <= i < |rs| && rs[i].key == k
  }

  lemma ListedOccur(rs: seq<Record>, log: seq<Record>)
    requires Lists(rs, LastWrites(log))
    ensures ComeFrom(rs, log)
  {
    forall i | 0 <= i < |rs| ensures rs[i] in log {
      LastWriteOccurs(log, rs[i].key);
    }
  }

  /** Position of a listed key. */
  lemma ListedAt(rs: seq<Record>, m: map<Key, Value>, k: Key) returns (i: nat)
    requires Lists(rs, m) && k in m
    ensures i < |rs| && rs[i].key == k && m[k] == rs[i].value
  {
    assert HasKey(rs, k);
    i :| 0 <= i < |rs| && rs[i].key == k;
  }

  lemma {:induction false} AscendingLogIsMap(rs: seq<Record>)
    requires KeysAscend(rs)
    ensures Lists(rs, LastWrites(rs))
  {
    if rs != [] {
      var n := |rs| - 1;
      assert KeysAscend(rs[..n]) && rs[..n] + [rs[n]] == rs;
      assert LastWrites(rs) == LastWrites(rs[..n])[rs[n].key := rs[n].value];
      hide Lists, KeysAscend, LastWrites;
      AscendingLogIsMap(rs[..n]);
      AppendGreatest(rs[..n], LastWrites(rs[..n]), rs[n]);
    }
  }

  lemma AppendGreatest(front: seq<Record>, m: map<Key, Value>, last: Record)
    requires Lists(front, m) && KeysAscend(front + [last])
    ensures Lists(front + [last], m[last.key := last.value])
  {
    var rs, m' := front + [last], m[last.key := last.value];
    assert rs[|front|] == last;
    forall i | 0 <= i < |front| ensures front[i].key != last.key && rs[i] == front[i] {
      assert rs[i].key < rs[|front|].key;
    }
    assert last.key !in m;
    forall k | k in m' ensures HasKey(rs, k) {
      if k != last.key {
        var i := ListedAt(front, m, k);
        assert rs[i].key == k;
      }
    }
  }

  /** Leaving out the last of the sorted records leaves out the greatest key. */
  lemma WithoutLast(rs: seq<Record>, m: map<Key, Value>)
    requires Lists(rs, m) && rs != []
    ensures LastWrites(rs[..|rs| - 1]) == DropGreatest(m)
    ensures |DropGreatest(m)| == |m| - 1
  {
    hide LastWrites, Lists, DropGreatest, Topped;
    var front := rs[..|rs| - 1];
    var f := LastWrites(front);
    FrontIsSorted(rs, m);
    forall k: Key
      ensures k in f <==> k in DropGreatest(m)
      ensures k in f ==> f[k] == DropGreatest(m)[k]
    {
      FrontKeys(rs, m, f, k);
      InDropGreatest(m, k);
    }
    assert f == DropGreatest(m);
  }

  lemma FrontIsSorted(rs: seq<Record>, m: map<Key, Value>)
    requires Lists(rs, m) && rs != []
    ensures var f := LastWrites(rs[..|rs| - 1]); Lists(rs[..|rs| - 1], f) && |f| == |m| - 1
  {
    hide LastWrites;
    AscendingLogIsMap(rs[..|rs| - 1]);
  }

  /** The map has a greater key. */
  ghost predicate Topped(m: map<Key, Value>, k: Key) {
    exists j :: j in m && k < j
  }

  lemma InDropGreatest(m: map<Key, Value>, k: Key)
    ensures k in DropGreatest(m) <==> k in m && Topped(m, k)
    ensures k in DropGreatest(m) ==> DropGreatest(m)[k] == m[k]
  {
  }

  lemma FrontKeys(rs: seq<Record>, m: map<Key, Value>, f: map<Key, Value>, k: Key)
    requires rs != [] && Lists(rs, m) && Lists(rs[..|rs| - 1], f)
    ensures k in f <==> k in m && Topped(m, k)
    ensures k in f ==> f[k] == m[k]
  {
    hide HasKey;
    var n := |rs| - 1;
    var front := rs[..n];
    if k in f {
      var i := ListedAt(front, f, k);
      assert rs[i] == front[i] && rs[i].key < rs[n].key;
      assert rs[n].key in m && k < rs[n].key;
    }
    if j :| k in m && j in m && k < j {
      var a := ListedAt(rs, m, k);
      var b := ListedAt(rs, m, j);
      assert a < b;
      assert front[a] == rs[a];
    }
  }

  // ------------------------------------------------------------------ runs

  /** The live keys and the number of records in the log. */
  datatype StoreState = StoreState(content: map<Key, Value>, used: nat)

  const EMPTY: StoreState := StoreState(map[], 0)

  /** The group has no room for one more record of a kilobyte. */
  predicate NeedsCollection(used: nat, groupSize: nat): (needed: bool)
    ensures needed <==> used * 1024 + 1024 > groupSize
  {
    (used + 1) * RECORD_SIZE > groupSize
  }

  function Collect(st: StoreState): StoreState {
    var m := DropGreatest(st.content);
    StoreState(m, |m|)
  }

  function PutSpec(st: StoreState, groupSize: nat, r: Record): StoreState {
    var st' := if NeedsCollection(st.used, groupSize) then Collect(st) else st;
    StoreState(st'.content[r.key := r.value], st'.used + 1)
  }

  /** The state after the puts of a run; gets change nothing. */
  function Run(puts: seq<Record>, groupSize: nat): StoreState {
    if puts == [] then EMPTY
    else PutSpec(Run(puts[..|puts| - 1], groupSize), groupSize, puts[|puts| - 1])
  }

  lemma DropGreatestShrinks(m: map<Key, Value>)
    ensures DropGreatest(m).Keys <= m.Keys
    ensures m != map[] ==> |DropGreatest(m)| < |m|
  {
    if m != map[] {
      var g := GreatestKey(m);
      assert g !in DropGreatest(m);
      assert DropGreatest(m).Keys <= m.Keys - {g};
      CardinalityOfSubset(DropGreatest(m).Keys, m.Keys - {g});
    }
  }

  lemma {:induction false} GreatestKey(m: map<Key, Value>) returns (g: Key)
    requires m != map[]
    ensures g in m && forall k :: k in m ==> k <= g
    decreases m
  {
    g :| g in m;
    var m' := map k | k in m && k != g :: m[k];
    if m' == map[] {
      forall k | k in m ensures k <= g {
        assert k !in m';
      }
    } else {
      assert m'.Keys == m.Keys - {g};
      var g' := GreatestKey(m');
      forall k | k in m && k != g ensures k <= g' {
        assert k in m';
      }
      g := if g < g' then g' else g;
    }
  }

  lemma {:induction false} CardinalityOfSubset<T>(a: set<T>, b: set<T>)
    requires a <= b
    ensures |a| <= |b|
  {
    if a != {} {
      var x :| x in a;
      CardinalityOfSubset(a - {x}, b - {x});
    }
  }

  /** In every run the log fits the group, even right after a collection, and it never holds
      fewer records than there are live keys. */
  lemma {:induction false} SpaceSuffices(puts: seq<Record>, groupSize: nat)
    requires groupSize >= RECORD_SIZE
    ensures var st := Run(puts, groupSize);
      && st.used * RECORD_SIZE <= groupSize
      && |st.content| <= st.used
      && (NeedsCollection(st.used, groupSize) ==> !NeedsCollection(Collect(st).used, groupSize))
  {
    if puts != [] {
      var front := Run(puts[..|puts| - 1], groupSize);
      SpaceSuffices(puts[..|puts| - 1], groupSize);
      AfterCollection(front, groupSize);
      var r := puts[|puts| - 1];
      var before := if NeedsCollection(front.used, groupSize) then Collect(front) else front;
      assert |before.content[r.key := r.value]| <= |before.content| + 1;
    }
    AfterCollection(Run(puts, groupSize), groupSize);
  }

  lemma AfterCollection(st: StoreState, groupSize: nat)
    requires groupSize >= RECORD_SIZE && st.used * RECORD_SIZE <= groupSize && |st.content| <= st.used
    ensures NeedsCollection(st.used, groupSize) ==> !NeedsCollection(Collect(st).used, groupSize)
  {
    DropGreatestShrinks(st.content);
    if st.content == map[] {
      assert DropGreatest(st.content) == map[];
    }
  }

  /** No collection among the puts after position j finds the key to be the greatest one. */
  ghost predicate Survives(puts: seq<Record>, groupSize: nat, key: Key, j: nat) {
    forall n :: j < n < |puts| && NeedsCollection(Run(puts[..n], groupSize).used, groupSize) ==>
      LargerKeyLives(Run(puts[..n], groupSize), key)
  }

  ghost predicate LargerKeyLives(st: StoreState, key: Key) {
    exists k :: k in st.content && key < k
  }

  /** The store holds the last put of a key, with its value, exactly when the key survives
      the collections after that put. */
  lemma {:induction false} LastPutIsKept(puts: seq<Record>, groupSize: nat, j: nat)
    requires j < |puts| && IsLast(puts, j)
    ensures var m := Run(puts, groupSize).content;
      && (puts[j].key in m <==> Survives(puts, groupSize, puts[j].key, j))
      && (puts[j].key in m ==> m[puts[j].key] == puts[j].value)
    decreases |puts|
  {
    var n := |puts| - 1;
    if j < n {
      var front, key := puts[..n], puts[j].key;
      assert IsLast(front, j) && front[j] == puts[j] && puts[n].key != key;
      LastPutIsKept(front, groupSize, j);
      SurvivesOneMore(puts, groupSize, key, j);
      hide Run, Survives;
      assert Run(puts, groupSize) == PutSpec(Run(front, groupSize), groupSize, puts[n]) by {
        RunStep(puts, groupSize);
      }
    }
  }

  lemma RunStep(puts: seq<Record>, groupSize: nat)
    requires puts != []
    ensures Run(puts, groupSize) == PutSpec(Run(puts[..|puts| - 1], groupSize), groupSize, puts[|puts| - 1])
  {
  }

  lemma SurvivesOneMore(puts: seq<Record>, groupSize: nat, key: Key, j: nat)
    requires j < |puts| - 1
    ensures var front := puts[..|puts| - 1];
      Survives(puts, groupSize, key, j) <==>
      Survives(front, groupSize, key, j) &&
      (NeedsCollection(Run(front, groupSize).used, groupSize) ==> LargerKeyLives(Run(front, groupSize), key))
  {
    var front := puts[..|puts| - 1];
    assert forall n :: j < n < |front| ==> front[..n] == puts[..n];
  }

  /** A key that was never put is never there. */
  lemma {:induction false} NothingInvented(puts: seq<Record>, groupSize: nat, key: Key)
    requires key in Run(puts, groupSize).content
    ensures exists j :: 0 <= j < |puts| && puts[j].key == key && IsLast(puts, j) && Run(puts, groupSize).content[key] == puts[j].value
  {
    var n := |puts| - 1;
    if puts[n].key == key {
      assert IsLast(puts, n);
    } else {
      var front := puts[..n];
      NothingInvented(front, groupSize, key);
      var j :| 0 <= j < n && front[j].key == key && IsLast(front, j) && Run(front, groupSize).content[key] == front[j].value;
      assert puts[j] == front[j];
      forall i | j < i < |puts| ensures puts[i].key != puts[j].key {
        if i < n { assert front[i] == puts[i]; }
      }
    }
  }
}
