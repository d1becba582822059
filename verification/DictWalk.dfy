/** Walks over the hash table: each entry exactly once, even when the walker deletes what it is given. */
module DictWalk {
  import opened Dict

  /** The entries bucket by bucket. */
  ghost function Flatten(chains: seq<seq<Entry>>): seq<Entry> {
    if chains == [] then [] else chains[0] + Flatten(chains[1..])
  }

  /** The entries of the buckets from i on. */
  ghost function From(chains: seq<seq<Entry>>, i: int): seq<Entry>
    requires i >= 0
  {
    if i >= |chains| then [] else Flatten(chains[i..])
  }

  lemma FromNext(chains: seq<seq<Entry>>, i: nat)
    requires i < |chains|
    ensures From(chains, i) == chains[i] + From(chains, i + 1)
  {
    assert chains[i..][0] == chains[i] && chains[i..][1..] == chains[i + 1..];
    assert Flatten(chains[i..]) == chains[i] + Flatten(chains[i + 1..]);
    if i + 1 >= |chains| {
      assert chains[i + 1..] == [];
      assert Flatten(chains[i + 1..]) == [];
    }
  }

  /** From bucket i on, the walk has exactly the entries that belong there, each once. */
  lemma {:induction false} FromOnce(chains: seq<seq<Entry>>, hash: Key -> nat, mask: nat, i: nat)
    requires Placed(chains, hash, mask) && i <= |chains|
    ensures Unique(From(chains, i))
    ensures forall e :: e in From(chains, i) <==> e in Members(chains) && And(hash(e.key), mask) >= i
    decreases |chains| - i
  {
    hide And, Placed, Members, Unique, Flatten;
    if i == |chains| {
      NoneBeyond(chains, hash, mask);
      NoneUnique();
    } else {
      FromNext(chains, i);
      FromOnce(chains, hash, mask, i + 1);
      InBucket(chains, hash, mask, i);
      UniqueJoin(chains[i], From(chains, i + 1));
    }
  }

  /** The last bucket is followed by nothing. */
  lemma NoneBeyond(chains: seq<seq<Entry>>, hash: Key -> nat, mask: nat)
    requires Placed(chains, hash, mask)
    ensures forall e :: e in Members(chains) ==> And(hash(e.key), mask) < |chains|
  {
    hide And;
    forall e | e in Members(chains) ensures And(hash(e.key), mask) < |chains| {
      var b, j := MemberAt(chains, e);
      assert And(hash(chains[b][j].key), mask) == b;
    }
  }

  /** A bucket holds the entries that belong there. */
  lemma InBucket(chains: seq<seq<Entry>>, hash: Key -> nat, mask: nat, i: nat)
    requires Placed(chains, hash, mask) && i < |chains|
    ensures Unique(chains[i]) && forall e :: e in chains[i] <==> e in Members(chains) && And(hash(e.key), mask) == i
  {
    hide And;
    assert forall a, b :: 0 <= a < b < |chains[i]| ==> chains[i][a].key != chains[i][b].key;
    forall e ensures e in chains[i] <==> e in Members(chains) && And(hash(e.key), mask) == i {
      if e in chains[i] {
        BucketsWithin(chains, i);
        var j :| 0 <= j < |chains[i]| && chains[i][j] == e;
        assert And(hash(chains[i][j].key), mask) == i;
      } else if e in Members(chains) {
        var b, j := MemberAt(chains, e);
        assert And(hash(chains[b][j].key), mask) == b;
      }
    }
  }

  lemma NoneUnique()
    ensures Unique([])
  {
  }

  lemma UniqueJoin(a: seq<Entry>, b: seq<Entry>)
    requires Unique(a) && Unique(b) && forall e :: e in a ==> e !in b
    ensures Unique(a + b)
  {
    forall i, j | 0 <= i < j < |a + b| ensures (a + b)[i] != (a + b)[j] {
      if i < |a| <= j {
        assert a[i] !in b;
        assert (a + b)[j] == b[j - |a|];
      }
    }
  }

  class DictIterator {
    const ht: Dict
    var index: int
    var entry: Entry?
    var nextEntry: Entry?
    ghost var rest: seq<Entry>

    /** rest is what the current bucket still has to give, after the saved next entry. */
    ghost predicate Ready()
      reads this, ht`chains
    {
      && index >= -1
      && (if entry == null then rest == []
          else
            && 0 <= index < |ht.chains| && EndsWith(ht.chains[index], rest)
            && nextEntry == if rest == [] then null else rest[0])
    }

    /** The entries the walk has yet to give. */
    ghost function Pending(): seq<Entry>
      requires Ready()
      reads this, ht`chains
    {
      rest + From(ht.chains, index + 1)
    }

    /** The entry given last is where it was, just before the rest of its bucket. */
    ghost predicate At(e: Entry)
      reads this, ht`chains
    {
      0 <= index < |ht.chains| && entry == e && EndsWith(ht.chains[index], [e] + rest)
    }

    constructor (ht: Dict)
      ensures this.ht == ht && Ready() && Pending() == From(ht.chains, 0)
    {
      this.ht := ht;
      index, entry, nextEntry := -1, null, null;
      rest := [];
      new;
      assert [] + From(ht.chains, 0) == From(ht.chains, 0);
    }

    /** The next entry, or null when every entry has been given. */
    method Next() returns (r: Entry?)
      requires ht.Valid() && Ready()
      modifies this`index, this`entry, this`nextEntry, this`rest
      ensures Ready()
      ensures if old(Pending()) == [] then r == null else r != null && old(Pending()) == [r] + Pending() && At(r)
    {
      hide Dict.Valid, From, EndsWith, Linked;
      SizeIs(ht);
      while true
        invariant Ready() && Pending() == old(Pending())
        decreases |ht.chains| - index + 1, entry != null
      {
        if entry == null {
          index := index + 1;
          if index >= ht.size {
            NoBucket(ht, index, rest);
            break;
          }
          EnterBucket(ht, index);
          entry := ht.table[index];
          rest := ht.chains[index];
        } else {
          entry := nextEntry;
        }
        if entry != null {
          Follows(ht, index, rest);
          nextEntry := entry.next;
          rest := rest[1..];
          return entry;
        }
      }
      return null;
    }
  }

  lemma SizeIs(ht: Dict)
    requires ht.Valid()
    ensures |ht.chains| == ht.size == ht.table.Length
  {
  }

  lemma NoBucket(ht: Dict, i: nat, rest: seq<Entry>)
    requires i >= |ht.chains| && rest == []
    ensures rest + From(ht.chains, i) == [] == rest + From(ht.chains, i + 1)
  {
  }

  lemma EnterBucket(ht: Dict, i: nat)
    requires ht.Valid() && i < |ht.chains|
    ensures [] + From(ht.chains, i) == ht.chains[i] + From(ht.chains, i + 1)
    ensures |ht.chains| == ht.table.Length && EndsWith(ht.chains[i], ht.chains[i])
    ensures ht.table[i] == if ht.chains[i] == [] then null else ht.chains[i][0]
  {
    hide Placed, Flatten, From;
    FromNext(ht.chains, i);
  }

  ghost predicate EndsWith(c: seq<Entry>, s: seq<Entry>) {
    |s| <= |c| && c[|c| - |s|..] == s
  }

  /** The head of an end of a bucket points at the head of the next shorter end. */
  lemma Follows(ht: Dict, i: nat, s: seq<Entry>)
    requires ht.Valid() && i < |ht.chains| && EndsWith(ht.chains[i], s) && s != []
    ensures s[0].next == (if |s| == 1 then null else s[1]) && EndsWith(ht.chains[i], s[1..]) && [s[0]] + s[1..] == s
  {
    hide Placed;
    var c := ht.chains[i];
    assert Linked(ht.table[i], c);
    var k := |c| - |s|;
    assert s[0] == c[k] && (|s| > 1 ==> s[1] == c[k + 1]);
  }

  /** Deleting the entry given last changes nothing in what the walk has yet to give. */
  lemma DeleteKeepsRest(was: seq<seq<Entry>>, hash: Key -> nat, mask: nat, x: nat, e: Entry, rest: seq<Entry>, b: nat, i: nat)
    requires Placed(was, hash, mask) && x < |was| && EndsWith(was[x], [e] + rest)
    requires b < |was| && i < |was[b]| && was[b][i].key == e.key
    ensures var now := Cut(was, b, i);
      |now| == |was| && EndsWith(now[x], rest) && From(now, x + 1) == From(was, x + 1)
  {
    hide And, Flatten;
    var p := |was[x]| - |rest| - 1;
    assert was[x][p] == ([e] + rest)[0];
    assert And(hash(was[x][p].key), mask) == x && And(hash(was[b][i].key), mask) == b;
    assert x == b && p == i;
    assert was[x][p + 1..] == ([e] + rest)[1..] == rest;
    assert Cut(was, b, i)[x + 1..] == was[x + 1..];
  }

  /** The entry a walk stands at is in the table. */
  lemma StandsInTable(ht: Dict, x: nat, e: Entry, rest: seq<Entry>)
    requires ht.Valid() && x < |ht.chains| && EndsWith(ht.chains[x], [e] + rest)
    ensures e in ht.nodes && e.key in ht.content && Placed(ht.chains, ht.hash, ht.sizemask)
  {
    hide Placed, Members;
    var c := ht.chains[x];
    assert e == ([e] + rest)[0] == c[|c| - |rest| - 1];
    assert e in BucketIn(ht.chains, x);
  }

  function KeysOf(seen: seq<Entry>): (r: seq<Key>)
    ensures |r| == |seen| && forall j :: 0 <= j < |r| ==> r[j] == seen[j].key
  {
    seq(|seen|, j requires 0 <= j < |seen| => seen[j].key)
  }

  /** The map without the keys of a list that are to be dropped. */
  function Without(m: map<Key, Val>, keys: seq<Key>, drop: Key -> bool): map<Key, Val> {
    map k | k in m && !(k in keys && drop(k)) :: m[k]
  }

  /** Deletes, if it is to be dropped, the entry the walk has just given. */
  method Visit(d: Dict, it: DictIterator, e: Entry, drop: Key -> bool)
    requires d.Valid() && it.ht == d && it.Ready() && it.At(e)
    modifies d`used, d`chains, d`nodes, d`content, d.table, d.nodes`next
    ensures d.Valid() && it.Ready() && it.Pending() == old(it.Pending()) && d.nodes <= old(d.nodes)
    ensures d.content == if drop(e.key) then old(d.content) - {e.key} else old(d.content)
  {
    hide Dict.Valid, From, EndsWith, Cut, Placed;
    if drop(e.key) {
      StandsInTable(d, it.index, e, it.rest);
      ghost var was := d.chains;
      var ok, b, i := d.Delete(e.key);
      DeleteKeepsRest(was, d.hash, d.sizemask, it.index, e, it.rest, b, i);
    }
  }

  /** A walk in progress: what was given, what is being given, and what is still to come. */
  ghost predicate InWalk(d: Dict, it: DictIterator, e: Entry?, all: seq<Entry>, seen: seq<Entry>)
    reads d, d.table, d.nodes, it
  {
    && it.ht == d && d.Valid() && it.Ready()
    && all == seen + (if e == null then [] else [e] + it.Pending())
    && (e != null ==> it.At(e))
  }

  /** Visits the entry and asks for the next one. */
  method VisitAndGo(d: Dict, it: DictIterator, e: Entry, drop: Key -> bool, ghost all: seq<Entry>, ghost seen: seq<Entry>)
    returns (next: Entry?)
    requires InWalk(d, it, e, all, seen)
    modifies it`index, it`entry, it`nextEntry, it`rest
    modifies d`used, d`chains, d`nodes, d`content, d.table, d.nodes`next
    ensures InWalk(d, it, next, all, seen + [e]) && d.nodes <= old(d.nodes)
    ensures d.content == if drop(e.key) then old(d.content) - {e.key} else old(d.content)
  {
    hide Dict.Valid, DictIterator.Ready, DictIterator.At, DictIterator.Pending;
    Visit(d, it, e, drop);
    next := it.Next();
  }

  /** Walking the whole table and deleting, on the way, the entries that are to be dropped. */
  method Sweep(d: Dict, drop: Key -> bool) returns (keys: seq<Key>)
    requires d.Valid()
    modifies d`used, d`chains, d`nodes, d`content, d.table, d.nodes`next
    ensures d.Valid() && d.content == map k | k in old(d.content) && !drop(k) :: old(d.content)[k]
    ensures forall k :: k in keys <==> k in old(d.content)
    ensures forall i, j :: 0 <= i < j < |keys| ==> keys[i] != keys[j]
  {
    hide Dict.Valid, InWalk, From, Without, KeysOf, DictIterator.Ready, DictIterator.At, DictIterator.Pending;
    ghost var all := From(d.chains, 0);
    ghost var seen: seq<Entry> := [];
    Everything(d);
    WithoutNone(d.content, drop);
    var it := new DictIterator(d);
    var e := it.Next();
    keys := [];
    WalkBegins(d, it, e, all);
    while e != null
      invariant fresh(it) && d.nodes <= old(d.nodes) && InWalk(d, it, e, all, seen)
      invariant keys == KeysOf(seen) && d.content == Without(old(d.content), keys, drop)
      decreases |all| - |seen|
    {
      WithoutMore(old(d.content), keys, e.key, drop);
      MoreKeys(seen, e);
      NotLonger(d, it, e, all, seen);
      keys := keys + [e.key];
      var next := VisitAndGo(d, it, e, drop, all, seen);
      e, seen := next, seen + [e];
    }
    NotLonger(d, it, e, all, seen);
    WithoutAll(old(d.content), keys, drop);
  }

  lemma WalkBegins(d: Dict, it: DictIterator, e: Entry?, all: seq<Entry>)
    requires it.ht == d && d.Valid() && it.Ready()
    requires if all == [] then e == null else e != null && all == [e] + it.Pending() && it.At(e)
    ensures InWalk(d, it, e, all, [])
  {
  }

  lemma NotLonger(d: Dict, it: DictIterator, e: Entry?, all: seq<Entry>, seen: seq<Entry>)
    requires InWalk(d, it, e, all, seen)
    ensures d.Valid() && if e == null then seen == all else |seen| < |all|
  {
    hide Dict.Valid;
  }

  lemma WithoutNone(m: map<Key, Val>, drop: Key -> bool)
    ensures Without(m, [], drop) == m && KeysOf([]) == []
  {
  }

  lemma WithoutMore(m: map<Key, Val>, keys: seq<Key>, k: Key, drop: Key -> bool)
    ensures Without(m, keys + [k], drop) == if drop(k) then Without(m, keys, drop) - {k} else Without(m, keys, drop)
  {
  }

  lemma WithoutAll(m: map<Key, Val>, keys: seq<Key>, drop: Key -> bool)
    requires forall k :: k in keys <==> k in m
    ensures Without(m, keys, drop) == map k | k in m && !drop(k) :: m[k]
  {
  }

  lemma MoreKeys(seen: seq<Entry>, e: Entry)
    ensures KeysOf(seen + [e]) == KeysOf(seen) + [e.key]
  {
  }

  /** A whole walk gives every entry of the table once, so every key once. */
  lemma Everything(d: Dict)
    requires d.Valid()
    ensures var keys := KeysOf(From(d.chains, 0));
      && (forall k :: k in keys <==> k in d.content)
      && (forall i, j :: 0 <= i < j < |keys| ==> keys[i] != keys[j])
  {
    hide And, From, Placed;
    var all := From(d.chains, 0);
    FromOnce(d.chains, d.hash, d.sizemask, 0);
    PlacedDiffer(d.chains, d.hash, d.sizemask);
    var keys := KeysOf(all);
    forall i, j | 0 <= i < j < |keys| ensures keys[i] != keys[j] {
      assert all[i] != all[j] && all[i] in all && all[j] in all;
    }
    forall k ensures k in keys <==> k in d.content {
      if k in keys {
        var j :| 0 <= j < |keys| && keys[j] == k;
        assert all[j] in all;
      }
      if k in d.content {
        var e :| e in d.nodes && e.key == k;
        var j :| 0 <= j < |all| && all[j] == e;
        assert keys[j] == k;
      }
    }
  }
}
