/** The chained hash table: buckets of linked entries that are relinked in place, refining a map. */
module Dict {
  import opened Bytes

  type Key = seq<byte>
  type Val = nat

  const INITIAL_SIZE: nat := 4

  /** Bitwise and. */
  function And(a: nat, b: nat): (r: nat)
    ensures r <= b
  {
    if a == 0 || b == 0 then 0 else (a % 2) * (b % 2) + 2 * And(a / 2, b / 2)
  }

  function Pow2(k: nat): nat {
    if k == 0 then 1 else 2 * Pow2(k - 1)
  }

  /** With all the low bits set in the mask, the and is the remainder. */
  lemma {:induction false} AndIsRemainder(a: nat, k: nat)
    ensures Pow2(k) > 0 && And(a, Pow2(k) - 1) == a % Pow2(k)
    decreases k
  {
    hide And;
    if k == 0 {
      assert And(a, 0) <= 0;
    } else {
      AndIsRemainder(a / 2, k - 1);
      AndOdd(a, Pow2(k - 1));
      LowBit(a, Pow2(k - 1));
    }
  }

  lemma AndOdd(a: nat, p: nat)
    requires p > 0
    ensures And(a, 2 * p - 1) == a % 2 + 2 * And(a / 2, p - 1)
  {
    assert (2 * p - 1) % 2 == 1 && (2 * p - 1) / 2 == p - 1;
  }

  lemma LowBit(a: nat, p: nat)
    requires p > 0
    ensures a % (2 * p) == a % 2 + 2 * ((a / 2) % p)
  {
    var q, t := a / 2, a / 2 / p;
    assert a == t * (2 * p) + (a % 2 + 2 * (q % p));
    RemainderIs(a, 2 * p, t, a % 2 + 2 * (q % p));
  }

  lemma RemainderIs(a: nat, m: nat, t: nat, r: nat)
    requires r < m && a == t * m + r
    ensures a % m == r
  {
    var d := a / m - t;
    assert d * m + a % m == r;
    if d > 0 {
      MulAtLeast(d, m);
    } else if d < 0 {
      MulAtLeast(-d, m);
    }
  }

  lemma MulAtLeast(d: nat, m: nat)
    requires d > 0
    ensures d * m >= m
  {
  }

  ghost predicate IsPow2(n: nat) {
    exists k: nat :: n == Pow2(k)
  }

  lemma MaskIsRemainder(a: nat, size: nat)
    requires IsPow2(size)
    ensures size > 0 && And(a, size - 1) == a % size
  {
    hide And, Pow2;
    var k: nat :| size == Pow2(k);
    AndIsRemainder(a, k);
  }

  /** i is the least power of two that is at least the initial size and the size asked for. */
  ghost predicate LeastPower(i: nat, size: nat) {
    && IsPow2(i) && i >= size && i >= INITIAL_SIZE
    && forall k: nat :: Pow2(k) >= size && Pow2(k) >= INITIAL_SIZE ==> i <= Pow2(k)
  }

  lemma FirstSize(i: nat)
    requires LeastPower(i, INITIAL_SIZE)
    ensures i == INITIAL_SIZE
  {
    assert Pow2(2) == INITIAL_SIZE;
  }

  lemma Doubled(size: nat, i: nat)
    requires IsPow2(size) && size >= INITIAL_SIZE && LeastPower(i, size * 2)
    ensures i == size * 2
  {
    var k: nat :| size == Pow2(k);
    assert Pow2(k + 1) == size * 2;
  }

  /** The least power of two that is at least the initial size and the size asked for. */
  method NextPower(size: nat) returns (i: nat)
    ensures LeastPower(i, size)
  {
    i := INITIAL_SIZE;
    ghost var k := 2;
    assert Pow2(2) == 4;
    while i < size
      invariant i == Pow2(k) && k >= 2
      invariant i == INITIAL_SIZE || i / 2 < size
      decreases size - i
    {
      i := i * 2;
      k := k + 1;
    }
    forall j: nat | Pow2(j) >= size && Pow2(j) >= INITIAL_SIZE ensures i <= Pow2(j) {
      if j < k {
        Pow2Monotone(j, k - 1);
      } else {
        Pow2Monotone(k, j);
      }
    }
  }

  lemma {:induction false} Pow2Monotone(a: nat, b: nat)
    requires a <= b
    ensures Pow2(a) <= Pow2(b)
  {
    if a < b {
      Pow2Monotone(a, b - 1);
    }
  }

  class Entry {
    const key: Key
    var val: Val
    var next: Entry?

    constructor (key: Key, val: Val, next: Entry?)
      ensures this.key == key && this.val == val && this.next == next
    {
      this.key, this.val, this.next := key, val, next;
    }
  }

  /** The entries of one bucket, linked from its head. */
  ghost predicate Linked(head: Entry?, c: seq<Entry>)
    reads c`next
  {
    && (if c == [] then head == null else head == c[0] && c[|c| - 1].next == null)
    && forall i :: 0 <= i < |c| - 1 ==> c[i].next == c[i + 1]
  }

  /** Entry keys never change, so where they belong is independent of the heap. */
  ghost predicate Placed(chains: seq<seq<Entry>>, hash: Key -> nat, mask: nat) {
    && (forall b, i :: 0 <= b < |chains| && 0 <= i < |chains[b]| ==> And(hash(chains[b][i].key), mask) == b)
    && (forall b, i, j :: 0 <= b < |chains| && 0 <= i < j < |chains[b]| ==> chains[b][i].key != chains[b][j].key)
  }

  /** All entries of all buckets. */
  ghost function Members(chains: seq<seq<Entry>>): set<Entry> {
    set b, i | 0 <= b < |chains| && 0 <= i < |chains[b]| :: chains[b][i]
  }

  /** Every bucket is linked, and nodes are exactly the entries of all of them. */
  ghost predicate TableLinked(table: array<Entry?>, chains: seq<seq<Entry>>, nodes: set<Entry>)
    reads table, nodes`next
  {
    && table.Length == |chains| && nodes == Members(chains)
    && forall b :: 0 <= b < |chains| ==> BucketIn(chains, b) <= nodes && Linked(table[b], chains[b])
  }

  ghost function BucketIn(chains: seq<seq<Entry>>, b: nat): set<Entry>
    requires b < |chains|
  {
    SetOf(chains[b])
  }

  ghost function SetOf(c: seq<Entry>): set<Entry> {
    set e | e in c
  }

  ghost predicate KeysDiffer(es: set<Entry>) {
    forall e, f :: e in es && f in es && e.key == f.key ==> e == f
  }

  lemma MemberAt(chains: seq<seq<Entry>>, e: Entry) returns (b: nat, i: nat)
    requires e in Members(chains)
    ensures b < |chains| && i < |chains[b]| && chains[b][i] == e
  {
    b, i :| 0 <= b < |chains| && 0 <= i < |chains[b]| && chains[b][i] == e;
  }

  /** Entries with the same key are the same entry. */
  lemma PlacedDiffer(chains: seq<seq<Entry>>, hash: Key -> nat, mask: nat)
    requires Placed(chains, hash, mask)
    ensures KeysDiffer(Members(chains))
  {
    forall e, f | e in Members(chains) && f in Members(chains) && e.key == f.key ensures e == f {
      var b, i := MemberAt(chains, e);
      var b', i' := MemberAt(chains, f);
      assert And(hash(chains[b][i].key), mask) == b;
      assert And(hash(chains[b'][i'].key), mask) == b';
    }
  }

  lemma PrependMembers(chains: seq<seq<Entry>>, h: nat, e: Entry)
    requires h < |chains|
    ensures Members(chains[h := [e] + chains[h]]) == Members(chains) + {e}
  {
    var chains' := chains[h := [e] + chains[h]];
    forall f | f in Members(chains) ensures f in Members(chains') {
      var b, i := MemberAt(chains, f);
      assert chains'[b][if b == h then i + 1 else i] == f;
    }
    assert chains'[h][0] == e;
    forall f | f in Members(chains') ensures f in Members(chains) + {e} {
      var b, i := MemberAt(chains', f);
      if b == h && i > 0 {
        assert chains[b][i - 1] == f;
      }
    }
  }

  lemma PrependPlaced(chains: seq<seq<Entry>>, hash: Key -> nat, mask: nat, h: nat, e: Entry)
    requires Placed(chains, hash, mask) && h < |chains| && And(hash(e.key), mask) == h
    requires forall f :: f in Members(chains) ==> f.key != e.key
    ensures Placed(chains[h := [e] + chains[h]], hash, mask)
  {
    var chains' := chains[h := [e] + chains[h]];
    forall i | 0 <= i < |chains[h]| ensures chains[h][i].key != e.key {
      assert chains[h][i] in Members(chains);
    }
  }

  lemma BucketsWithin(chains: seq<seq<Entry>>, b: nat)
    requires b < |chains|
    ensures BucketIn(chains, b) <= Members(chains)
  {
    forall e | e in chains[b] ensures e in Members(chains) {
      var i :| 0 <= i < |chains[b]| && chains[b][i] == e;
      assert chains[b][i] == e;
    }
  }

  /** Makes an entry the new head of a bucket. */
  method PushFront(table: array<Entry?>, h: nat, e: Entry, ghost chains: seq<seq<Entry>>, ghost nodes: set<Entry>)
    requires TableLinked(table, chains, nodes) && h < |chains| && e !in nodes
    modifies table, e`next
    ensures TableLinked(table, chains[h := [e] + chains[h]], nodes + {e})
    ensures forall b :: 0 <= b < |chains| && b != h ==> table[b] == old(table[b])
  {
    hide Members, Linked;
    PrependMembers(chains, h, e);
    e.next := table[h];
    table[h] := e;
    forall b | 0 <= b < |chains|
      ensures BucketIn(chains, b) <= nodes && Linked(if b == h then e.next else table[b], chains[b])
    {
      assert old(BucketIn(chains, b) <= nodes && Linked(table[b], chains[b]));
    }
    AfterPush(e, chains[h]);
    assert SetOf([e] + chains[h]) == SetOf(chains[h]) + {e};
  }

  lemma AfterPush(e: Entry, c: seq<Entry>)
    requires Linked(e.next, c)
    ensures Linked(e, [e] + c)
  {
    var c' := [e] + c;
    assert forall i :: 0 <= i < |c| ==> c'[i + 1] == c[i];
  }

  /** The buckets without one entry. */
  ghost function Cut(chains: seq<seq<Entry>>, h: nat, i: nat): seq<seq<Entry>>
    requires h < |chains| && i < |chains[h]|
  {
    chains[h := chains[h][..i] + chains[h][i + 1..]]
  }

  lemma CutMembers(chains: seq<seq<Entry>>, hash: Key -> nat, mask: nat, h: nat, i: nat)
    requires Placed(chains, hash, mask) && h < |chains| && i < |chains[h]|
    ensures Members(Cut(chains, h, i)) == Members(chains) - {chains[h][i]}
  {
    var chains', e := Cut(chains, h, i), chains[h][i];
    forall f | f in Members(chains') ensures f in Members(chains) - {e} {
      var b, j := MemberAt(chains', f);
      assert f == chains[b][if b == h && j >= i then j + 1 else j];
      assert And(hash(chains[b][if b == h && j >= i then j + 1 else j].key), mask) == b;
      assert And(hash(chains[h][i].key), mask) == h;
    }
    forall f | f in Members(chains) - {e} ensures f in Members(chains') {
      var b, j := MemberAt(chains, f);
      assert f == chains'[b][if b == h && j > i then j - 1 else j];
    }
  }

  lemma CutPlaced(chains: seq<seq<Entry>>, hash: Key -> nat, mask: nat, h: nat, i: nat)
    requires Placed(chains, hash, mask) && h < |chains| && i < |chains[h]|
    ensures Placed(Cut(chains, h, i), hash, mask)
  {
    hide And;
    var c, c' := chains[h], Cut(chains, h, i)[h];
    assert forall j :: 0 <= j < |c'| ==> c'[j] == c[if j >= i then j + 1 else j];
  }

  /** Takes one entry out of its bucket. */
  method CutOut(table: array<Entry?>, h: nat, prev: Entry?, de: Entry,
                ghost i: nat, ghost chains: seq<seq<Entry>>, ghost nodes: set<Entry>)
    requires TableLinked(table, chains, nodes) && h < |chains| && i < |chains[h]| && de == chains[h][i]
    requires prev == if i == 0 then null else chains[h][i - 1]
    requires Members(Cut(chains, h, i)) == nodes - {de}
    requires forall b :: 0 <= b < |chains| && b != h ==> Apart(chains, h, b)
    requires Unique(chains[h])
    modifies table, nodes`next
    ensures TableLinked(table, Cut(chains, h, i), nodes - {de})
  {
    hide Members, Apart, Linked, Unique;
    ghost var c := chains[h];
    BeforeCut(table[h], c, i);
    if prev != null {
      prev.next := de.next;
    } else {
      table[h] := de.next;
    }
    AfterCut(table[h], c, i);
    forall b | 0 <= b < |chains| && b != h
      ensures BucketIn(chains, b) <= nodes - {de} && Linked(table[b], chains[b])
    {
      assert old(BucketIn(chains, b) <= nodes && Linked(table[b], chains[b]));
      NotInOther(chains, h, b, c[i]);
      NotInOther(chains, h, b, c[if i == 0 then 0 else i - 1]);
    }
    assert SetOf(c[..i] + c[i + 1..]) <= nodes - {de};
  }

  lemma NotInOther(chains: seq<seq<Entry>>, h: nat, b: nat, e: Entry)
    requires h < |chains| && b < |chains| && Apart(chains, h, b) && e in chains[h]
    ensures e !in chains[b]
  {
  }

  ghost function NextOf(c: seq<Entry>, i: nat): Entry?
    requires i < |c|
  {
    if i + 1 < |c| then c[i + 1] else null
  }

  lemma BeforeCut(head: Entry?, c: seq<Entry>, i: nat)
    requires Linked(head, c) && i < |c| && Unique(c)
    ensures head == c[0] && c[i] !in c[..i] + c[i + 1..]
    ensures forall j :: 0 <= j < |c| ==> c[j].next == NextOf(c, j)
    ensures i > 0 ==> forall j :: 0 <= j < |c| && j != i - 1 ==> c[j] != c[i - 1]
  {
  }

  lemma AfterCut(head: Entry?, c: seq<Entry>, i: nat)
    requires i < |c| && forall j :: 0 <= j < |c| && j != i - 1 ==> c[j].next == NextOf(c, j)
    requires if i == 0 then head == NextOf(c, 0) else head == c[0] && c[i - 1].next == NextOf(c, i)
    ensures Linked(head, c[..i] + c[i + 1..])
  {
    var c' := c[..i] + c[i + 1..];
    assert forall j :: 0 <= j < |c'| ==> c'[j] == if j < i then c[j] else c[j + 1];
    forall j | 0 <= j < |c'| ensures c'[j].next == NextOf(c', j) {
      assert j + 1 < |c'| ==> c'[j + 1] == if j + 1 < i then c[j + 1] else c[j + 2];
      assert c'[j] == if j < i then c[j] else c[j + 1];
    }
    LinkedByNext(head, c');
  }

  lemma LinkedByNext(head: Entry?, c: seq<Entry>)
    requires head == if c == [] then null else c[0]
    requires forall j :: 0 <= j < |c| ==> c[j].next == NextOf(c, j)
    ensures Linked(head, c)
  {
  }

  /** The entries hold exactly the associations of the map. */
  ghost predicate HoldsAll(es: set<Entry>, m: map<Key, Val>)
    reads es`val
  {
    && (forall e :: e in es ==> e.key in m && m[e.key] == e.val)
    && (forall k :: k in m ==> exists e :: e in es && e.key == k)
  }

  ghost predicate Unique(c: seq<Entry>) {
    forall i, j :: 0 <= i < j < |c| ==> c[i] != c[j]
  }

  /** The entries of a bucket still to be moved, and those already in the new table. */
  ghost predicate Moving(rest: seq<Entry>, placed: set<Entry>, all: set<Entry>) {
    Unique(rest) && SetOf(rest) !! placed && SetOf(rest) + placed == all && KeysDiffer(all)
  }

  /** Moves every entry of a bucket to the bucket of the new table its key belongs to. */
  method MoveChain(head: Entry?, ghost c: seq<Entry>, table: array<Entry?>, hash: Key -> nat, mask: nat,
                   ghost chains: seq<seq<Entry>>, ghost nodes: set<Entry>, ghost own: set<Entry>)
    returns (moved: nat, ghost chains': seq<seq<Entry>>)
    requires Linked(head, c) && TableLinked(table, chains, nodes) && Placed(chains, hash, mask) && mask + 1 == |chains|
    requires own == SetOf(c) && Moving(c, nodes, nodes + own)
    modifies table, own`next
    ensures TableLinked(table, chains', nodes + own) && Placed(chains', hash, mask) && |chains'| == |chains|
    ensures moved == |c|
  {
    hide Placed, Moving, TableLinked, Linked, SetOf;
    var he := head;
    moved := 0;
    chains' := chains;
    ghost var rest, placed := c, nodes;
    while he != null
      invariant Linked(he, rest) && Moving(rest, placed, nodes + own) && SetOf(rest) <= own && moved + |rest| == |c|
      invariant TableLinked(table, chains', placed) && Placed(chains', hash, mask) && |chains'| == |chains|
      decreases |rest|
    {
      HeadFirst(he, rest);
      TakeHead(rest, placed, nodes + own);
      he, chains' := MoveHead(he, rest, table, hash, mask, chains', placed, nodes + own);
      rest, placed := rest[1..], placed + {rest[0]};
      moved := moved + 1;
    }
    AllMoved(rest, placed, nodes + own);
  }

  /** Moves one entry and yields the one that came after it. */
  method MoveHead(he: Entry, ghost rest: seq<Entry>, table: array<Entry?>, hash: Key -> nat, mask: nat,
                  ghost chains: seq<seq<Entry>>, ghost placed: set<Entry>, ghost all: set<Entry>)
    returns (nextHe: Entry?, ghost chains': seq<seq<Entry>>)
    requires Linked(he, rest) && Moving(rest, placed, all) && rest != []
    requires TableLinked(table, chains, placed) && Placed(chains, hash, mask) && mask + 1 == |chains|
    modifies table, he`next
    ensures Linked(nextHe, rest[1..])
    ensures TableLinked(table, chains', placed + {he}) && Placed(chains', hash, mask) && |chains'| == |chains|
  {
    hide Placed, Moving, TableLinked, Members, And, KeysDiffer;
    nextHe := he.next;
    var h := And(hash(he.key), mask);
    TakeHead(rest, placed, all);
    NodesOf(table, chains, placed);
    PrependPlaced(chains, hash, mask, h, he);
    chains' := chains[h := [he] + chains[h]];
    TailLinked(he, rest);
    PushFront(table, h, he, chains, placed);
  }

  lemma HeadFirst(head: Entry?, c: seq<Entry>)
    requires Linked(head, c) && head != null
    ensures c != [] && c[0] == head
  {
  }

  lemma TailLinked(head: Entry?, c: seq<Entry>)
    requires Linked(head, c) && head != null
    ensures Linked(head.next, c[1..])
  {
    var rest := c[1..];
    assert |c| > 1 ==> c[0].next == c[1];
    assert forall i :: 0 <= i < |rest| ==> rest[i] == c[i + 1];
  }

  /** The entry about to be moved is not in the new table, and neither is its key. */
  lemma TakeHead(rest: seq<Entry>, placed: set<Entry>, all: set<Entry>)
    requires Moving(rest, placed, all) && rest != []
    ensures Moving(rest[1..], placed + {rest[0]}, all)
    ensures rest[0] in SetOf(rest) && SetOf(rest[1..]) <= SetOf(rest) && rest[0] !in rest[1..]
    ensures rest[0] !in placed && forall f :: f in placed ==> f.key != rest[0].key
  {
    hide KeysDiffer;
    HeadKey(rest[0], placed, all);
    assert rest == [rest[0]] + rest[1..];
    assert SetOf(rest) == SetOf(rest[1..]) + {rest[0]};
    assert rest[0] !in rest[1..];
  }

  lemma HeadKey(e: Entry, placed: set<Entry>, all: set<Entry>)
    requires KeysDiffer(all) && placed <= all && e in all && e !in placed
    ensures forall f :: f in placed ==> f.key != e.key
  {
  }

  lemma AllMoved(rest: seq<Entry>, placed: set<Entry>, all: set<Entry>)
    requires Linked(null, rest) && Moving(rest, placed, all)
    ensures placed == all && rest == []
  {
    assert rest == [];
    assert SetOf(rest) == {};
  }

  lemma NodesOf(table: array<Entry?>, chains: seq<seq<Entry>>, nodes: set<Entry>)
    requires TableLinked(table, chains, nodes)
    ensures nodes == Members(chains) && table.Length == |chains|
  {
  }

  lemma NothingPlaced(chains: seq<seq<Entry>>, hash: Key -> nat, mask: nat)
    requires forall b :: 0 <= b < |chains| ==> chains[b] == []
    ensures Placed(chains, hash, mask) && Members(chains) == {}
  {
  }

  /** Two buckets share no entry. */
  ghost predicate Apart(chains: seq<seq<Entry>>, a: nat, b: nat)
    requires a < |chains| && b < |chains|
  {
    forall e :: e in chains[b] ==> e !in SetOf(chains[a])
  }

  /** One more bucket: its entries are new to the buckets before it and not in those after it. */
  lemma TakeBucket(chains: seq<seq<Entry>>, hash: Key -> nat, mask: nat, i: nat)
    requires Placed(chains, hash, mask) && i < |chains|
    ensures Members(chains[..i + 1]) == Members(chains[..i]) + SetOf(chains[i]) <= Members(chains)
    ensures SetOf(chains[i]) !! Members(chains[..i])
    ensures Unique(chains[i])
    ensures forall b :: i < b < |chains| ==> Apart(chains, i, b)
    ensures |SetOf(chains[i])| == |chains[i]|
  {
    hide Members, And;
    PrefixMembers(chains, i);
    PrefixApart(chains, hash, mask, i);
    forall b | i < b < |chains| ensures Apart(chains, i, b) {
      BucketsApart(chains, hash, mask, i, b);
    }
    DistinctCount(chains[i]);
  }

  lemma PrefixMembers(chains: seq<seq<Entry>>, i: nat)
    requires i < |chains|
    ensures Members(chains[..i + 1]) == Members(chains[..i]) + SetOf(chains[i]) <= Members(chains)
  {
    var c := chains[i];
    forall e ensures e in Members(chains[..i + 1]) <==> e in Members(chains[..i]) + SetOf(c) {
      if e in Members(chains[..i + 1]) {
        var b, x := MemberAt(chains[..i + 1], e);
        assert b < i ==> chains[..i][b][x] == e;
      }
      if e in Members(chains[..i]) {
        var b, x := MemberAt(chains[..i], e);
        assert chains[..i + 1][b][x] == e;
      }
      if e in c {
        var x :| 0 <= x < |c| && c[x] == e;
        assert chains[..i + 1][i][x] == e;
      }
    }
    forall e | e in Members(chains[..i + 1]) ensures e in Members(chains) {
      var b, x := MemberAt(chains[..i + 1], e);
      assert chains[b][x] == e;
    }
  }

  lemma PrefixApart(chains: seq<seq<Entry>>, hash: Key -> nat, mask: nat, i: nat)
    requires Placed(chains, hash, mask) && i < |chains|
    ensures SetOf(chains[i]) !! Members(chains[..i])
  {
    forall e | e in Members(chains[..i]) ensures e !in chains[i] {
      var b, x := MemberAt(chains[..i], e);
      assert And(hash(chains[b][x].key), mask) == b;
      BucketsApart(chains, hash, mask, i, b);
      assert e in chains[b];
    }
  }

  lemma BucketsApart(chains: seq<seq<Entry>>, hash: Key -> nat, mask: nat, a: nat, b: nat)
    requires Placed(chains, hash, mask) && a < |chains| && b < |chains| && a != b
    ensures Apart(chains, a, b)
  {
    forall e | e in chains[b] ensures e !in SetOf(chains[a]) {
      var x :| 0 <= x < |chains[b]| && chains[b][x] == e;
      assert And(hash(chains[b][x].key), mask) == b;
    }
  }

  lemma {:induction false} DistinctCount(c: seq<Entry>)
    requires Unique(c)
    ensures |SetOf(c)| == |c|
  {
    if c != [] {
      var n := |c| - 1;
      DistinctCount(c[..n]);
      assert SetOf(c) == SetOf(c[..n]) + {c[n]};
    }
  }

  lemma AllTaken(a: set<Entry>, b: set<Entry>)
    requires a <= b && |a| == |b|
    ensures a == b
  {
    if e :| e in b && e !in a {
      SmallerSet(a, b - {e});
    }
  }

  lemma {:induction false} SmallerSet(a: set<Entry>, b: set<Entry>)
    requires a <= b
    ensures |a| <= |b|
  {
    if e :| e in a {
      SmallerSet(a - {e}, b - {e});
    }
  }

  class Dict {
    const hash: Key -> nat
    var table: array<Entry?>
    var size: nat
    var sizemask: nat
    var used: nat

    ghost var chains: seq<seq<Entry>>
    ghost var nodes: set<Entry>
    ghost var content: map<Key, Val>

    ghost predicate Valid()
      reads this, table, nodes
    {
      && (size == 0 || (IsPow2(size) && size >= INITIAL_SIZE && sizemask == size - 1))
      && |chains| == size && TableLinked(table, chains, nodes)
      && Placed(chains, hash, sizemask)
      && used == |nodes| == |content| <= size
      && HoldsAll(nodes, content)
    }

    constructor (hash: Key -> nat)
      ensures Valid() && fresh(table) && nodes == {} && content == map[] && size == 0
      ensures this.hash == hash
    {
      this.hash := hash;
      table := new Entry?[0];
      size, sizemask, used := 0, 0, 0;
      chains, nodes, content := [], {}, map[];
    }

    /** The entry of a key. */
    method Find(key: Key) returns (r: Entry?)
      requires Valid()
      ensures r == null <==> key !in content
      ensures r != null ==> r in nodes && r.key == key && r.val == content[key]
    {
      if size == 0 {
        return null;
      }
      var h := And(hash(key), sizemask);
      r := Search(h, key);
      NotElsewhere(h, key);
    }

    /** The scan of one bucket. */
    method Search(h: nat, key: Key) returns (r: Entry?)
      requires h < |chains| && TableLinked(table, chains, nodes)
      ensures r == null ==> forall i :: 0 <= i < |chains[h]| ==> chains[h][i].key != key
      ensures r != null ==> r in chains[h] && r.key == key
    {
      ghost var c, i := chains[h], 0;
      var he := table[h];
      while he != null
        invariant 0 <= i <= |c| && he == (if i < |c| then c[i] else null)
        invariant forall j :: 0 <= j < i ==> c[j].key != key
        decreases |c| - i
      {
        if he.key == key {
          return he;
        }
        assert i + 1 < |c| ==> c[i].next == c[i + 1];
        he := he.next;
        i := i + 1;
      }
      return null;
    }

    /** A key that is not in its own bucket is nowhere. */
    lemma NotElsewhere(h: nat, key: Key)
      requires Valid() && size > 0 && h == And(hash(key), sizemask)
      ensures (forall i :: 0 <= i < |chains[h]| ==> chains[h][i].key != key) ==> key !in content
      ensures forall e :: e in chains[h] ==> e in nodes
    {
      NodesOf(table, chains, nodes);
      BucketsWithin(chains, h);
      if e :| e in nodes && e.key == key {
        var b, i := MemberAt(chains, e);
        assert And(hash(chains[b][i].key), sizemask) == b;
      }
    }

    /** Makes sure there is a table with a free place. */
    method ExpandIfNeeded()
      requires Valid()
      modifies this`table, this`size, this`sizemask, this`used, this`chains, nodes`next
      ensures Valid() && used == old(used) < size
      ensures table == old(table) || fresh(table)
      ensures if old(size) == 0 then size == 4
              else if old(used) == old(size) then size == old(size) * 2
              else table == old(table) && size == old(size) && chains == old(chains)
    {
      hide LeastPower, Placed, TableLinked, HoldsAll;
      if size == 0 {
        var ok := Expand(INITIAL_SIZE);
        FirstSize(size);
      } else if used == size {
        ghost var was := size;
        var ok := Expand(size * 2);
        Doubled(was, size);
      }
    }

    /** Every entry is in the bucket that the hash of its key leaves as its remainder. */
    lemma BucketOfHash(b: nat, i: nat)
      requires Valid() && b < |chains| && i < |chains[b]|
      ensures size > 0 && hash(chains[b][i].key) % size == b
    {
      MaskOfHash(chains[b][i].key);
    }

    lemma MaskOfHash(key: Key)
      requires Valid() && size > 0
      ensures And(hash(key), sizemask) == hash(key) % size
    {
      hide Placed, Members, TableLinked, And, IsPow2, HoldsAll;
      MaskIsRemainder(hash(key), size);
    }

    /** The bucket for a new key, or -1 when the key is already there. */
    method KeyIndex(key: Key) returns (index: int)
      requires Valid()
      modifies this`table, this`size, this`sizemask, this`used, this`chains, nodes`next
      ensures Valid() && used == old(used) < size
      ensures table == old(table) || fresh(table)
      ensures index == -1 <==> key in content
      ensures index != -1 ==> 0 <= index < size && index == And(hash(key), sizemask) == hash(key) % size
    {
      ExpandIfNeeded();
      var h := And(hash(key), sizemask);
      LinkedTable();
      var he := Search(h, key);
      NotElsewhere(h, key);
      MaskOfHash(key);
      if he != null {
        HeldKey(he);
        return -1;
      }
      return h;
    }

    lemma LinkedTable()
      requires Valid()
      ensures |chains| == table.Length == size && TableLinked(table, chains, nodes)
    {
    }

    lemma HeldKey(e: Entry)
      requires Valid() && e in nodes
      ensures e.key in content && content[e.key] == e.val
    {
    }

    /** Adds a new key; refuses one that is already there. */
    method Add(key: Key, val: Val) returns (ok: bool)
      requires Valid()
      modifies this, table, nodes`next
      ensures Valid() && ok == (key !in old(content))
      ensures content == if ok then old(content)[key := val] else old(content)
      ensures table == old(table) || fresh(table)
      ensures fresh(nodes - old(nodes)) && if ok then old(nodes) <= nodes else nodes == old(nodes)
    {
      hide Valid, And;
      var index := KeyIndex(key);
      if index == -1 {
        return false;
      }
      Link(index, key, val);
      return true;
    }

    /** Puts a new entry at the head of its bucket. */
    method Link(index: nat, key: Key, val: Val)
      requires Valid() && used < size && index == And(hash(key), sizemask) < size && key !in content
      modifies this`used, this`chains, this`nodes, this`content, table
      ensures Valid() && content == old(content)[key := val]
      ensures fresh(nodes - old(nodes)) && old(nodes) <= nodes
    {
      hide Placed, Members, TableLinked, Linked, And, IsPow2, HoldsAll, Valid;
      var entry := new Entry(key, val, null);
      ReadyToLink(index, entry);
      PushFront(table, index, entry, chains, nodes);
      used := used + 1;
      Record(chains[index := [entry] + chains[index]], nodes + {entry}, content[key := val]);
    }

    /** Takes over what the table now holds. */
    ghost method Record(chains': seq<seq<Entry>>, nodes': set<Entry>, content': map<Key, Val>)
      requires IsPow2(size) && size >= INITIAL_SIZE && sizemask == size - 1
      requires |chains'| == size && TableLinked(table, chains', nodes') && Placed(chains', hash, sizemask)
      requires used == |nodes'| == |content'| <= size && HoldsAll(nodes', content')
      modifies this`chains, this`nodes, this`content
      ensures Valid() && chains == chains' && nodes == nodes' && content == content'
    {
      hide Placed, Members, TableLinked, Linked, And, IsPow2, HoldsAll, Valid;
      chains, nodes, content := chains', nodes', content';
      Assembled();
    }

    /** Everything Valid asks for, piece by piece. */
    lemma Assembled()
      requires IsPow2(size) && size >= INITIAL_SIZE && sizemask == size - 1
      requires |chains| == size && TableLinked(table, chains, nodes) && Placed(chains, hash, sizemask)
      requires used == |nodes| == |content| <= size && HoldsAll(nodes, content)
      ensures Valid()
    {
    }

    lemma ReadyToLink(index: nat, entry: Entry)
      requires Valid() && used < size && index == And(hash(entry.key), sizemask) < size
      requires entry !in nodes && entry.key !in content
      ensures IsPow2(size) && size >= INITIAL_SIZE && sizemask == size - 1
      ensures |chains| == size && TableLinked(table, chains, nodes)
      ensures Placed(chains[index := [entry] + chains[index]], hash, sizemask)
      ensures used + 1 == |nodes + {entry}| == |content[entry.key := entry.val]| <= size
      ensures HoldsAll(nodes + {entry}, content[entry.key := entry.val])
    {
      hide Placed, Members, TableLinked, Linked, And, IsPow2, HoldsAll;
      NodesOf(table, chains, nodes);
      HoldsOneMore(entry);
      KeyIsNew(entry.key);
      PrependPlaced(chains, hash, sizemask, index, entry);
    }

    lemma NoKeys()
      requires Valid() && size == 0
      ensures content == map[]
    {
    }

    lemma PlaceOf(key: Key)
      requires Valid() && size > 0
      ensures var h := And(hash(key), sizemask);
        h < size == |chains| == table.Length && table[h] == if chains[h] == [] then null else chains[h][0]
    {
      hide Placed, Members;
    }

    lemma ReadyToCut(h: nat, i: nat)
      requires Valid() && h < |chains| && i < |chains[h]|
      ensures var e := chains[h][i];
        && |chains| == size && IsPow2(size) && size >= INITIAL_SIZE && sizemask == size - 1 && TableLinked(table, chains, nodes)
        && Placed(Cut(chains, h, i), hash, sizemask) && Members(Cut(chains, h, i)) == nodes - {e}
        && used - 1 == |nodes - {e}| == |content - {e.key}| && used <= size
        && HoldsAll(nodes - {e}, content - {e.key}) && e in nodes && e.key in content
      ensures Unique(chains[h]) && forall b :: 0 <= b < |chains| && b != h ==> Apart(chains, h, b)
    {
      hide Placed, Members, TableLinked, Linked, And, IsPow2, HoldsAll, Unique, Apart, KeysDiffer;
      var e := chains[h][i];
      NodesOf(table, chains, nodes);
      BucketsWithin(chains, h);
      assert e in BucketIn(chains, h);
      CutMembers(chains, hash, sizemask, h, i);
      CutPlaced(chains, hash, sizemask, h, i);
      TakeBucket(chains, hash, sizemask, h);
      forall b | 0 <= b < |chains| && b != h ensures Apart(chains, h, b) {
        BucketsApart(chains, hash, sizemask, h, b);
      }
      PlacedDiffer(chains, hash, sizemask);
      HoldsOneLess(e);
      assert content == (content - {e.key})[e.key := content[e.key]];
    }

    lemma HoldsOneLess(e: Entry)
      requires HoldsAll(nodes, content) && e in nodes && KeysDiffer(nodes)
      ensures e.key in content && HoldsAll(nodes - {e}, content - {e.key})
    {
    }

    lemma HoldsOneMore(entry: Entry)
      requires HoldsAll(nodes, content) && entry !in nodes && entry.key !in content
      ensures HoldsAll(nodes + {entry}, content[entry.key := entry.val])
    {
    }

    lemma KeyIsNew(key: Key)
      requires Valid() && key !in content
      ensures nodes == Members(chains) && forall f :: f in Members(chains) ==> f.key != key
    {
    }

    /** Removes a key; b and i are where its entry was. */
    method Delete(key: Key) returns (ok: bool, ghost b: nat, ghost i: nat)
      requires Valid()
      modifies this`used, this`chains, this`nodes, this`content, table, nodes`next
      ensures Valid() && ok == (key in old(content)) && content == old(content) - {key}
      ensures ok ==> b < |old(chains)| && i < |old(chains)[b]| && old(chains)[b][i].key == key
      ensures if ok then chains == Cut(old(chains), b, i) else chains == old(chains)
      ensures nodes <= old(nodes)
    {
      hide Placed, Members, TableLinked, And, IsPow2, HoldsAll, Valid;
      ok, b, i := false, 0, 0;
      LinkedTable();
      if size == 0 {
        NoKeys();
        return;
      }
      PlaceOf(key);
      var h := And(hash(key), sizemask);
      var prevde, de;
      prevde, de, i := SearchWithPrevious(h, key);
      if de == null {
        NotElsewhere(h, key);
        return;
      }
      Unlink(h, prevde, de, i);
      ok, b := true, h;
    }

    /** The scan of one bucket that remembers the entry before. */
    method SearchWithPrevious(h: nat, key: Key) returns (prevde: Entry?, de: Entry?, ghost i: nat)
      requires h < |chains| == table.Length && TableLinked(table, chains, nodes)
      ensures de == null ==> forall j :: 0 <= j < |chains[h]| ==> chains[h][j].key != key
      ensures de != null ==> i < |chains[h]| && de == chains[h][i] && de.key == key
      ensures de != null ==> prevde == if i == 0 then null else chains[h][i - 1]
    {
      ghost var c := chains[h];
      BucketAt(h);
      prevde, de, i := null, table[h], 0;
      while de != null
        invariant 0 <= i <= |c| && de == (if i < |c| then c[i] else null)
        invariant prevde == if i == 0 then null else c[i - 1]
        invariant forall j :: 0 <= j < i ==> c[j].key != key
        decreases |c| - i
      {
        if de.key == key {
          return;
        }
        assert i + 1 < |c| ==> c[i].next == c[i + 1];
        prevde := de;
        de := de.next;
        i := i + 1;
      }
    }

    lemma BucketAt(h: nat)
      requires h < |chains| == table.Length && TableLinked(table, chains, nodes)
      ensures Linked(table[h], chains[h])
    {
    }

    /** Takes the entry at place i of a bucket out of the table. */
    method Unlink(h: nat, prevde: Entry?, de: Entry, ghost i: nat)
      requires Valid() && h < |chains| == table.Length && i < |chains[h]| && de == chains[h][i]
      requires prevde == if i == 0 then null else chains[h][i - 1]
      modifies this`used, this`chains, this`nodes, this`content, table, nodes`next
      ensures Valid() && de.key in old(content) && content == old(content) - {de.key}
      ensures chains == Cut(old(chains), h, i) && nodes <= old(nodes)
    {
      hide Placed, Members, TableLinked, And, IsPow2, HoldsAll, Valid, Linked, Unique, Apart;
      ReadyToCut(h, i);
      CutOut(table, h, prevde, de, i, chains, nodes);
      used := used - 1;
      Record(Cut(chains, h, i), nodes - {de}, content - {de.key});
    }

    /** Sets the value of a key; true when the key is new. */
    method Replace(key: Key, val: Val) returns (added: bool)
      requires Valid()
      modifies this, table, nodes
      ensures Valid() && content == old(content)[key := val]
      ensures added == (key !in old(content))
      ensures (table == old(table) || fresh(table)) && fresh(nodes - old(nodes))
    {
      hide Valid, And;
      added := Add(key, val);
      if added {
        return;
      }
      var entry := Find(key);
      SetValue(entry, val);
    }

    method SetValue(entry: Entry, val: Val)
      requires Valid() && entry in nodes
      modifies this`content, entry`val
      ensures Valid() && content == old(content)[entry.key := val]
    {
      hide Placed, Members, TableLinked, Linked, And, IsPow2;
      NodesOf(table, chains, nodes);
      PlacedDiffer(chains, hash, sizemask);
      HeldKey(entry);
      entry.val := val;
      content := content[entry.key := val];
    }

    /** Creates or enlarges the table and moves every entry to its new bucket. */
    method Expand(newSize: nat) returns (ok: bool)
      requires Valid()
      modifies this`table, this`size, this`sizemask, this`used, this`chains, nodes`next
      ensures Valid()
      ensures ok <==> old(used) <= newSize
      ensures ok ==> fresh(table) && LeastPower(size, newSize)
      ensures !ok ==> table == old(table) && size == old(size)
    {
      var realsize := NextPower(newSize);
      if used > newSize {
        return false;
      }
      Rebuild(realsize);
      return true;
    }

    /** Replaces the table by one of the given size. */
    method Rebuild(realsize: nat)
      requires Valid() && IsPow2(realsize) && realsize >= INITIAL_SIZE && used <= realsize
      modifies this`table, this`size, this`sizemask, this`used, this`chains, nodes`next
      ensures Valid() && fresh(table) && size == realsize
    {
      hide Placed, KeysDiffer, IsPow2, TableLinked, Members, Linked, HoldsAll;
      PlacedDiffer(chains, hash, sizemask);
      NodesOf(table, chains, nodes);
      var nTable := new Entry?[realsize](_ => null);
      var nUsed := used;
      ghost var nChains := Migrate(nTable);
      assert used == 0;
      table := nTable;
      size := realsize;
      sizemask := realsize - 1;
      used := nUsed;
      chains := nChains;
    }

    /** The old buckets from i on. */
    ghost predicate RestLinked(i: nat)
      requires |chains| == size == table.Length && nodes == Members(chains)
      reads this, table, nodes
    {
      forall b :: i <= b < size ==> BucketIn(chains, b) <= nodes && Linked(table[b], chains[b])
    }

    /** Empties the old buckets one by one into a new table, counting the entries down. */
    method Migrate(nTable: array<Entry?>) returns (ghost nChains: seq<seq<Entry>>)
      requires |chains| == size && TableLinked(table, chains, nodes) && Placed(chains, hash, sizemask)
      requires used == |nodes| && KeysDiffer(nodes) && nTable != table
      requires nTable.Length > 0 && forall b :: 0 <= b < nTable.Length ==> nTable[b] == null
      modifies this`used, nTable, nodes`next
      ensures TableLinked(nTable, nChains, nodes) && Placed(nChains, hash, nTable.Length - 1)
      ensures |nChains| == nTable.Length && used == 0
    {
      hide Placed, Members, KeysDiffer, RestLinked, TableLinked, Linked, BucketIn;
      nChains := seq(nTable.Length, _ => []);
      EmptyTable(nTable, nChains, hash);
      NothingPlaced(chains[..0], hash, 0);
      RestOfAll();
      ghost var moved := {};
      var i := 0;
      while i < size && used > 0
        invariant 0 <= i <= size == |chains| == table.Length && |nChains| == nTable.Length
        invariant TableLinked(nTable, nChains, moved) && Placed(nChains, hash, nTable.Length - 1)
        invariant moved == Members(chains[..i]) && moved <= nodes == Members(chains)
        invariant used + |moved| == |nodes|
        invariant RestLinked(i)
      {
        nChains, moved := MoveBucket(i, nTable, nChains, moved);
        i := i + 1;
      }
      assert chains[..size] == chains;
      AllTaken(moved, nodes);
    }

    lemma RestOfAll()
      requires |chains| == size && TableLinked(table, chains, nodes)
      ensures table.Length == size && nodes == Members(chains) && RestLinked(0)
    {
    }

    method MoveBucket(i: nat, nTable: array<Entry?>, ghost nChains: seq<seq<Entry>>, ghost moved: set<Entry>)
      returns (ghost nChains': seq<seq<Entry>>, ghost moved': set<Entry>)
      requires |chains| == size == table.Length && Placed(chains, hash, sizemask) && i < size
      requires nodes == Members(chains) && KeysDiffer(nodes) && nTable != table && RestLinked(i)
      requires |nChains| == nTable.Length > 0
      requires TableLinked(nTable, nChains, moved) && Placed(nChains, hash, nTable.Length - 1)
      requires moved == Members(chains[..i]) && moved <= nodes && used + |moved| == |nodes|
      modifies this`used, nTable, nodes`next
      ensures |nChains'| == nTable.Length
      ensures TableLinked(nTable, nChains', moved') && Placed(nChains', hash, nTable.Length - 1)
      ensures moved' == Members(chains[..i + 1]) && moved' <= nodes && used + |moved'| == |nodes|
      ensures RestLinked(i + 1)
    {
      hide Placed, Members, TableLinked, SetOf, BucketIn, KeysDiffer, Linked, Unique, Moving;
      TakeBucket(chains, hash, sizemask, i);
      nChains', moved' := nChains, moved;
      if table[i] != null {
        ghost var own := SetOf(chains[i]);
        DifferInPart(nodes, moved + own);
        StartMoving(chains[i], moved);
        var n;
        n, nChains' := MoveChain(table[i], chains[i], nTable, hash, nTable.Length - 1, nChains, moved, own);
        moved' := moved + own;
        SmallerSet(moved', nodes);
        used := used - n;
        forall b | i + 1 <= b < size ensures Linked(table[b], chains[b]) {
          assert Apart(chains, i, b);
          assert old(Linked(table[b], chains[b]));
        }
      } else {
        EmptyBucket(table[i], chains[i]);
      }
    }
  }

  lemma EmptyTable(table: array<Entry?>, chains: seq<seq<Entry>>, hash: Key -> nat)
    requires |chains| == table.Length > 0
    requires forall b :: 0 <= b < |chains| ==> table[b] == null && chains[b] == []
    ensures TableLinked(table, chains, {}) && Placed(chains, hash, table.Length - 1)
  {
    NothingPlaced(chains, hash, 0);
  }

  lemma DifferInPart(all: set<Entry>, part: set<Entry>)
    requires part <= all && KeysDiffer(all)
    ensures KeysDiffer(part)
  {
  }

  lemma StartMoving(c: seq<Entry>, moved: set<Entry>)
    requires Unique(c) && SetOf(c) !! moved && KeysDiffer(moved + SetOf(c))
    ensures Moving(c, moved, moved + SetOf(c))
  {
  }

  lemma EmptyBucket(head: Entry?, c: seq<Entry>)
    requires Linked(head, c) && head == null
    ensures SetOf(c) == {}
  {
  }
}
