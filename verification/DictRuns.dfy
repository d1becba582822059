/** Whole runs of table operations, answered as a map would. */
module DictRuns {
  import opened Bytes
  import opened Dict

  datatype Op = OpAdd(key: Key, val: Val) | OpReplace(key: Key, val: Val) | OpDelete(key: Key) | OpFind(key: Key)

  datatype Answer = Done(ok: bool) | Found(val: Option<Val>)

  /** What an operation does to a map, and what it answers. */
  function Apply(m: map<Key, Val>, op: Op): (map<Key, Val>, Answer) {
    match op
    case OpAdd(k, v) => (if k in m then m else m[k := v], Done(k !in m))
    case OpReplace(k, v) => (m[k := v], Done(k !in m))
    case OpDelete(k) => (m - {k}, Done(k in m))
    case OpFind(k) => (m, Found(if k in m then Some(m[k]) else None))
  }

  /** The answers of a run over a map. */
  function Answers(m: map<Key, Val>, ops: seq<Op>): (r: seq<Answer>)
    ensures |r| == |ops|
    decreases ops
  {
    if ops == [] then [] else [Apply(m, ops[0]).1] + Answers(Apply(m, ops[0]).0, ops[1..])
  }

  /** One operation on the table does what it does on its map. */
  method Perform(d: Dict, op: Op) returns (a: Answer)
    requires d.Valid()
    modifies d, d.table, d.nodes
    ensures d.Valid() && (d.content, a) == Apply(old(d.content), op)
    ensures (d.table == old(d.table) || fresh(d.table)) && fresh(d.nodes - old(d.nodes))
  {
    hide Dict.Valid;
    match op
    case OpAdd(k, v) =>
      var ok := d.Add(k, v);
      a := Done(ok);
    case OpReplace(k, v) =>
      var ok := d.Replace(k, v);
      a := Done(ok);
    case OpDelete(k) =>
      var ok, _, _ := d.Delete(k);
      a := Done(ok);
    case OpFind(k) =>
      var e := d.Find(k);
      a := Found(if e == null then None else Some(e.val));
  }

  /** Every run answers as a map would, whatever the hash function and however the entries are spread. */
  method RunOps(d: Dict, ops: seq<Op>) returns (answers: seq<Answer>)
    requires d.Valid()
    modifies d, d.table, d.nodes
    ensures d.Valid() && answers == Answers(old(d.content), ops)
    decreases ops
  {
    hide Dict.Valid, Apply;
    if ops == [] {
      return [];
    }
    var a := Perform(d, ops[0]);
    var rest := RunOps(d, ops[1..]);
    answers := [a] + rest;
  }

  method RunNew(hash: Key -> nat, ops: seq<Op>) returns (answers: seq<Answer>)
    ensures answers == Answers(map[], ops)
  {
    var d := new Dict(hash);
    answers := RunOps(d, ops);
  }
}
