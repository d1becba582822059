/** The linked list of callbacks waiting for replies, with its head and tail pointers. */
module CallbackQueue {
  import opened Bytes

  /** fn is None for a command without a callback; the number stands for function and data. */
  datatype Callback = Callback(fn: Option<nat>)

  class Node {
    const cb: Callback
    var next: Node?

    constructor (cb: Callback)
      ensures this.cb == cb && next == null
    {
      this.cb := cb;
      next := null;
    }
  }

  class CallbackList {
    var head: Node?
    var tail: Node?

    /** The nodes from head to tail. */
    ghost var spine: seq<Node>
    ghost var Repr: set<object>

    ghost predicate Valid()
      reads this, Repr
      ensures Valid() ==> this in Repr && (head == null <==> Contents() == [])
    {
      && this in Repr && (forall n :: n in spine ==> n in Repr)
      && (forall i, j :: 0 <= i < j < |spine| ==> spine[i] != spine[j])
      && (if spine == [] then head == null && tail == null
          else head == spine[0] && tail == spine[|spine| - 1] && tail.next == null)
      && (forall i :: 0 <= i < |spine| - 1 ==> spine[i].next == spine[i + 1])
    }

    ghost function Contents(): (r: seq<Callback>)
      reads this
      ensures |r| == |spine| && forall i :: 0 <= i < |r| ==> r[i] == spine[i].cb
    {
      seq(|spine|, i requires 0 <= i < |spine| reads this => spine[i].cb)
    }

    constructor ()
      ensures Valid() && fresh(Repr) && Contents() == []
    {
      head, tail := null, null;
      spine := [];
      Repr := {this};
    }

    method Push(cb: Callback)
      requires Valid()
      modifies Repr
      ensures Valid() && fresh(Repr - old(Repr))
      ensures Contents() == old(Contents()) + [cb]
    {
      var node := new Node(cb);
      if head == null {
        head := node;
      }
      if tail != null {
        tail.next := node;
      }
      tail := node;
      spine := spine + [node];
      Repr := Repr + {node};
    }

    method Shift() returns (r: Option<Callback>)
      requires Valid()
      modifies Repr
      ensures Valid() && fresh(Repr - old(Repr))
      ensures if old(Contents()) == [] then r == None && Contents() == []
              else r == Some(old(Contents())[0]) && Contents() == old(Contents())[1..]
    {
      var node := head;
      if node == null {
        return None;
      }
      assert |spine| > 1 ==> spine[0].next == spine[1];
      head := node.next;
      if node == tail {
        tail := null;
      }
      ghost var before := spine;
      spine := spine[1..];
      assert forall i :: 0 <= i < |spine| ==> spine[i] == before[i + 1];
      return Some(node.cb);
    }
  }
}
