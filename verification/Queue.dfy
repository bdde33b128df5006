/** The linked queue behind the package list and the request queues. */
module Queue {
  import opened Bytes

  class QNode<T> {
    const data: T
    var next: QNode?<T>

    constructor (data: T)
      ensures this.data == data && next == null
    {
      this.data, next := data, null;
    }
  }

  class Queue<T> {
    var head: QNode?<T>
    var tail: QNode?<T>
    ghost var spine: seq<QNode<T>> // the nodes from head to tail

    ghost predicate Valid()
      reads this, spine
    {
      && (|spine| == 0 <==> head == null) && (|spine| == 0 <==> tail == null)
      && (|spine| > 0 ==> head == spine[0] && tail == spine[|spine| - 1] && spine[|spine| - 1].next == null)
      && (forall k | 0 <= k < |spine| - 1 :: spine[k].next == spine[k + 1])
      && forall j, k | 0 <= j < k < |spine| :: spine[j] != spine[k]
    }

    ghost function Contents(): (c: seq<T>)
      reads this
      ensures |c| == |spine| && forall k | 0 <= k < |c| :: c[k] == spine[k].data
    {
      seq(|spine|, k requires 0 <= k < |spine| reads this => spine[k].data)
    }

    /** q_init. */
    constructor ()
      ensures Valid() && Contents() == [] && spine == []
    {
      head, tail, spine := null, null, [];
    }

    /** q_enqueue. */
    method Enqueue(data: T)
      requires Valid()
      modifies this, spine
      ensures Valid() && Contents() == old(Contents()) + [data]
      ensures |spine| == |old(spine)| + 1 && spine[..|old(spine)|] == old(spine) && fresh(spine[|old(spine)|])
    {
      var newNode := new QNode<T>(data);
      if tail != null {
        tail.next := newNode;
      } else {
        head := newNode;
      }
      tail := newNode;
      spine := spine + [newNode];
    }

    /** q_dequeue. */
    method Dequeue() returns (r: Option<T>)
      requires Valid()
      modifies this
      ensures Valid()
      ensures old(Contents()) == [] ==> r == None && Contents() == [] && spine == []
      ensures old(Contents()) != [] ==> r == Some(old(Contents())[0]) && Contents() == old(Contents())[1..]
      ensures old(spine) != [] ==> spine == old(spine)[1..]
    {
      if head == null {
        return None;
      }
      ghost var nodes := spine;
      var temp := head;
      ghost var second: QNode?<T> := if |nodes| > 1 then nodes[1] else null;
      assert temp == nodes[0] && temp.next == second && (second == null <==> |nodes| == 1);
      head := head.next;
      if head == null {
        tail := null;
      }
      spine := nodes[1..];
      assert forall k | 0 <= k < |spine| :: spine[k] == nodes[k + 1];
      r := Some(temp.data);
    }

    /** q_empty. */
    method Empty() returns (empty: bool)
      requires Valid()
      ensures empty <==> Contents() == []
    {
      empty := head == null && tail == null;
    }

    /** The relinking pkgs_rem does: node k leaves the list, the tail moves back if it was the last. */
    method Unlink(current: QNode<T>, previous: QNode?<T>, ghost k: nat)
      requires Valid() && k < |spine| && current == spine[k]
      requires (k > 0 ==> previous == spine[k - 1]) && (k == 0 ==> previous == null)
      modifies this, spine
      ensures Valid() && spine == old(spine)[..k] + old(spine)[k + 1..]
      ensures Contents() == old(Contents())[..k] + old(Contents())[k + 1..]
    {
      ghost var nodes := spine;
      ghost var after: QNode?<T> := if k + 1 < |nodes| then nodes[k + 1] else null;
      assert current.next == after && (after == null <==> k + 1 == |nodes|);
      if previous != null {
        previous.next := current.next;
      } else {
        head := current.next;
      }
      if current == tail {
        tail := previous;
      }
      spine := nodes[..k] + nodes[k + 1..];
      assert forall j | 0 <= j < k :: spine[j] == nodes[j];
      assert forall j | k <= j < |spine| :: spine[j] == nodes[j + 1];
    }
  }
}
