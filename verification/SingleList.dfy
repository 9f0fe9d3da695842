/** The watcher's search queue: a linked list with a first and a last node. */
module SingleList {
  import opened Records

  class Node<T> {
    var next: Node?<T>
    const value: T

    constructor (value: T)
      ensures this.value == value && next == null
    {
      this.value := value;
      next := null;
    }
  }

  /** The list refines a sequence. A drained list keeps a stale last node, which nothing reads. */
  class SingleLL<T> {
    var first: Node?<T>
    var last: Node?<T>
    /** The nodes from first to last; none in a drained list. */
    ghost var spine: seq<Node<T>>

    ghost predicate Valid()
      reads this, spine
    {
      && (spine == [] <==> first == null)
      && (spine != [] ==> first == spine[0] && last == spine[|spine| - 1] && spine[|spine| - 1].next == null)
      && (forall i :: 0 <= i < |spine| - 1 ==> spine[i].next == spine[i + 1])
      && (forall i, j :: 0 <= i < j < |spine| ==> spine[i] != spine[j])
    }

    ghost function Contents(): (s: seq<T>)
      reads this
      ensures |s| == |spine|
    {
      seq(|spine|, i requires 0 <= i < |spine| reads this => spine[i].value)
    }

    constructor ()
      ensures Valid() && Contents() == []
    {
      first, last, spine := null, null, [];
    }

    method Push(v: T)
      requires Valid()
      modifies this, spine
      ensures Valid() && |spine| == |old(spine)| + 1 && spine[..|old(spine)|] == old(spine) && fresh(spine[|spine| - 1])
      ensures Contents() == old(Contents()) + [v]
    {
      var n := new Node(v);
      if first == null {
        first, last, spine := n, n, [n];
        return;
      }
      last.next := n;
      last := n;
      spine := spine + [n];
    }

    method Pop() returns (r: Option<T>)
      requires Valid()
      modifies this
      ensures Valid()
      ensures old(Contents()) == [] ==> r == None && Contents() == [] && last == old(last)
      ensures old(Contents()) != [] ==>
        && r == Some(old(Contents())[0]) && Contents() == old(Contents())[1..]
        && spine == old(spine)[1..] && last == old(last)
    {
      if first == null {
        return None;
      }
      var n := first;
      assert n.next == if |spine| > 1 then spine[1] else null;
      first := n.next;
      spine := spine[1..];
      r := Some(n.value);
    }
  }
}
