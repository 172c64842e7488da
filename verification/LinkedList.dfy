/** The generic doubly linked list that the other policies are built on, proved against a sequence. */
module LinkedList {

  class Node<T> {
    const value: T
    var prev: Node?<T>
    var next: Node?<T>

    constructor (value: T)
      ensures this.value == value && prev == null && next == null
    {
      this.value := value;
      prev, next := null, null;
    }
  }

  class List<T> {
    var head: Node?<T>
    var tail: Node?<T>
    var len: int
    /** The nodes of the list, front first. */
    ghost var chain: seq<Node<T>>

    /** Both link directions and both ends are those of `c`, which has no repeats. */
    ghost predicate Chained(c: seq<Node<T>>)
      reads `head, `tail, c
    {
      && head == (if c == [] then null else c[0])
      && tail == (if c == [] then null else c[|c| - 1])
      && (forall i, j :: 0 <= i < j < |c| ==> c[i] != c[j])
      && (forall i {:trigger c[i].prev} :: 0 <= i < |c| ==> c[i].prev == if i == 0 then null else c[i - 1])
      && (forall i {:trigger c[i].next} :: 0 <= i < |c| ==> c[i].next == if i == |c| - 1 then null else c[i + 1])
    }

    ghost predicate Valid()
      reads this, chain
    {
      len == |chain| && Chained(chain)
    }

    constructor ()
      ensures Valid() && chain == []
    {
      head, tail, len, chain := null, null, 0, [];
    }

    method PushFront(value: T) returns (n: Node<T>)
      requires Valid()
      modifies this, chain
      ensures Valid() && fresh(n) && n.value == value
      ensures chain == [n] + old(chain)
    {
      n := new Node(value);
      if head == null {
        head := n;
        tail := n;
      } else {
        n.next := head;
        head.prev := n;
        head := n;
      }
      len := len + 1;
      chain := [n] + chain;
    }

    method PushBack(value: T) returns (n: Node<T>)
      requires Valid()
      modifies this, chain
      ensures Valid() && fresh(n) && n.value == value
      ensures chain == old(chain) + [n]
    {
      n := new Node(value);
      if tail == null {
        head := n;
        tail := n;
      } else {
        n.prev := tail;
        tail.next := n;
        tail := n;
      }
      len := len + 1;
      chain := chain + [n];
    }

    /** Unlink a member other than the head; the rest is still linked in order. */
    method Bypass(n: Node<T>, ghost i: nat)
      requires Chained(chain) && 0 < i < |chain| && chain[i] == n
      modifies `tail, chain
      ensures Chained(chain[..i] + chain[i + 1..])
    {
      ghost var rest := chain[..i] + chain[i + 1..];
      assert forall j :: 0 <= j < |rest| ==> rest[j] == chain[if j < i then j else j + 1];
      if n == tail {
        tail := n.prev;
        tail.next := null;
      } else {
        n.prev.next := n.next;
        n.next.prev := n.prev;
      }
    }

    /** Moving any member, wherever it stands, to the front keeps the others in order. */
    method MoveToFront(n: Node<T>, ghost i: nat)
      requires Valid() && i < |chain| && chain[i] == n
      modifies this, chain
      ensures Valid()
      ensures chain == [n] + old(chain)[..i] + old(chain)[i + 1..]
    {
      if n == head || len <= 1 {
        return;
      }
      ghost var rest := chain[..i] + chain[i + 1..];
      assert forall j :: 0 <= j < |rest| ==> rest[j] != n;
      Bypass(n, i);
      n.prev := null;
      n.next := head;
      head.prev := n;
      head := n;
      chain := [n] + rest;
      assert chain == [n] + old(chain)[..i] + old(chain)[i + 1..];
    }

    method Remove(n: Node<T>, ghost i: nat)
      requires Valid() && i < |chain| && chain[i] == n
      modifies this, chain
      ensures Valid()
      ensures chain == old(chain)[..i] + old(chain)[i + 1..]
      ensures n.prev == null && n.next == null
    {
      if n.prev != null {
        n.prev.next := n.next;
      } else {
        head := n.next;
      }
      if n.next != null {
        n.next.prev := n.prev;
      } else {
        tail := n.prev;
      }
      n.prev := null;
      n.next := null;
      len := len - 1;
      chain := chain[..i] + chain[i + 1..];
    }

    /** The walk from the head ends, having seen every value once, front to back. */
    method ToSlice() returns (r: seq<T>)
      requires Valid()
      ensures |r| == |chain|
      ensures forall i :: 0 <= i < |r| ==> r[i] == chain[i].value
    {
      r := [];
      var cur := head;
      while cur != null
        invariant |r| <= |chain|
        invariant cur == (if |r| == |chain| then null else chain[|r|])
        invariant forall i :: 0 <= i < |r| ==> r[i] == chain[i].value
        decreases |chain| - |r|
      {
        r := r + [cur.value];
        cur := cur.next;
      }
    }
  }
}
