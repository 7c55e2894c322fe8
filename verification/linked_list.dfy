/** The singly linked list that holds a student's enrolled subject codes:
    nodes linked by `next` from `head`, a cached `size`, appending at the
    tail and removal of the first node holding a value. */
module LinkedList {
  import opened Seqs

  class Node<T> {
    var value: T
    var next: Node?<T>

    constructor (value: T)
      ensures this.value == value && next == null
    {
      this.value := value;
      next := null;
    }
  }

  class SinglyLinkedList<T(==)> {
    var head: Node?<T>
    var size: int
    /** The nodes reachable from `head`, in link order. */
    ghost var nodes: seq<Node<T>>
    /** The values of `nodes`, in order: what iterating the list yields. */
    ghost var Contents: seq<T>
    ghost var Repr: set<object>

    ghost predicate Valid()
      reads this, Repr
    {
      && this in Repr
      && (forall i :: 0 <= i < |nodes| ==> nodes[i] in Repr)
      && Distinct(nodes)
      && |Contents| == |nodes| == size
      && head == (if nodes == [] then null else nodes[0])
      && (forall i :: 0 <= i < |nodes| ==> nodes[i].value == Contents[i])
      && (forall i :: 0 <= i < |nodes| - 1 ==> nodes[i].next == nodes[i + 1])
      && (nodes != [] ==> nodes[|nodes| - 1].next == null)
    }

    /** `SinglyLinkedList(values)`: an empty list, then every value appended in order. */
    constructor (values: seq<T>)
      ensures Valid() && fresh(Repr)
      ensures Contents == values
    {
      head := null;
      size := 0;
      nodes := [];
      Contents := [];
      Repr := {this};
      new;
      var i := 0;
      while i < |values|
        invariant 0 <= i <= |values|
        invariant Valid() && fresh(Repr)
        invariant Contents == values[..i]
      {
        Append(values[i]);
        i := i + 1;
      }
    }

    /** `len(list)`: the cached size, which is the number of values. */
    method Len() returns (n: int)
      requires Valid()
      ensures n == |Contents|
    {
      n := size;
    }

    /** `append`: walks to the last node and links a new node after it. */
    method Append(v: T)
      requires Valid()
      modifies Repr
      ensures Valid() && fresh(Repr - old(Repr))
      ensures Contents == old(Contents) + [v]
    {
      var n := new Node(v);
      if head == null {
        head := n;
      } else {
        var cur := head;
        ghost var k := 0;
        while cur.next != null
          invariant Valid()
          invariant 0 <= k < |nodes| && cur == nodes[k]
          invariant cur.next == if k + 1 < |nodes| then nodes[k + 1] else null
          decreases |nodes| - k
        {
          cur := cur.next;
          k := k + 1;
        }
        cur.next := n;
      }
      size := size + 1;
      nodes := nodes + [n];
      Contents := Contents + [v];
      Repr := Repr + {n};
    }

    /** `value in list`: walks the nodes looking for an equal value. */
    method Contains(v: T) returns (found: bool)
      requires Valid()
      ensures found <==> v in Contents
    {
      var cur := head;
      ghost var k := 0;
      while cur != null
        invariant 0 <= k <= |nodes|
        invariant cur == (if k < |nodes| then nodes[k] else null)
        invariant v !in Contents[..k]
        decreases |nodes| - k
      {
        if cur.value == v {
          return true;
        }
        assert Contents[..k + 1] == Contents[..k] + [cur.value];
        cur := cur.next;
        k := k + 1;
      }
      assert Contents[..k] == Contents;
      return false;
    }

    /** `to_list`: the values in link order. */
    method ToSeq() returns (s: seq<T>)
      requires Valid()
      ensures s == Contents
    {
      s := [];
      var cur := head;
      ghost var k := 0;
      while cur != null
        invariant 0 <= k <= |nodes|
        invariant cur == (if k < |nodes| then nodes[k] else null)
        invariant s == Contents[..k]
        decreases |nodes| - k
      {
        s := s + [cur.value];
        cur := cur.next;
        k := k + 1;
      }
      assert Contents[..k] == Contents;
    }

    /** `remove`: unlinks the first node holding `v` and reports whether there was one. */
    method Remove(v: T) returns (found: bool)
      requires Valid()
      modifies Repr
      ensures Valid() && Repr == old(Repr)
      ensures found <==> v in old(Contents)
      ensures Contents == RemoveFirst(old(Contents), v)
    {
      var prev: Node?<T> := null;
      var cur := head;
      ghost var k := 0;
      while cur != null && cur.value != v
        invariant 0 <= k <= |nodes|
        invariant cur == (if k < |nodes| then nodes[k] else null)
        invariant prev == (if k == 0 then null else nodes[k - 1])
        invariant v !in Contents[..k]
        decreases |nodes| - k
      {
        assert Contents[..k + 1] == Contents[..k] + [cur.value];
        prev, cur := cur, cur.next;
        k := k + 1;
      }
      if cur == null {
        assert Contents[..k] == Contents;
        return false;
      }
      RemoveFirstAt(Contents, v, k);
      UnlinkAt(k, prev, cur);
      return true;
    }

    /** Unlinks node `cur`, the `k`-th, whose predecessor is `prev`, and
        shortens the list. */
    method UnlinkAt(ghost k: nat, prev: Node?<T>, cur: Node<T>)
      requires Valid() && k < |nodes| && cur == nodes[k]
      requires prev == (if k == 0 then null else nodes[k - 1])
      modifies this, prev
      ensures Valid() && Repr == old(Repr)
      ensures Contents == old(Contents[..k] + Contents[k + 1..])
    {
      if prev == null {
        head := cur.next;
      } else {
        prev.next := cur.next;
      }
      size := size - 1;
      Unlinked(k);
    }

    /** The ghost bookkeeping of `Remove`, once node `k` is no longer reachable:
        the node and its value leave the abstract state. */
    ghost method Unlinked(k: nat)
      requires k < |nodes| == |Contents| == size + 1
      requires Distinct(nodes) && this in Repr && (forall i :: 0 <= i < |nodes| ==> nodes[i] in Repr)
      requires head == (if k == 0 then (if k + 1 < |nodes| then nodes[k + 1] else null) else nodes[0])
      requires forall i :: 0 <= i < |nodes| ==> nodes[i].value == Contents[i]
      requires forall i :: 0 <= i < |nodes| - 1 && i != k - 1 ==> nodes[i].next == nodes[i + 1]
      requires k > 0 ==> nodes[k - 1].next == (if k + 1 < |nodes| then nodes[k + 1] else null)
      requires k + 1 < |nodes| ==> nodes[|nodes| - 1].next == null
      modifies this
      ensures Valid() && Repr == old(Repr)
      ensures Contents == old(Contents[..k] + Contents[k + 1..])
    {
      var ns := nodes[..k] + nodes[k + 1..];
      forall i, j | 0 <= i < j < |ns| ensures ns[i] != ns[j] {
        var oi := if i < k then i else i + 1;
        var oj := if j < k then j else j + 1;
        assert ns[i] == nodes[oi] && ns[j] == nodes[oj];
      }
      forall i | 0 <= i < |ns| - 1 ensures ns[i].next == ns[i + 1] {
        if i < k - 1 {
          assert ns[i] == nodes[i] && ns[i + 1] == nodes[i + 1];
        } else if i == k - 1 {
          assert ns[i] == nodes[k - 1] && ns[i + 1] == nodes[k + 1];
        } else {
          assert ns[i] == nodes[i + 1] && ns[i + 1] == nodes[i + 2];
        }
      }
      nodes := ns;
      Contents := Contents[..k] + Contents[k + 1..];
    }
  }
}
