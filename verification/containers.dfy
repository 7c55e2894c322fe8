/** The two list-backed containers of the records layer: the stack that keeps
    a student's grade history (last in, first out) and the queue of pending
    attendance entries (first in, first out). Popping, peeking or dequeuing an
    empty container raises `IndexError` in the source; here it gives `None`. */
module Containers {
  import opened Wrappers

  class Stack<T> {
    /** The items, bottom first: the top of the stack is the last element. */
    var data: seq<T>

    constructor ()
      ensures data == []
    {
      data := [];
    }

    method Push(item: T)
      modifies this
      ensures data == old(data) + [item]
    {
      data := data + [item];
    }

    /** Removes and returns the top item; `None` on an empty stack. */
    method Pop() returns (r: Option<T>)
      modifies this
      ensures old(data) == [] ==> r == None && data == []
      ensures old(data) != [] ==> r == Some(old(data)[|old(data)| - 1]) && data == old(data)[..|old(data)| - 1]
    {
      if data == [] {
        return None;
      }
      r := Some(data[|data| - 1]);
      data := data[..|data| - 1];
    }

    /** The top item without removing it; `None` on an empty stack. */
    method Peek() returns (r: Option<T>)
      ensures r.None? <==> data == []
      ensures r.Some? ==> r.value == data[|data| - 1]
    {
      if data == [] {
        return None;
      }
      return Some(data[|data| - 1]);
    }

    /** `is_empty`: a query that changes nothing. */
    predicate IsEmpty()
      reads this
    {
      |data| == 0
    }

    method Len() returns (n: nat)
      ensures n == |data|
    {
      n := |data|;
    }
  }

  class Queue<T> {
    /** The items, front first: the next one to leave is the first element. */
    var data: seq<T>

    constructor ()
      ensures data == []
    {
      data := [];
    }

    method Enqueue(item: T)
      modifies this
      ensures data == old(data) + [item]
    {
      data := data + [item];
    }

    /** Removes and returns the front item; `None` on an empty queue. */
    method Dequeue() returns (r: Option<T>)
      modifies this
      ensures old(data) == [] ==> r == None && data == []
      ensures old(data) != [] ==> r == Some(old(data)[0]) && data == old(data)[1..]
    {
      if data == [] {
        return None;
      }
      r := Some(data[0]);
      data := data[1..];
    }

    /** The front item without removing it; `None` on an empty queue. */
    method Peek() returns (r: Option<T>)
      ensures r.None? <==> data == []
      ensures r.Some? ==> r.value == data[0]
    {
      if data == [] {
        return None;
      }
      return Some(data[0]);
    }

    /** `is_empty`: a query that changes nothing. */
    predicate IsEmpty()
      reads this
    {
      |data| == 0
    }

    method Len() returns (n: nat)
      ensures n == |data|
    {
      n := |data|;
    }
  }
}
