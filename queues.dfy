/**
 * The first-in first-out queue the flow-field search uses for its frontier.
 */
module Queues {

  datatype Option<T> = None | Some(value: T)

  /**
   * A FIFO queue held in a growable vector: enqueue pushes at the back and
   * dequeue removes the element at index 0.
   */
  class Queue<T> {
    var queue: seq<T>

    constructor ()
      ensures queue == []
    {
      queue := [];
    }

    /** The number of queued items. */
    function Length(): (n: nat)
      reads this
      ensures n == |queue|
    {
      |queue|
    }

    method Enqueue(item: T)
      modifies this
      ensures queue == old(queue) + [item]
      ensures Length() == old(Length()) + 1
    {
      queue := queue + [item];
    }

    /**
     * Removes and returns the oldest item. Removing index 0 of an empty vector
     * panics, so callers only dequeue from a non-empty queue.
     */
    method Dequeue() returns (item: T)
      requires queue != []
      modifies this
      ensures item == old(queue)[0]
      ensures queue == old(queue)[1..]
      ensures Length() == old(Length()) - 1
    {
      item := queue[0];
      queue := queue[1..];
    }

    function IsEmpty(): (b: bool)
      reads this
      ensures b <==> Length() == 0
    {
      |queue| == 0
    }

    /** The oldest item, if any, without removing it. */
    function Peek(): (r: Option<T>)
      reads this
      ensures r.None? <==> IsEmpty()
      ensures r.Some? ==> r.value == queue[0]
    {
      if |queue| == 0 then None else Some(queue[0])
    }
  }

  /**
   * What a client can conclude from the contracts alone: items come out in
   * the order they went in, and peek shows the next one to come out.
   */
  method FirstInFirstOut<T>(a: T, b: T) returns (first: T, next: Option<T>, second: T, empty: bool)
    ensures first == a && next == Some(b) && second == b && empty
  {
    var q := new Queue<T>();
    q.Enqueue(a);
    q.Enqueue(b);
    first := q.Dequeue();
    next := q.Peek();
    second := q.Dequeue();
    empty := q.IsEmpty();
  }
}
