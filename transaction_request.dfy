/**
 * The per-slot request queue (include/transaction/transaction-request.h,
 * src/transaction/transaction-request.cpp): requests are appended and
 * handed out in order through a cursor.
 */
module TransactionRequests {
  import Requests

  class TransactionRequest {
    var queue: seq<Requests.OperationRequest>
    var current: nat

    /** The cursor never passes the end of the queue. */
    ghost predicate Valid()
      reads this
    {
      current <= |queue|
    }

    /** The requests not yet handed out, in order. */
    ghost function Pending(): seq<Requests.OperationRequest>
      reads this
      requires Valid()
    {
      queue[current..]
    }

    /** TransactionRequest(): an empty queue, the cursor at 0. */
    constructor()
      ensures Valid() && queue == [] && current == 0
    {
      queue := [];
      current := 0;
    }

    /** PushRequest(request): appended at the end; the cursor stays. */
    method PushRequest(r: Requests.OperationRequest)
      requires Valid()
      modifies this
      ensures Valid() && queue == old(queue) + [r] && current == old(current)
      ensures Pending() == old(Pending()) + [r]
    {
      queue := queue + [r];
    }

    /**
     * CurrentRequest(): null once every request was handed out; otherwise
     * the request under the cursor, which then moves one on.
     */
    method CurrentRequest() returns (r: Requests.OperationRequest?)
      requires Valid()
      modifies this
      ensures Valid() && queue == old(queue)
      ensures old(current) == |queue| ==> r == null && current == old(current)
      ensures old(current) < |queue| ==> r == queue[old(current)] && current == old(current) + 1
      ensures r != null ==> [r] + Pending() == old(Pending())
      ensures r == null <==> old(Pending()) == []
    {
      if current >= |queue| {
        r := null;
      } else {
        r := queue[current];
        current := current + 1;
      }
    }

    /** Reset(): the queue is cleared and the cursor goes back to 0. */
    method Reset()
      modifies this
      ensures Valid() && queue == [] && current == 0
    {
      queue := [];
      current := 0;
    }
  }
}
