/** The FIFO queue `Q` of utils.js:30-44, over a JavaScript array that
    `push` grows at the back and `shift` shrinks at the front. */
module Queue {
  import opened Wrappers

  /** The message of the Error thrown by deQ on an empty queue. */
  const EmptyQueueMessage: string := "Cannot deQ from an empty Q"

  class Q<T> {
    var data: seq<T>

    constructor ()
      ensures data == []
    {
      data := [];
    }

    /** enQ: appends a present value; `null` and `undefined` (here `None`)
        leave the queue as it was. */
    method EnQ(v: Option<T>)
      modifies this
      ensures data == if v.Some? then old(data) + [v.value] else old(data)
    {
      if v.Some? {
        data := data + [v.value];
      }
    }

    /** deQ: removes and returns the oldest element, or throws on an empty
        queue (a `Failure` carrying the Error's message). */
    method DeQ() returns (r: Result<T, string>)
      modifies this
      ensures old(data) == [] ==> r == Failure(EmptyQueueMessage) && data == old(data)
      ensures old(data) != [] ==> r == Success(old(data)[0]) && data == old(data)[1..]
    {
      if NotMt() {
        r := Success(data[0]);
        data := data[1..];
      } else {
        r := Failure(EmptyQueueMessage);
      }
    }

    /** notMt: the queue holds at least one element. */
    predicate NotMt()
      reads this
      ensures NotMt() <==> data != []
    {
      |data| != 0
    }
  }
}
