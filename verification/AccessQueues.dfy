/** The chunk buffer and the two queues between the profiled thread, the workers and the consumer. */
module AccessQueues {
  import opened Accesses
  import opened Collections

  /** A fixed number of access slots, filled from the front. */
  class FirstAccessQueueChunk {
    const slots: array<AccessInfo>
    var count: nat

    ghost predicate Valid()
      reads this, slots
    {
      && count <= slots.Length
      && (forall i :: count <= i < slots.Length ==> slots[i].Unused())
    }

    /** What has been recorded so far. */
    ghost function Filled(): seq<AccessInfo>
      requires Valid()
      reads this, slots
    {
      slots[..count]
    }

    constructor (size: nat)
      ensures Valid() && fresh(slots) && slots.Length == size && Filled() == []
    {
      slots := new AccessInfo[size](_ => AccessInfo(false, false, 0, 0));
      count := 0;
    }

    method IsFull() returns (full: bool)
      requires Valid()
      ensures full <==> |Filled()| == slots.Length
    {
      full := count == slots.Length;
    }

    method Record(x: AccessInfo)
      requires Valid() && count < slots.Length
      modifies this, slots
      ensures Valid() && Filled() == old(Filled()) + [x]
    {
      slots[count] := x;
      count := count + 1;
    }

    /** The workers read the whole buffer and skip its unused slots: they see what was recorded. */
    lemma BufferIsWhatWasRecorded()
      requires Valid() && forall x :: x in Filled() ==> x.addr != 0 || x.lid != 0
      ensures Recorded(slots[..]) == Filled()
    {
      PaddingIsSkipped(slots[..], count);
    }
  }

  lemma {:induction false} PaddingIsSkipped(buffer: seq<AccessInfo>, count: nat)
    requires count <= |buffer|
    requires forall x :: x in buffer[..count] ==> !x.Unused()
    requires forall i :: count <= i < |buffer| ==> buffer[i].Unused()
    ensures Recorded(buffer) == buffer[..count]
  {
    if buffer == [] {
    } else {
      var front := buffer[..|buffer| - 1];
      if count == |buffer| {
        assert buffer == front + [buffer[count - 1]];
        assert buffer[..count] == buffer && front[..count - 1] == front;
        forall x | x in front ensures !x.Unused() {
          assert x in buffer[..count];
        }
        assert buffer[count - 1] in buffer[..count];
        PaddingIsSkipped(front, count - 1);
      } else {
        assert front[..count] == buffer[..count];
        PaddingIsSkipped(front, count);
      }
    }
  }

  /** The queue the consumer drains; it never holds more than its limit. */
  class SecondAccessQueue<T> {
    var queue: seq<T>
    var queuedElements: nat
    var maxSize: nat

    ghost predicate Valid()
      reads this
    {
      queuedElements == |queue|
    }

    constructor (size: nat)
      ensures Valid() && queue == [] && maxSize == size
    {
      queue, queuedElements, maxSize := [], 0, size;
    }

    method SetMaxSize(size: nat)
      requires Valid()
      modifies this`maxSize
      ensures Valid() && maxSize >= 1 && (size >= 1 ==> maxSize == size) && (size == 0 ==> maxSize == 1)
    {
      maxSize := if size < 1 then 1 else size;
    }

    /** One turn of Push: under the lock, only while there is room. */
    method TryPush(elem: T) returns (pushed: bool)
      requires Valid()
      modifies this`queue, this`queuedElements
      ensures Valid() && (pushed <==> |old(queue)| < maxSize)
      ensures queue == if pushed then old(queue) + [elem] else old(queue)
      ensures |old(queue)| <= maxSize ==> |queue| <= maxSize
    {
      pushed := |queue| < maxSize;
      if pushed {
        queue := queue + [elem];
        queuedElements := |queue|;
      }
    }

    method Get() returns (elem: Option<T>)
      requires Valid()
      modifies this`queue, this`queuedElements
      ensures Valid()
      ensures old(queue) == [] ==> elem == None && queue == []
      ensures old(queue) != [] ==> elem == Some(old(queue)[0]) && queue == old(queue)[1..]
    {
      if |queue| == 0 {
        return None;
      }
      elem := Some(queue[0]);
      queue := queue[1..];
      queuedElements := |queue|;
    }

    method Empty() returns (empty: bool)
      ensures empty <==> queue == []
    {
      empty := |queue| == 0;
    }
  }

  /** The queue the profiled thread fills. */
  class FirstAccessQueue<T> {
    var queue: seq<T>
    var queuedElements: nat
    var maxSize: nat

    ghost predicate Valid()
      reads this
    {
      queuedElements == |queue|
    }

    constructor (size: nat)
      ensures Valid() && queue == [] && maxSize == size
    {
      queue, queuedElements, maxSize := [], 0, size;
    }

    /** Reads the counter instead of the queue. */
    method CanAcceptEntries() returns (can: bool)
      requires Valid()
      ensures can <==> |queue| < maxSize
    {
      can := queuedElements < maxSize;
    }

    method Push(elem: T)
      requires Valid()
      modifies this`queue, this`queuedElements
      ensures Valid() && queue == old(queue) + [elem]
    {
      queue := queue + [elem];
      queuedElements := |queue|;
    }

    /** The first half of Get: under the lock, which the caller then keeps. */
    method Take() returns (elem: Option<T>)
      requires Valid()
      modifies this`queue, this`queuedElements
      ensures Valid()
      ensures old(queue) == [] ==> elem == None && queue == []
      ensures old(queue) != [] ==> elem == Some(old(queue)[0]) && queue == old(queue)[1..]
    {
      if |queue| == 0 {
        return None;
      }
      elem := Some(queue[0]);
      queue := queue[1..];
      queuedElements := |queue|;
    }

    /** The whole of Get, where the second queue has room, that is, once the wait for it is over. */
    method Get(second: SecondAccessQueue<T>) returns (elem: Option<T>)
      requires Valid() && second.Valid()
      requires queue != [] ==> |second.queue| < second.maxSize
      modifies this`queue, this`queuedElements, second`queue, second`queuedElements
      ensures Valid() && second.Valid()
      ensures elem.None? <==> old(queue) == []
      ensures second.queue + queue == old(second.queue) + old(queue)
      ensures elem.Some? ==> |queue| == |old(queue)| - 1 && elem.value == old(queue)[0] == second.queue[|second.queue| - 1]
    {
      elem := Take();
      if elem.Some? {
        var pushed := second.TryPush(elem.value);
      }
    }

    method Empty() returns (empty: bool)
      ensures empty <==> queue == []
    {
      empty := |queue| == 0;
    }
  }
}
