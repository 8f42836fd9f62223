/** The queues' methods are the steps of the pipeline that they are called for. */
module QueueSteps {
  import opened Collections
  import opened AccessQueues
  import opened Pipeline

  /** The queues hold what the state says. */
  ghost predicate Holds(first: FirstAccessQueue<ChunkId>, second: SecondAccessQueue<ChunkId>, c: Config, s: State)
    reads first, second
  {
    && first.Valid() && second.Valid()
    && first.queue == s.first && first.maxSize == c.maxFirst
    && second.queue == s.second && second.maxSize == c.maxSecond
  }

  /** The profiled thread finds room exactly where that step is enabled. */
  method MainChecksForRoom(first: FirstAccessQueue<ChunkId>, second: SecondAccessQueue<ChunkId>, ghost c: Config, ghost s: State)
    returns (room: bool)
    requires Holds(first, second, c, s) && s.main == Fills && s.pushed + 1 < |c.chunks|
    ensures room <==> Enabled(c, s, MainChecks)
    ensures room ==> Holds(first, second, c, Step(c, s, MainChecks))
  {
    room := first.CanAcceptEntries();
  }

  method MainPushesChunk(first: FirstAccessQueue<ChunkId>, second: SecondAccessQueue<ChunkId>, id: ChunkId, ghost c: Config, ghost s: State)
    requires Holds(first, second, c, s) && id == s.pushed
    requires Enabled(c, s, MainPushes) || Enabled(c, s, MainPushesLast)
    modifies first
    ensures Enabled(c, s, MainPushes) ==> Holds(first, second, c, Step(c, s, MainPushes))
    ensures Enabled(c, s, MainPushesLast) ==> Holds(first, second, c, Step(c, s, MainPushesLast))
  {
    first.Push(id);
  }

  /** A worker takes the front chunk, and from then on holds the lock. */
  method WorkerTakes(first: FirstAccessQueue<ChunkId>, second: SecondAccessQueue<ChunkId>, w: nat, ghost c: Config, ghost s: State)
    returns (id: Option<ChunkId>)
    requires Holds(first, second, c, s) && Enabled(c, s, Gets(w))
    modifies first
    ensures Holds(first, second, c, Step(c, s, Gets(w)))
    ensures match id
            case None => Step(c, s, Gets(w)).workers[w].state == FoundNothing
            case Some(i) => Step(c, s, Gets(w)).workers[w].state == WaitsForRoom && Step(c, s, Gets(w)).lock == HeldBy(w, i)
  {
    id := first.Take();
  }

  /** One turn of its wait for room: it registers the chunk exactly where that step is enabled. */
  method WorkerRegisters(first: FirstAccessQueue<ChunkId>, second: SecondAccessQueue<ChunkId>, w: nat, id: ChunkId,
                         ghost c: Config, ghost s: State) returns (registered: bool)
    requires Holds(first, second, c, s) && s.lock == HeldBy(w, id)
    requires w < |s.workers| && s.workers[w].state == WaitsForRoom
    modifies second
    ensures registered <==> Enabled(c, s, Registers(w))
    ensures Holds(first, second, c, if registered then Step(c, s, Registers(w)) else s)
  {
    registered := second.TryPush(id);
  }

  method ConsumerTakes(first: FirstAccessQueue<ChunkId>, second: SecondAccessQueue<ChunkId>, ghost c: Config, ghost s: State)
    returns (id: Option<ChunkId>)
    requires Holds(first, second, c, s) && Enabled(c, s, ConsumerGets)
    modifies second
    ensures Holds(first, second, c, Step(c, s, ConsumerGets))
    ensures Step(c, s, ConsumerGets).consumer == if id.None? then FoundEmpty else Consumer.Holds(id.value)
  {
    id := second.Get();
  }

  /** The consumer's two questions before it leaves its loop. */
  method ConsumerAsks(first: FirstAccessQueue<ChunkId>, second: SecondAccessQueue<ChunkId>, ghost c: Config, ghost s: State)
    returns (leaves: bool)
    requires Holds(first, second, c, s) && Enabled(c, s, ConsumerAsksFirst)
    ensures var t := Step(c, s, ConsumerAsksFirst);
            if leaves then Enabled(c, t, ConsumerAsksSecond) && Step(c, t, ConsumerAsksSecond).consumer == LeavesLoop
            else t.consumer == Polls || Step(c, t, ConsumerAsksSecond).consumer == Polls
  {
    leaves := first.Empty();
    if leaves {
      leaves := second.Empty();
    }
  }
}
