/** Which waits of the pipeline can be circular, and which runs never end. */
module ShutdownHazards {
  import opened Chunks
  import opened Pipeline

  // ----- Composing runs ----------------------------------------------------------------

  lemma {:induction false} RunsThen(c: Config, s: State, acts: seq<Action>, t: State, a: Action)
    requires Runs(c, s, acts, t) && Enabled(c, t, a)
    ensures Runs(c, s, acts + [a], Step(c, t, a))
    decreases |acts|
  {
    if acts == [] {
      assert acts + [a] == [a];
    } else {
      assert (acts + [a])[1..] == acts[1..] + [a];
      RunsThen(c, Step(c, s, acts[0]), acts[1..], t, a);
    }
  }

  lemma Next(c: Config, s: State, a: Action) returns (t: State)
    requires Reachable(c, s) && Enabled(c, s, a)
    ensures t == Step(c, s, a) && Reachable(c, t)
  {
    t := Step(c, s, a);
    var acts :| Runs(c, Init(c), acts, s);
    RunsThen(c, Init(c), acts, s, a);
  }

  lemma Start(c: Config) returns (s: State)
    ensures s == Init(c) && Reachable(c, s)
  {
    s := Init(c);
    assert Runs(c, s, [], s);
  }

  // ----- A worker waiting for room ------------------------------------------------------

  /** A worker waits for room in the second queue, holding the lock of the first. */
  ghost predicate WaitsInVain(c: Config, s: State) {
    s.lock.HeldBy? && |s.second| == c.maxSecond
  }

  /** The consumer found its queue empty before it filled up and now asks, or is bound to ask,
      for the lock that the waiting worker holds. */
  ghost predicate Deadlocked(c: Config, s: State) {
    WaitsInVain(c, s) && (s.consumer == AsksFirst || (s.consumer == FoundEmpty && s.flag))
  }

  /** The consumer waits on futures only of chunks that are published or that a worker past
      Get is analysing, and that worker can always publish. */
  lemma ConsumerWaitsForRunningWorker(c: Config, s: State)
    requires c.Valid() && Reachable(c, s) && s.consumer.Holds?
    ensures Enabled(c, s, ConsumerMerges) || exists w: nat :: AnalysedBy(s, s.consumer.id, w) && Enabled(c, s, Publishes(w))
  {
    InvAlways(c, s);
    var id := s.consumer.id;
    if id !in s.published {
      var w :| AnalysedBy(s, id, w);
      assert Enabled(c, s, Publishes(w));
    }
  }

  ghost predicate RoomCanBeMade(c: Config, s: State) {
    exists acts, t :: Runs(c, s, acts, t) && |t.second| < c.maxSecond
  }

  lemma {:induction false} DeadlockStays(c: Config, s: State, acts: seq<Action>, t: State)
    requires Ordered(c, s) && Shutdown(c, s) && Deadlocked(c, s) && Runs(c, s, acts, t)
    ensures Deadlocked(c, t)
    decreases |acts|
  {
    if acts == [] {
    } else {
      var next := Step(c, s, acts[0]);
      OrderedStep(c, s, acts[0]);
      ShutdownStep(c, s, acts[0]);
      DeadlockStays(c, next, acts[1..], t);
    }
  }

  lemma TwoSteps(c: Config, s: State, a: Action, b: Action)
    requires Enabled(c, s, a) && Enabled(c, Step(c, s, a), b)
    ensures Runs(c, s, [a, b], Step(c, Step(c, s, a), b))
  {
    assert [a, b][1..] == [b];
    assert [b][1..] == [];
    var t := Step(c, s, a);
    assert Runs(c, t, [b], Step(c, t, b));
  }

  lemma OneStep(c: Config, s: State, a: Action)
    requires Enabled(c, s, a)
    ensures Runs(c, s, [a], Step(c, s, a))
  {
    assert [a][1..] == [];
  }

  /** A chunk that the consumer holds will be merged, and then it takes the next one. */
  lemma HeldChunkMakesRoom(c: Config, s: State, id: ChunkId)
    requires c.Valid() && Inv(c, s) && WaitsInVain(c, s) && s.consumer == Holds(id)
    ensures RoomCanBeMade(c, s)
  {
    if id in s.published {
      TwoSteps(c, s, ConsumerMerges, ConsumerGets);
    } else {
      var w :| AnalysedBy(s, id, w);
      TwoSteps(c, s, Publishes(w), ConsumerMerges);
      var t := Step(c, Step(c, s, Publishes(w)), ConsumerMerges);
      RunsThen(c, s, [Publishes(w), ConsumerMerges], t, ConsumerGets);
    }
  }

  /** Exactly when a worker's wait for room is circular: in every reachable state where one
      waits, some run makes room if and only if the consumer is not after the first queue's lock. */
  lemma CircularWaitExactly(c: Config, s: State)
    requires c.Valid() && Reachable(c, s) && WaitsInVain(c, s)
    ensures RoomCanBeMade(c, s) <==> !Deadlocked(c, s)
  {
    InvAlways(c, s);
    if Deadlocked(c, s) {
      forall acts, t | Runs(c, s, acts, t) ensures |t.second| == c.maxSecond {
        DeadlockStays(c, s, acts, t);
      }
    } else {
      match s.consumer
      case Polls =>
        OneStep(c, s, ConsumerGets);
      case FoundEmpty =>
        TwoSteps(c, s, ConsumerReadsFlag, ConsumerGets);
      case Holds(id) =>
        HeldChunkMakesRoom(c, s, id);
      case _ =>
    }
  }

  // ----- When such a deadlock can be reached ---------------------------------------------

  /** Between two chunks: nothing in the first queue, worker 0 idle, `k` chunks pushed and
      registered, all of them published, `q` of them still in the second queue. */
  ghost predicate Calm(c: Config, s: State, k: nat, q: nat, consumer: Consumer) {
    && Reachable(c, s) && s.main == Fills && !s.flag && s.pushed == k && s.first == [] && s.lock == Free
    && |s.workers| == c.workers && (forall w :: 0 <= w < c.workers ==> s.workers[w].state == Idle)
    && |s.second| == q && s.consumer == consumer
    && (forall i :: 0 <= i < q ==> s.second[i] in s.published)
  }

  /** The thread pushes a chunk, worker 0 takes and analyses it. */
  lemma PassChunk(c: Config, s: State, k: nat, q: nat, consumer: Consumer) returns (t: State)
    requires c.Valid() && Calm(c, s, k, q, consumer) && k + 1 < |c.chunks| && q < c.maxSecond
    ensures Calm(c, t, k + 1, q + 1, consumer)
  {
    t := Next(c, s, MainChecks);
    t := Next(c, t, MainPushes);
    t := Next(c, t, Gets(0));
    t := Next(c, t, Registers(0));
    t := Next(c, t, Publishes(0));
  }

  /** The consumer merges the one chunk in its queue. */
  lemma MergeOne(c: Config, s: State, k: nat) returns (t: State)
    requires c.Valid() && Calm(c, s, k, 1, Polls)
    ensures Calm(c, t, k, 0, Polls)
  {
    InvAlways(c, s);
    t := Next(c, s, ConsumerGets);
    t := Next(c, t, ConsumerMerges);
  }

  lemma AllButLast(c: Config, k: nat) returns (s: State)
    requires c.Valid() && k < |c.chunks|
    ensures Calm(c, s, k, 0, Polls)
  {
    s := Start(c);
    for i := 0 to k
      invariant Calm(c, s, i, 0, Polls)
    {
      s := PassChunk(c, s, i, 0, Polls);
      s := MergeOne(c, s, i + 1);
    }
  }

  /** Some schedule deadlocks if and only if there are more chunks than the second queue holds. */
  lemma DeadlockReachableExactly(c: Config)
    requires c.Valid()
    ensures (exists s :: Reachable(c, s) && Deadlocked(c, s)) <==> |c.chunks| > c.maxSecond
  {
    if |c.chunks| > c.maxSecond {
      var _ := ReachDeadlock(c);
    } else if s :| Reachable(c, s) && Deadlocked(c, s) {
      InvAlways(c, s);
      assert false;
    }
  }

  lemma ReachDeadlock(c: Config) returns (s: State)
    requires c.Valid() && |c.chunks| > c.maxSecond
    ensures Reachable(c, s) && Deadlocked(c, s)
  {
    var k := |c.chunks| - 1 - c.maxSecond;
    s := AllButLast(c, k);
    s := Next(c, s, ConsumerGets);
    for q := 0 to c.maxSecond
      invariant Calm(c, s, k + q, q, FoundEmpty)
    {
      s := PassChunk(c, s, k + q, q, FoundEmpty);
    }
    s := Next(c, s, MainPushesLast);
    s := Next(c, s, MainSetsFlag);
    s := Next(c, s, Gets(0));
  }

  // ----- Workers that leave too early ------------------------------------------------------

  /** Every worker has left while a chunk is in the first queue. */
  ghost predicate Stranded(s: State) {
    && s.first != [] && s.lock == Free && s.main == Joins
    && (forall w :: 0 <= w < |s.workers| ==> s.workers[w].state == Gone)
    && s.consumer != AsksSecond && s.consumer != LeavesLoop && s.consumer != Exited
  }

  /** From there the consumer never exits, however long the run. */
  lemma {:induction false} StrandedForever(c: Config, s: State, acts: seq<Action>, t: State)
    requires Stranded(s) && Runs(c, s, acts, t)
    ensures Stranded(t) && t.first == s.first && t.consumer != Exited
    decreases |acts|
  {
    if acts == [] {
    } else {
      StrandedForever(c, Step(c, s, acts[0]), acts[1..], t);
    }
  }

  /** The workers before `w` are in state `after`, the others in state `before`; nothing else moves. */
  ghost predicate WorkersAt(c: Config, s: State, w: nat, before: WorkerState, after: WorkerState) {
    && Reachable(c, s) && s.lock == Free && s.consumer == Polls && |s.workers| == c.workers
    && forall v :: 0 <= v < c.workers ==> s.workers[v].state == if v < w then after else before
  }

  lemma AllAskInVain(c: Config) returns (s: State)
    requires c.Valid()
    ensures WorkersAt(c, s, c.workers, Idle, FoundNothing)
    ensures s.main == Fills && !s.flag && s.pushed == |c.chunks| - 1 && s.first == []
  {
    s := AllButLast(c, |c.chunks| - 1);
    for w := 0 to c.workers
      invariant WorkersAt(c, s, w, Idle, FoundNothing)
      invariant s.main == Fills && !s.flag && s.pushed == |c.chunks| - 1 && s.first == []
    {
      s := Next(c, s, Gets(w));
    }
  }

  lemma AllLeave(c: Config, start: State) returns (s: State)
    requires c.Valid() && WorkersAt(c, start, 0, FoundNothing, Gone) && start.main == Joins && start.flag && start.first != []
    ensures WorkersAt(c, s, c.workers, FoundNothing, Gone) && s.main == Joins && s.first != []
  {
    s := start;
    for w := 0 to c.workers
      invariant WorkersAt(c, s, w, FoundNothing, Gone) && s.main == Joins && s.flag && s.first != []
    {
      s := Next(c, s, ReadsFlag(w));
      s := Next(c, s, Joined(w));
    }
  }

  /** A worker may ask for a chunk before the last push and for the flag after it, and so may
      all of them: every configuration has a schedule that does not terminate. */
  lemma EveryConfigurationCanStrand(c: Config)
    requires c.Valid()
    ensures exists s :: Reachable(c, s) && Stranded(s)
  {
    var s := AllAskInVain(c);
    s := Next(c, s, MainPushesLast);
    s := Next(c, s, MainSetsFlag);
    s := AllLeave(c, s);
    assert Stranded(s);
  }
}
