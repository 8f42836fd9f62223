/** The profiled thread, N first-queue workers and the second-queue worker as a state
    machine: every locked section of the queues is one step, and the lock of the first
    queue stays held while a worker waits for room in the second one. */
module Pipeline {
  import opened Accesses
  import opened SequentialAnalysis
  import opened Chunks
  import opened ChunkIndependence
  import opened WriteDependencies

  type ChunkId = nat

  /** `chunks` is what the profiled thread is going to push, the final partial chunk included. */
  datatype Config = Config(chunks: seq<Chunk>, workers: nat, maxFirst: nat, maxSecond: nat) {
    predicate Valid() {
      chunks != [] && workers >= 1 && maxFirst >= 1 && maxSecond >= 1
    }
  }

  /** Fills: records accesses; Cleared: found room in the first queue; Flushed: pushed the last
      chunk; Joins: has set the flag and waits for the threads. */
  datatype Main = Fills | Cleared | Flushed | Joins

  datatype WorkerState = Idle | FoundNothing | WaitsForRoom | Analyses(id: ChunkId) | Leaves | Gone

  datatype Worker = Worker(state: WorkerState, my: set<Dependency>)

  datatype Consumer = Polls | Holds(id: ChunkId) | FoundEmpty | AsksFirst | AsksSecond | LeavesLoop | Exited

  /** The lock of the first queue: a worker that has popped a chunk keeps it until the
      chunk's futures are in the second queue. */
  datatype FirstLock = Free | HeldBy(w: nat, id: ChunkId)

  datatype State = State(
    main: Main, pushed: nat, flag: bool,
    first: seq<ChunkId>, lock: FirstLock, second: seq<ChunkId>,
    workers: seq<Worker>, published: set<ChunkId>,
    consumer: Consumer, consumed: seq<ChunkId>, shadow: ShadowMap, mine: set<Dependency>,
    allDeps: set<Dependency>)

  function Init(c: Config): State {
    State(Fills, 0, false, [], Free, [], seq(c.workers, i => Worker(Idle, {})), {}, Polls, [], map[], {}, {})
  }

  datatype Action =
    | MainChecks | MainPushes | MainPushesLast | MainSetsFlag
    | Gets(w: nat) | Registers(w: nat) | Publishes(w: nat) | ReadsFlag(w: nat) | Joined(w: nat)
    | ConsumerGets | ConsumerMerges | ConsumerReadsFlag | ConsumerAsksFirst | ConsumerAsksSecond | ConsumerJoined

  predicate Enabled(c: Config, s: State, a: Action) {
    match a
    case MainChecks => s.main == Fills && s.pushed + 1 < |c.chunks| && |s.first| < c.maxFirst
    case MainPushes => s.main == Cleared && s.lock == Free
    case MainPushesLast => s.main == Fills && s.pushed + 1 == |c.chunks| && s.lock == Free
    case MainSetsFlag => s.main == Flushed
    case Gets(w) => w < |s.workers| && s.workers[w].state == Idle && s.lock == Free
    case Registers(w) => w < |s.workers| && s.workers[w].state == WaitsForRoom && s.lock.HeldBy? && s.lock.w == w
                         && |s.second| < c.maxSecond
    case Publishes(w) => w < |s.workers| && s.workers[w].state.Analyses? && s.workers[w].state.id < |c.chunks|
    case ReadsFlag(w) => w < |s.workers| && s.workers[w].state == FoundNothing
    case Joined(w) => w < |s.workers| && s.workers[w].state == Leaves
    case ConsumerGets => s.consumer == Polls
    case ConsumerMerges => s.consumer.Holds? && s.consumer.id in s.published && s.consumer.id < |c.chunks|
    case ConsumerReadsFlag => s.consumer == FoundEmpty
    case ConsumerAsksFirst => s.consumer == AsksFirst && s.lock == Free
    case ConsumerAsksSecond => s.consumer == AsksSecond
    case ConsumerJoined => s.consumer == LeavesLoop
  }

  function SetWorker(s: State, w: nat, state: WorkerState): State
    requires w < |s.workers|
  {
    s.(workers := s.workers[w := s.workers[w].(state := state)])
  }

  function Step(c: Config, s: State, a: Action): State
    requires Enabled(c, s, a)
  {
    match a
    case MainChecks => s.(main := Cleared)
    case MainPushes => s.(main := Fills, first := s.first + [s.pushed], pushed := s.pushed + 1)
    case MainPushesLast => s.(main := Flushed, first := s.first + [s.pushed], pushed := s.pushed + 1)
    case MainSetsFlag => s.(main := Joins, flag := true)
    case Gets(w) =>
      if s.first == [] then SetWorker(s, w, FoundNothing)
      else SetWorker(s.(first := s.first[1..], lock := HeldBy(w, s.first[0])), w, WaitsForRoom)
    case Registers(w) =>
      SetWorker(s.(second := s.second + [s.lock.id], lock := Free), w, Analyses(s.lock.id))
    case Publishes(w) =>
      var id := s.workers[w].state.id;
      s.(published := s.published + {id},
         workers := s.workers[w := Worker(Idle, s.workers[w].my + LocalReports(c.chunks[id]))])
    case ReadsFlag(w) => SetWorker(s, w, if s.flag then Leaves else Idle)
    case Joined(w) => s.(allDeps := s.allDeps + s.workers[w].my, workers := s.workers[w := Worker(Gone, {})])
    case ConsumerGets =>
      if s.second == [] then s.(consumer := FoundEmpty)
      else s.(consumer := Holds(s.second[0]), second := s.second[1..])
    case ConsumerMerges =>
      var chunk := c.chunks[s.consumer.id];
      s.(consumer := Polls, consumed := s.consumed + [s.consumer.id], shadow := Merged(Overwriting, s.shadow, chunk),
         mine := s.mine + Reports(s.shadow, Entries(chunk)))
    case ConsumerReadsFlag => s.(consumer := if s.flag then AsksFirst else Polls)
    case ConsumerAsksFirst => s.(consumer := if s.first == [] then AsksSecond else Polls)
    case ConsumerAsksSecond => s.(consumer := if s.second == [] then LeavesLoop else Polls)
    case ConsumerJoined => s.(consumer := Exited, allDeps := s.allDeps + s.mine, mine := {})
  }

  ghost predicate Runs(c: Config, s: State, acts: seq<Action>, s': State)
    decreases |acts|
  {
    if acts == [] then s == s'
    else Enabled(c, s, acts[0]) && Runs(c, Step(c, s, acts[0]), acts[1..], s')
  }

  ghost predicate Reachable(c: Config, s: State) {
    exists acts :: Runs(c, Init(c), acts, s)
  }

  // ----- Order: what is where -------------------------------------------------------

  /** Chunks the consumer has taken. */
  function Taken(s: State): nat {
    |s.consumed| + if s.consumer.Holds? then 1 else 0
  }

  /** Chunks whose futures have entered the second queue. */
  function Registered(s: State): nat {
    Taken(s) + |s.second|
  }

  function Waiting(s: State): nat {
    if s.lock.HeldBy? then 1 else 0
  }

  ghost predicate Ordered(c: Config, s: State) {
    && |s.workers| == c.workers
    && s.pushed == Registered(s) + Waiting(s) + |s.first| <= |c.chunks|
    && (forall i :: 0 <= i < |s.consumed| ==> s.consumed[i] == i)
    && (s.consumer.Holds? ==> s.consumer.id == |s.consumed|)
    && (forall i :: 0 <= i < |s.second| ==> s.second[i] == Taken(s) + i)
    && (s.lock.HeldBy? ==> s.lock.id == Registered(s) && s.lock.w < |s.workers|)
    && (forall w :: 0 <= w < |s.workers| ==> (s.workers[w].state == WaitsForRoom <==> s.lock.HeldBy? && s.lock.w == w))
    && (forall i :: 0 <= i < |s.first| ==> s.first[i] == Registered(s) + Waiting(s) + i)
  }

  ghost predicate Bounded(c: Config, s: State) {
    && |s.second| <= c.maxSecond
    && |s.first| <= c.maxFirst + (if s.main == Flushed || s.main == Joins then 1 else 0)
    && (s.main == Cleared ==> |s.first| < c.maxFirst)
  }

  /** The flag goes up after the last push, and who leaves has seen it. */
  ghost predicate Shutdown(c: Config, s: State) {
    && (s.flag <==> s.main == Joins)
    && (s.main == Flushed || s.main == Joins <==> s.pushed == |c.chunks|)
    && (s.main == Cleared ==> s.pushed + 1 < |c.chunks|)
    && (forall w :: 0 <= w < |s.workers| && (s.workers[w].state == Leaves || s.workers[w].state == Gone) ==> s.flag)
    && (s.consumer == AsksFirst ==> s.flag)
    && (s.consumer == AsksSecond ==> s.flag && s.first == [] && s.lock == Free)
    && (s.consumer == LeavesLoop || s.consumer == Exited ==> s.flag && |s.consumed| == |c.chunks|)
  }

  /** A registered chunk is published, or one worker is past Get with it. */
  ghost predicate Owned(s: State) {
    && (forall id :: id in s.published ==> id < Registered(s))
    && (forall id :: 0 <= id < |s.consumed| ==> id in s.published)
    && (forall id :: 0 <= id < Registered(s) ==> id in s.published || exists w :: AnalysedBy(s, id, w))
    && (forall id, w :: AnalysedBy(s, id, w) ==> id < Registered(s) && id !in s.published)
    && (forall id, w, w' :: AnalysedBy(s, id, w) && AnalysedBy(s, id, w') ==> w == w')
  }

  ghost predicate AnalysedBy(s: State, id: int, w: int) {
    0 <= w < |s.workers| && s.workers[w].state.Analyses? && s.workers[w].state.id == id
  }

  // ----- Accounting: where the dependencies are -------------------------------------

  ghost predicate Collected(s: State, d: Dependency) {
    d in s.allDeps || d in s.mine || InSomeTable(s, d)
  }

  ghost predicate InSomeTable(s: State, d: Dependency) {
    exists w :: InTableOf(s, w, d)
  }

  ghost predicate InTableOf(s: State, w: int, d: Dependency) {
    0 <= w < |s.workers| && d in s.workers[w].my
  }

  ghost predicate LocalOf(c: Config, id: int, d: Dependency) {
    0 <= id < |c.chunks| && d in LocalReports(c.chunks[id])
  }

  ghost predicate ReplayOf(c: Config, id: int, d: Dependency) {
    0 <= id < |c.chunks| && d in Reports(Carried(Overwriting, c.chunks[..id]), Entries(c.chunks[id]))
  }

  ghost predicate Due(c: Config, s: State, d: Dependency) {
    LocalDue(c, s.published, d) || ReplayDue(c, |s.consumed|, d)
  }

  ghost predicate LocalDue(c: Config, published: set<ChunkId>, d: Dependency) {
    exists id :: id in published && LocalOf(c, id, d)
  }

  ghost predicate ReplayDue(c: Config, merged: nat, d: Dependency) {
    exists id :: 0 <= id < merged && ReplayOf(c, id, d)
  }

  ghost predicate Accounted(c: Config, s: State) {
    && |s.consumed| <= |c.chunks|
    && s.shadow == Carried(Overwriting, c.chunks[..|s.consumed|])
    && (forall d :: Collected(s, d) <==> Due(c, s, d))
    && (forall w :: 0 <= w < |s.workers| && s.workers[w].state == Gone ==> s.workers[w].my == {})
    && (s.consumer == Exited ==> s.mine == {})
  }

  ghost predicate Inv(c: Config, s: State) {
    Ordered(c, s) && Bounded(c, s) && Shutdown(c, s) && Owned(s) && Accounted(c, s)
  }

  // ----- Every step keeps it ----------------------------------------------------------

  lemma InitHolds(c: Config)
    requires c.Valid()
    ensures Inv(c, Init(c))
  {
  }

  predicate ByWorker(a: Action) {
    a.Gets? || a.Registers? || a.Publishes? || a.ReadsFlag? || a.Joined?
  }

  lemma OrderedWorkerStep(c: Config, s: State, a: Action)
    requires Ordered(c, s) && Enabled(c, s, a) && ByWorker(a)
    ensures Ordered(c, Step(c, s, a))
  {}

  lemma OrderedOtherStep(c: Config, s: State, a: Action)
    requires Ordered(c, s) && Shutdown(c, s) && Enabled(c, s, a) && !ByWorker(a)
    ensures Ordered(c, Step(c, s, a))
  {}

  lemma OrderedStep(c: Config, s: State, a: Action)
    requires Ordered(c, s) && Shutdown(c, s) && Enabled(c, s, a)
    ensures Ordered(c, Step(c, s, a))
  {
    if ByWorker(a) {
      OrderedWorkerStep(c, s, a);
    } else {
      OrderedOtherStep(c, s, a);
    }
  }

  lemma BoundedStep(c: Config, s: State, a: Action)
    requires Bounded(c, s) && Shutdown(c, s) && Enabled(c, s, a)
    ensures Bounded(c, Step(c, s, a))
  {
  }

  lemma ShutdownStep(c: Config, s: State, a: Action)
    requires Ordered(c, s) && Shutdown(c, s) && Enabled(c, s, a)
    ensures Shutdown(c, Step(c, s, a))
  {
  }

  lemma OwnedRegisters(c: Config, s: State, w: nat)
    requires Ordered(c, s) && Owned(s) && Enabled(c, s, Registers(w))
    ensures Owned(Step(c, s, Registers(w)))
  {
    var t := Step(c, s, Registers(w));
    forall id, v ensures AnalysedBy(t, id, v) <==> AnalysedBy(s, id, v) || (id == s.lock.id && v == w) {}
    assert AnalysedBy(t, s.lock.id, w);
  }

  lemma OwnedPublishes(c: Config, s: State, w: nat)
    requires Ordered(c, s) && Owned(s) && Enabled(c, s, Publishes(w))
    ensures Owned(Step(c, s, Publishes(w)))
  {
    var t := Step(c, s, Publishes(w));
    assert AnalysedBy(s, s.workers[w].state.id, w);
    forall id, v ensures AnalysedBy(t, id, v) <==> AnalysedBy(s, id, v) && v != w {}
  }

  lemma OwnedOtherwise(c: Config, s: State, a: Action)
    requires Ordered(c, s) && Owned(s) && Enabled(c, s, a) && !a.Registers? && !a.Publishes?
    ensures Owned(Step(c, s, a))
  {
    var t := Step(c, s, a);
    forall id, v ensures AnalysedBy(t, id, v) <==> AnalysedBy(s, id, v) {}
    assert Registered(t) == Registered(s) && t.published == s.published;
  }

  lemma OwnedStep(c: Config, s: State, a: Action)
    requires Ordered(c, s) && Owned(s) && Enabled(c, s, a)
    ensures Owned(Step(c, s, a))
  {
    match a
    case Registers(w) => OwnedRegisters(c, s, w);
    case Publishes(w) => OwnedPublishes(c, s, w);
    case _ => OwnedOtherwise(c, s, a);
  }

  lemma AccountedPublishes(c: Config, s: State, w: nat)
    requires Accounted(c, s) && Enabled(c, s, Publishes(w))
    ensures Accounted(c, Step(c, s, Publishes(w)))
  {
    var t := Step(c, s, Publishes(w));
    var id := s.workers[w].state.id;
    forall d ensures Collected(t, d) <==> Due(c, t, d) {
      assert Collected(s, d) <==> Due(c, s, d);
      assert forall v :: v != w ==> (InTableOf(t, v, d) <==> InTableOf(s, v, d));
      assert InTableOf(t, w, d) <==> InTableOf(s, w, d) || LocalOf(c, id, d);
      assert InSomeTable(t, d) <==> InSomeTable(s, d) || LocalOf(c, id, d);
      assert LocalDue(c, t.published, d) <==> LocalDue(c, s.published, d) || LocalOf(c, id, d) by {
        assert id in t.published;
      }
    }
  }

  lemma AccountedJoined(c: Config, s: State, w: nat)
    requires Accounted(c, s) && Enabled(c, s, Joined(w))
    ensures Accounted(c, Step(c, s, Joined(w)))
  {
    var t := Step(c, s, Joined(w));
    forall d ensures Collected(t, d) <==> Collected(s, d) {
      assert forall v :: v != w ==> (InTableOf(t, v, d) <==> InTableOf(s, v, d));
      assert InTableOf(s, w, d) <==> d in s.workers[w].my;
    }
  }

  lemma AccountedMerges(c: Config, s: State)
    requires Ordered(c, s) && Accounted(c, s) && Enabled(c, s, ConsumerMerges)
    ensures Accounted(c, Step(c, s, ConsumerMerges))
  {
    var t := Step(c, s, ConsumerMerges);
    assert c.chunks[..|t.consumed|][..|s.consumed|] == c.chunks[..|s.consumed|];
    forall d ensures Collected(t, d) <==> Due(c, t, d) {
      assert Collected(s, d) <==> Due(c, s, d);
      assert InSomeTable(t, d) <==> InSomeTable(s, d) by {
        assert forall v :: InTableOf(t, v, d) <==> InTableOf(s, v, d);
      }
      assert ReplayOf(c, |s.consumed|, d) <==> d in Reports(s.shadow, Entries(c.chunks[|s.consumed|]));
      assert ReplayDue(c, |t.consumed|, d) <==> ReplayDue(c, |s.consumed|, d) || ReplayOf(c, |s.consumed|, d);
    }
  }

  lemma AccountedOtherwise(c: Config, s: State, a: Action)
    requires Ordered(c, s) && Accounted(c, s) && Enabled(c, s, a)
    requires !a.Publishes? && !a.Joined? && a != ConsumerMerges
    ensures Accounted(c, Step(c, s, a))
  {
    var t := Step(c, s, a);
    forall d ensures Collected(t, d) <==> Collected(s, d) {
      assert forall v :: InTableOf(t, v, d) <==> InTableOf(s, v, d);
    }
  }

  lemma AccountedStep(c: Config, s: State, a: Action)
    requires Ordered(c, s) && Accounted(c, s) && Enabled(c, s, a)
    ensures Accounted(c, Step(c, s, a))
  {
    match a
    case Publishes(w) => AccountedPublishes(c, s, w);
    case Joined(w) => AccountedJoined(c, s, w);
    case ConsumerMerges => AccountedMerges(c, s);
    case _ => AccountedOtherwise(c, s, a);
  }

  lemma InvStep(c: Config, s: State, a: Action)
    requires Inv(c, s) && Enabled(c, s, a)
    ensures Inv(c, Step(c, s, a))
  {
    OrderedStep(c, s, a);
    BoundedStep(c, s, a);
    ShutdownStep(c, s, a);
    OwnedStep(c, s, a);
    AccountedStep(c, s, a);
  }

  lemma {:induction false} InvRuns(c: Config, s: State, acts: seq<Action>, t: State)
    requires Inv(c, s) && Runs(c, s, acts, t)
    ensures Inv(c, t)
    decreases |acts|
  {
    if acts == [] {
    } else {
      InvStep(c, s, acts[0]);
      InvRuns(c, Step(c, s, acts[0]), acts[1..], t);
    }
  }

  lemma InvAlways(c: Config, s: State)
    requires c.Valid() && Reachable(c, s)
    ensures Inv(c, s)
  {
    InitHolds(c);
    var acts :| Runs(c, Init(c), acts, s);
    InvRuns(c, Init(c), acts, s);
  }

  // ----- What holds in every reachable state -----------------------------------------

  function HeldIds(s: State): seq<ChunkId> {
    if s.consumer.Holds? then [s.consumer.id] else []
  }

  function BeingRegistered(s: State): seq<ChunkId> {
    if s.lock.HeldBy? then [s.lock.id] else []
  }

  /** Every chunk pushed is in exactly one place, and together the places are the push order. */
  lemma PushOrder(c: Config, s: State)
    requires c.Valid() && Reachable(c, s)
    ensures s.consumed + HeldIds(s) + s.second + BeingRegistered(s) + s.first == seq(s.pushed, i => i)
  {
    InvAlways(c, s);
  }

  /** A chunk whose futures are in the second queue or with the consumer is published, or held
      by exactly one worker that is past Get; no worker holds a chunk that is not registered. */
  lemma OneOwner(c: Config, s: State, id: ChunkId)
    requires c.Valid() && Reachable(c, s)
    ensures id in s.consumed ==> id in s.published
    ensures id in s.second + HeldIds(s) ==> id in s.published || exists w :: AnalysedBy(s, id, w)
    ensures id in s.first + BeingRegistered(s) ==> id !in s.published && !exists w :: AnalysedBy(s, id, w)
    ensures forall w :: AnalysedBy(s, id, w) ==> id !in s.published
    ensures forall w, v :: AnalysedBy(s, id, w) && AnalysedBy(s, id, v) ==> w == v
  {
    InvAlways(c, s);
  }

  /** The queues stay within their limits; only the final chunk may exceed that of the first. */
  lemma QueuesAreBounded(c: Config, s: State)
    requires c.Valid() && Reachable(c, s)
    ensures |s.second| <= c.maxSecond
    ensures |s.first| <= c.maxFirst + (if s.pushed == |c.chunks| then 1 else 0)
  {
    InvAlways(c, s);
  }

  /** The consumer leaves its loop only after everything pushed has been merged. */
  lemma ExitMeansMerged(c: Config, s: State)
    requires c.Valid() && Reachable(c, s)
    requires s.consumer == LeavesLoop || s.consumer == Exited
    ensures s.consumed == seq(|c.chunks|, i => i) && s.pushed == |c.chunks| && s.first == [] && s.second == []
    ensures s.shadow == Carried(Overwriting, c.chunks)
  {
    InvAlways(c, s);
    assert c.chunks[..|s.consumed|] == c.chunks;
  }

  ghost predicate AllJoined(s: State) {
    s.consumer == Exited && forall w :: 0 <= w < |s.workers| ==> s.workers[w].state == Gone
  }

  lemma {:induction false} ChunkedReportsByChunk(chunks: seq<Chunk>, d: Dependency)
    ensures d in ChunkedReports(Overwriting, chunks) <==> exists id :: ReportsForChunk(chunks, id, d)
  {
    if chunks == [] {
    } else {
      var n := |chunks| - 1;
      var before := chunks[..n];
      ChunkedReportsByChunk(before, d);
      forall id | id != n
        ensures ReportsForChunk(before, id, d) <==> ReportsForChunk(chunks, id, d)
      {
        if 0 <= id < n {
          assert before[..id] == chunks[..id];
        }
      }
      assert ReportsForChunk(chunks, n, d) <==> d in ChunkReports(Carried(Overwriting, before), chunks[n]);
    }
  }

  ghost predicate ReportsForChunk(chunks: seq<Chunk>, id: int, d: Dependency) {
    0 <= id < |chunks| && d in ChunkReports(Carried(Overwriting, chunks[..id]), chunks[id])
  }

  /** Whatever the interleaving and however many workers: once all threads have joined, the
      global table holds exactly what analysing the chunks one after the other reports. */
  lemma ScheduleIndependence(c: Config, s: State)
    requires c.Valid() && Reachable(c, s) && AllJoined(s)
    ensures s.allDeps == ChunkedReports(Overwriting, c.chunks)
  {
    InvAlways(c, s);
    forall d ensures d in s.allDeps <==> d in ChunkedReports(Overwriting, c.chunks) {
      ChunkedReportsByChunk(c.chunks, d);
      assert Collected(s, d) <==> Due(c, s, d);
      assert !InSomeTable(s, d);
      assert LocalDue(c, s.published, d) <==> exists id :: LocalOf(c, id, d);
      assert ReplayDue(c, |s.consumed|, d) <==> exists id :: ReplayOf(c, id, d);
      assert forall id :: ReportsForChunk(c.chunks, id, d) <==> LocalOf(c, id, d) || ReplayOf(c, id, d);
    }
  }

  /** End to end: the RAW and INIT dependencies written out are those of the sequential run. */
  lemma EndToEnd(c: Config, s: State)
    requires c.Valid() && Reachable(c, s) && AllJoined(s)
    requires AllIdentified(c.chunks) && NothingForgotten(c.chunks)
    ensures RawAndInit(s.allDeps) == RawAndInit(Reports(map[], Flatten(c.chunks)))
  {
    ScheduleIndependence(c, s);
    SameRawAndInit(c.chunks);
  }

  /** And no schedule makes up for a forgotten write: the exact condition of the chunked run is
      that of every schedule. */
  lemma EndToEndExactly(c: Config, s: State)
    requires c.Valid() && Reachable(c, s) && AllJoined(s)
    requires AllIdentified(c.chunks)
    ensures RawAndInit(s.allDeps) == RawAndInit(Reports(map[], Flatten(c.chunks))) <==> AllCoveredUp(c.chunks)
  {
    ScheduleIndependence(c, s);
    SameRawAndInitExactly(c.chunks);
  }

  /** The same of the whole table, WAR and WAW included. */
  lemma EndToEndTableExactly(c: Config, s: State)
    requires c.Valid() && Reachable(c, s) && AllJoined(s)
    requires AllIdentified(c.chunks)
    ensures s.allDeps == Reports(map[], Flatten(c.chunks)) <==> AllCoveredUp(c.chunks) && AllWarAndWawCoveredUp(c.chunks)
  {
    ScheduleIndependence(c, s);
    SameReportsExactly(c.chunks);
  }
}
