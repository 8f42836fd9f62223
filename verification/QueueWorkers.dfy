/** The shadow memory, the dependency tables and the bodies of the two queue workers. */
module QueueWorkers {
  import opened Accesses
  import opened SequentialAnalysis
  import opened Chunks
  import opened Deduplication
  import opened Collections

  function ValueIn(m: map<Addr, Lid>, a: Addr): Lid {
    if a in m then m[a] else 0
  }

  class PerfectShadow2 {
    var readCache: map<Addr, Lid>
    var writeCache: map<Addr, Lid>

    function CellAt(a: Addr): Cell
      reads this
    {
      Cell(ValueIn(readCache, a), ValueIn(writeCache, a))
    }

    constructor ()
      ensures forall a :: CellAt(a) == EMPTY
    {
      readCache, writeCache := map[], map[];
    }

    /** Looking an address up leaves an entry with the default value behind. */
    method TestInRead(a: Addr) returns (value: Lid)
      modifies this
      ensures value == old(CellAt(a)).r
      ensures forall b :: CellAt(b) == old(CellAt(b))
      ensures a in readCache && writeCache == old(writeCache)
    {
      if a !in readCache {
        readCache := readCache[a := 0];
      }
      value := readCache[a];
    }

    method TestInWrite(a: Addr) returns (value: Lid)
      modifies this
      ensures value == old(CellAt(a)).w
      ensures forall b :: CellAt(b) == old(CellAt(b))
      ensures a in writeCache && readCache == old(readCache)
    {
      if a !in writeCache {
        writeCache := writeCache[a := 0];
      }
      value := writeCache[a];
    }

    method InsertToRead(a: Addr, value: Lid) returns (previous: Lid)
      modifies this
      ensures previous == old(CellAt(a)).r
      ensures forall b :: CellAt(b) == if b == a then old(CellAt(b)).(r := value) else old(CellAt(b))
    {
      previous := ValueIn(readCache, a);
      readCache := readCache[a := value];
    }

    method InsertToWrite(a: Addr, value: Lid) returns (previous: Lid)
      modifies this
      ensures previous == old(CellAt(a)).w
      ensures forall b :: CellAt(b) == if b == a then old(CellAt(b)).(w := value) else old(CellAt(b))
    {
      previous := ValueIn(writeCache, a);
      writeCache := writeCache[a := value];
    }

    /** Stores whatever it is given, 0 included. */
    method UpdateInRead(a: Addr, value: Lid)
      modifies this
      ensures forall b :: CellAt(b) == if b == a then old(CellAt(b)).(r := value) else old(CellAt(b))
    {
      readCache := readCache[a := value];
    }

    method UpdateInWrite(a: Addr, value: Lid)
      modifies this
      ensures forall b :: CellAt(b) == if b == a then old(CellAt(b)).(w := value) else old(CellAt(b))
    {
      writeCache := writeCache[a := value];
    }
  }

  /** A table of dependencies: one per thread, and the global one they are merged into. */
  class DependencyTable {
    var table: DepMap

    function Deps(): set<Dependency>
      reads this
    {
      Triples(table)
    }

    constructor ()
      ensures Deps() == {}
    {
      table := map[];
    }

    method AddDep(depType: DepType, curr: Lid, depOn: Lid)
      modifies this
      ensures Deps() == old(Deps()) + {Dependency(curr, if depOn == 0 && depType == WAW then INIT else depType, depOn)}
    {
      var kind := if depOn == 0 && depType == WAW then INIT else depType;
      Insert(curr, {Dep(kind, depOn)});
    }

    /** Extends the set of a sink, creating it when the sink is seen for the first time. */
    method Insert(sink: Lid, deps: set<Dep>)
      modifies this
      ensures Deps() == old(Deps()) + set d | d in deps :: Dependency(sink, d.depType, d.depOn)
      ensures table.Keys == old(table.Keys) + {sink}
    {
      ghost var was := table;
      var known := if sink in table then table[sink] else {};
      table := table[sink := known + deps];
      forall d: Dependency
        ensures d in Triples(table) <==> d in Triples(was) || d in set e | e in deps :: Dependency(sink, e.depType, e.depOn)
      {
        var e := Dep(d.depType, d.source);
        assert d in Triples(table) <==> d.sink in table && e in table[d.sink];
        assert d in Triples(was) <==> d.sink in was && e in was[d.sink];
        assert d.sink == sink && e in deps ==> d in set e | e in deps :: Dependency(sink, e.depType, e.depOn);
      }
    }

    /** Merges this table into the global one, sink by sink, and clears it. */
    method MergeInto(all: DependencyTable)
      requires all != this
      modifies this, all
      ensures all.Deps() == old(all.Deps()) + old(Deps())
      ensures Deps() == {}
    {
      ghost var mine, global := Deps(), all.Deps();
      var todo := table.Keys;
      while todo != {}
        invariant todo <= table.Keys && table == old(table)
        invariant all.Deps() == global + (set d | d in mine && d.sink !in todo)
        decreases |todo|
      {
        assert exists sink :: sink in todo by { HasElement(todo); }
        var sink :| sink in todo;
        todo := todo - {sink};
        all.Insert(sink, table[sink]);
        forall d: Dependency | d in mine && d.sink == sink
          ensures d in set e | e in table[sink] :: Dependency(sink, e.depType, e.depOn)
        {
          assert Dep(d.depType, d.source) in table[sink];
        }
      }
      table := map[];
    }
  }

  /** One access against a shadow memory. */
  method AnalyzeSingleAccess(smem: PerfectShadow2, my: DependencyTable, x: AccessInfo)
    modifies smem, my
    ensures forall a :: smem.CellAt(a) == if a == x.addr then Step(old(smem.CellAt(a)), x) else old(smem.CellAt(a))
    ensures my.Deps() == old(my.Deps()) + Report(old(smem.CellAt(x.addr)), x)
  {
    if x.isRead {
      if x.skip {
        var _ := smem.InsertToRead(x.addr, x.lid);
        return;
      }
      var lastWrite := smem.TestInWrite(x.addr);
      var _ := smem.InsertToRead(x.addr, x.lid);
      if lastWrite != 0 && lastWrite != 1 {
        my.AddDep(RAW, x.lid, lastWrite);
      }
    } else {
      var lastWrite := smem.InsertToWrite(x.addr, x.lid);
      if x.skip {
        return;
      }
      var lastRead := smem.TestInRead(x.addr);
      if lastWrite == 0 || lastWrite == 1 {
        my.AddDep(INIT, x.lid, 0);
        if lastRead != 0 && lastRead != 1 {
          my.AddDep(WAR, x.lid, lastRead);
          var _ := smem.InsertToRead(x.addr, 0);
        }
      } else if lastRead != 0 && lastRead != 1 {
        my.AddDep(WAR, x.lid, lastRead);
        var _ := smem.InsertToRead(x.addr, 0);
      } else {
        my.AddDep(WAW, x.lid, lastWrite);
      }
    }
  }

  /** The run without workers: every access is analysed as it is recorded. */
  class SingleThreadedExecution {
    const smem: PerfectShadow2
    const my: DependencyTable
    ghost var history: seq<AccessInfo>

    ghost predicate Valid()
      reads this, smem, my
    {
      && (forall a :: smem.CellAt(a) == CellAfter(EMPTY, history, a))
      && my.Deps() == Reports(map[], history)
    }

    constructor ()
      ensures Valid() && history == [] && fresh(smem) && fresh(my)
    {
      smem := new PerfectShadow2();
      my := new DependencyTable();
      history := [];
    }

    method Access(x: AccessInfo)
      requires Valid()
      modifies this, smem, my
      ensures Valid() && history == old(history) + [x]
    {
      assert (history + [x])[..|history|] == history;
      AnalyzeSingleAccess(smem, my, x);
      history := history + [x];
    }
  }

  lemma RecordedExtends(buffer: seq<AccessInfo>, i: nat)
    requires i < |buffer|
    ensures var r := Recorded(buffer[..i]);
            && (buffer[i].Unused() ==> Recorded(buffer[..i + 1]) == r)
            && (!buffer[i].Unused() ==> Recorded(buffer[..i + 1]) == r + [buffer[i]] && (r + [buffer[i]])[..|r|] == r)
  {
    assert buffer[..i + 1][..i] == buffer[..i];
  }

  /** Hands an access on to the second queue, once per repetition while that pays off. */
  method DeferAccess(d: Deferral, x: AccessInfo) returns (entries: seq<AccessInfo>, already: set<AccessInfo>,
                                                          deduplicate: bool, seen: nat, repeats: nat)
    ensures Deferral(entries, already, deduplicate, seen, repeats) == Defer(d, x)
    ensures entries == d.entries + if d.deduplicate && x in d.already then [] else [x]
    ensures d.deduplicate ==> seen == d.seen + 1 && repeats == d.repeats + if x in d.already then 1 else 0
    ensures deduplicate <==> d.deduplicate && !(seen == 4096 && repeats < 1024)
    ensures deduplicate ==> already == d.already + {x}
  {
    entries, already, deduplicate, seen, repeats := d.entries, d.already, d.deduplicate, d.seen, d.repeats;
    if deduplicate {
      seen := seen + 1;
      if x !in already {
        already := already + {x};
        entries := entries + [x];
      } else {
        repeats := repeats + 1;
        assert already + {x} == already;
      }
      if seen == DEFERRED_DEDUP_TRIAL && 4 * repeats < seen {
        already := {};
        deduplicate := false;
      }
    } else {
      entries := entries + [x];
    }
  }

  lemma ChunkGrows(chunk: Chunk, x: AccessInfo)
    ensures var bigger := chunk + [x];
            && Deferred(bigger) == (if IsEntryCondition(chunk, x) then Defer(Deferred(chunk), x) else Deferred(chunk))
            && LocalReports(bigger) == LocalReports(chunk) + (if IsEntryCondition(chunk, x) then {} else Report(LocalCell(chunk, x.addr), x))
            && forall a :: LocalCell(bigger, a) == if x.addr == a then LocalStep(LocalCell(chunk, a), x) else LocalCell(chunk, a)
  {
    assert (chunk + [x])[..|chunk|] == chunk;
    forall a { LocalCellExtends(chunk, x, a); }
  }

  /** Registers an access that is deferred; it closes no read. */
  method RegisterAccess(smem: PerfectShadow2, x: AccessInfo, ghost done: Chunk)
    requires (forall a :: smem.CellAt(a) == LocalCell(done, a)) && IsEntryCondition(done, x)
    modifies smem
    ensures forall a :: smem.CellAt(a) == LocalCell(done + [x], a)
  {
    ChunkGrows(done, x);
    if x.isRead {
      var _ := smem.InsertToRead(x.addr, x.lid);
    } else {
      var _ := smem.InsertToWrite(x.addr, x.lid);
    }
  }

  /** Analyses an access against the local shadow, which knows a write of its address. */
  method AnalyzeLocally(smem: PerfectShadow2, my: DependencyTable, x: AccessInfo, ghost done: Chunk)
    requires (forall a :: smem.CellAt(a) == LocalCell(done, a)) && !IsEntryCondition(done, x)
    modifies smem, my
    ensures forall a :: smem.CellAt(a) == LocalCell(done + [x], a)
    ensures my.Deps() == old(my.Deps()) + Report(LocalCell(done, x.addr), x)
  {
    ChunkGrows(done, x);
    AnalyzeSingleAccess(smem, my, x);
  }

  /** First queue: a chunk against an empty local shadow. Returns the accesses it defers
      and the exit state; its own reports go to the worker's table. */
  method ProcessChunk(buffer: seq<AccessInfo>, my: DependencyTable)
    returns (entries: seq<AccessInfo>, smem: PerfectShadow2)
    modifies my
    ensures fresh(smem)
    ensures entries == Entries(Recorded(buffer))
    ensures Identified(Recorded(buffer)) ==> HandedOn(AllDeferred(Recorded(buffer)), entries)
    ensures forall a :: smem.CellAt(a) == LocalCell(Recorded(buffer), a)
    ensures my.Deps() == old(my.Deps()) + LocalReports(Recorded(buffer))
  {
    smem := new PerfectShadow2();
    entries := [];
    var alreadyDeferred: set<AccessInfo> := {};
    var deduplicate := true;
    var deferredSeen, deferredRepeats := 0, 0;
    ghost var done: Chunk := [];

    for i := 0 to |buffer|
      invariant fresh(smem)
      invariant done == Recorded(buffer[..i])
      invariant Deferral(entries, alreadyDeferred, deduplicate, deferredSeen, deferredRepeats) == Deferred(done)
      invariant forall a :: smem.CellAt(a) == LocalCell(done, a)
      invariant my.Deps() == old(my.Deps()) + LocalReports(done)
    {
      var x := buffer[i];
      RecordedExtends(buffer, i);
      if !x.Unused() {
        ChunkGrows(done, x);
        var lastWrite := smem.TestInWrite(x.addr);
        if lastWrite == 0 {
          entries, alreadyDeferred, deduplicate, deferredSeen, deferredRepeats :=
            DeferAccess(Deferral(entries, alreadyDeferred, deduplicate, deferredSeen, deferredRepeats), x);
          RegisterAccess(smem, x, done);
        } else {
          AnalyzeLocally(smem, my, x, done);
        }
        done := done + [x];
      }
    }
    assert buffer[..|buffer|] == buffer;
    if Identified(done) {
      DeferredState(done);
    }
  }

  ghost predicate Holds(smem: PerfectShadow2, s: ShadowMap)
    reads smem
  {
    forall a :: smem.CellAt(a) == At(s, a)
  }

  lemma {:induction false} RecordedAll(t: seq<AccessInfo>)
    requires forall x :: x in t ==> !x.Unused()
    ensures Recorded(t) == t
  {
    if t == [] {
    } else {
      assert t[|t| - 1] in t;
      forall x | x in t[..|t| - 1] ensures x in t {}
      RecordedAll(t[..|t| - 1]);
    }
  }

  lemma RunGrows(s: ShadowMap, t: seq<AccessInfo>, x: AccessInfo)
    ensures Reports(s, t + [x]) == Reports(s, t) + Report(CellAfter(At(s, x.addr), t, x.addr), x)
    ensures forall a :: CellAfter(At(s, a), t + [x], a) ==
                        if x.addr == a then Step(CellAfter(At(s, a), t, a), x) else CellAfter(At(s, a), t, a)
  {
    assert (t + [x])[..|t|] == t;
  }

  /** One replayed access, after those of `done`. */
  method ReplayAccess(smem: PerfectShadow2, my: DependencyTable, x: AccessInfo, ghost s: ShadowMap, ghost done: seq<AccessInfo>)
    requires forall a :: smem.CellAt(a) == CellAfter(At(s, a), done, a)
    modifies smem, my
    ensures forall a :: smem.CellAt(a) == CellAfter(At(s, a), done + [x], a)
    ensures my.Deps() == old(my.Deps()) + Report(CellAfter(At(s, x.addr), done, x.addr), x)
    ensures Reports(s, done + [x]) == Reports(s, done) + Report(CellAfter(At(s, x.addr), done, x.addr), x)
  {
    RunGrows(s, done, x);
    AnalyzeSingleAccess(smem, my, x);
  }

  /** Replays what a chunk deferred on the persistent shadow. */
  method Replay(entries: seq<AccessInfo>, smem: PerfectShadow2, my: DependencyTable, ghost s: ShadowMap)
    requires Holds(smem, s)
    modifies smem, my
    ensures forall a :: smem.CellAt(a) == CellAfter(At(s, a), Recorded(entries), a)
    ensures my.Deps() == old(my.Deps()) + Reports(s, Recorded(entries))
  {
    ghost var done: seq<AccessInfo> := [];
    for i := 0 to |entries|
      invariant done == Recorded(entries[..i])
      invariant forall a :: smem.CellAt(a) == CellAfter(At(s, a), done, a)
      invariant my.Deps() == old(my.Deps()) + Reports(s, done)
    {
      RecordedExtends(entries, i);
      if !entries[i].Unused() {
        ReplayAccess(smem, my, entries[i], s, done);
        done := done + [entries[i]];
      }
    }
    assert entries[..|entries|] == entries;
  }

  /** Stores a chunk's exit state of every address it deferred an access to. */
  method StoreExitState(entries: seq<AccessInfo>, exit: PerfectShadow2, smem: PerfectShadow2)
    requires exit != smem
    modifies smem
    ensures forall a :: smem.CellAt(a) == if Touches(entries, a) then exit.CellAt(a) else old(smem.CellAt(a))
  {
    for i := 0 to |entries|
      invariant forall a :: smem.CellAt(a) == if Touches(entries[..i], a) then exit.CellAt(a) else old(smem.CellAt(a))
    {
      var a := entries[i].addr;
      smem.UpdateInRead(a, ValueIn(exit.readCache, a));
      smem.UpdateInWrite(a, ValueIn(exit.writeCache, a));
      assert entries[..i + 1] == entries[..i] + [entries[i]];
    }
    assert entries[..|entries|] == entries;
  }

  /** Second queue: the deferred accesses of a chunk on the persistent shadow, then its exit state. */
  method ProcessElement(entries: seq<AccessInfo>, exit: PerfectShadow2, smem: PerfectShadow2, my: DependencyTable,
                        ghost chunk: Chunk, ghost s: ShadowMap)
    requires exit != smem
    requires Identified(chunk) && entries == Entries(chunk) && Holds(smem, s)
    requires forall a :: exit.CellAt(a) == LocalCell(chunk, a)
    modifies smem, my
    ensures Holds(smem, Merged(Overwriting, s, chunk))
    ensures my.Deps() == old(my.Deps()) + Reports(s, Entries(chunk))
  {
    EntriesAreDeferred(chunk);
    RecordedAll(entries);
    Replay(entries, smem, my, s);
    StoreExitState(entries, exit, smem);
    forall a ensures smem.CellAt(a) == At(Merged(Overwriting, s, chunk), a) {
      if !Touches(entries, a) {
        CellUntouched(At(s, a), entries, a);
      }
    }
  }
}
