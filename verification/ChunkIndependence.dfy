/** RAW and INIT depend on the writes alone. When does cutting a trace into chunks not show? */
module ChunkIndependence {
  import opened Accesses
  import opened SequentialAnalysis
  import opened Chunks

  // ----- Every report belongs to one access of one chunk -------------------------

  /** The cell that access `j` of `chunk` is analysed against, by whichever queue does it. */
  function SeesInChunk(s: ShadowMap, chunk: Chunk, j: nat): Cell
    requires j < |chunk|
  {
    var before, x := chunk[..j], chunk[j];
    if IsEntryCondition(before, x) then CellAfter(At(s, x.addr), Entries(before), x.addr)
    else LocalCell(before, x.addr)
  }

  lemma {:induction false} WriteUnchanged(c: Cell, t: seq<AccessInfo>, a: Addr)
    requires !Writes(t, a)
    ensures CellAfter(c, t, a).w == c.w
  {
    if t == [] {
    } else {
      assert t[|t| - 1] in t;
      forall x | x in t[..|t| - 1] ensures x in t {}
      WriteUnchanged(c, t[..|t| - 1], a);
    }
  }

  /** An access that deduplication drops would have reported what its first copy reports. */
  lemma DroppedReportsNothingNew(s: ShadowMap, before: Chunk, x: AccessInfo)
    requires Identified(before)
    requires IsEntryCondition(before, x) && x in Entries(before)
    ensures Report(CellAfter(At(s, x.addr), Entries(before), x.addr), x) <= Reports(s, Entries(before))
  {
    var e, a := Entries(before), x.addr;
    LocalWriteKnown(before, a);
    EntriesAreDeferred(before);
    assert x.isRead;
    WriteUnchanged(At(s, a), e, a);
    var p :| 0 <= p < |e| && e[p] == x;
    forall y | y in e[..p] ensures y in e {}
    WriteUnchanged(At(s, a), e[..p], a);
    forall d | d in Report(CellAfter(At(s, a), e, a), x)
      ensures d in Reports(s, e)
    {
      ReportedIff(s, e, d);
      assert d in Report(Seen(s, e, p), e[p]);
    }
  }

  /** Access `j` of `chunk` reports `d`. */
  ghost predicate ReportsInChunk(s: ShadowMap, chunk: Chunk, j: int, d: Dependency) {
    0 <= j < |chunk| && d in Report(SeesInChunk(s, chunk, j), chunk[j])
  }

  lemma ChunkReportsStep(s: ShadowMap, before: Chunk, x: AccessInfo)
    requires Identified(before)
    ensures ChunkReports(s, before + [x])
         == ChunkReports(s, before) + Report(SeesInChunk(s, before + [x], |before|), x)
  {
    var chunk := before + [x];
    assert chunk[..|before|] == before;
    EntriesGrow(before, x);
    if IsEntryCondition(before, x) {
      assert LocalReports(chunk) == LocalReports(before);
      if Entries(chunk) == Entries(before) {
        EntriesAreDeferred(before);
        DroppedReportsNothingNew(s, before, x);
      } else {
        assert Entries(chunk)[..|Entries(before)|] == Entries(before);
        assert Reports(s, Entries(chunk))
            == Reports(s, Entries(before)) + Report(CellAfter(At(s, x.addr), Entries(before), x.addr), x);
      }
    } else {
      assert Entries(chunk) == Entries(before);
    }
  }

  lemma {:induction false} ChunkReportsByAccess(s: ShadowMap, chunk: Chunk, d: Dependency)
    requires Identified(chunk)
    ensures d in ChunkReports(s, chunk) <==> SomewhereInChunk(s, chunk, d)
  {
    if chunk == [] {
    } else {
      var n := |chunk| - 1;
      var before := chunk[..n];
      assert chunk == before + [chunk[n]];
      forall y | y in before ensures y in chunk {}
      ChunkReportsByAccess(s, before, d);
      ChunkReportsStep(s, before, chunk[n]);
      forall j | j != n
        ensures ReportsInChunk(s, before, j, d) <==> ReportsInChunk(s, chunk, j, d)
      {
        if 0 <= j < n {
          assert before[..j] == chunk[..j];
        }
      }
      assert d in ChunkReports(s, chunk) <==> (d in ChunkReports(s, before) || ReportsInChunk(s, chunk, n, d));
    }
  }

  ghost predicate AllIdentified(chunks: seq<Chunk>) {
    forall chunk :: chunk in chunks ==> Identified(chunk)
  }

  /** `j` is a position in chunk `k`. */
  predicate Within(chunks: seq<Chunk>, k: int, j: int) {
    0 <= k < |chunks| && 0 <= j < |chunks[k]|
  }

  /** What the chunked run analyses access `j` of chunk `k` against. */
  function ChunkSees(m: Merge, chunks: seq<Chunk>, k: int, j: int): Cell
    requires Within(chunks, k, j)
  {
    SeesInChunk(Carried(m, chunks[..k]), chunks[k], j)
  }

  /** What the sequential run analyses the same access against. */
  function SequentialSees(chunks: seq<Chunk>, k: int, j: int): Cell
    requires Within(chunks, k, j)
  {
    CellAfter(EMPTY, Flatten(chunks[..k]) + chunks[k][..j], chunks[k][j].addr)
  }

  ghost predicate ChunkedReportsAt(m: Merge, chunks: seq<Chunk>, k: int, j: int, d: Dependency) {
    Within(chunks, k, j) && d in Report(ChunkSees(m, chunks, k, j), chunks[k][j])
  }

  ghost predicate SequentialReportsAt(chunks: seq<Chunk>, k: int, j: int, d: Dependency) {
    Within(chunks, k, j) && d in Report(SequentialSees(chunks, k, j), chunks[k][j])
  }

  lemma ReportsInPrefix(m: Merge, chunks: seq<Chunk>, n: nat, k: int, j: int, d: Dependency)
    requires n <= |chunks| && k < n
    ensures ChunkedReportsAt(m, chunks[..n], k, j, d) <==> ChunkedReportsAt(m, chunks, k, j, d)
    ensures SequentialReportsAt(chunks[..n], k, j, d) <==> SequentialReportsAt(chunks, k, j, d)
  {
    if 0 <= k {
      assert chunks[..n][..k] == chunks[..k];
    }
  }

  lemma ReportsInLast(m: Merge, chunks: seq<Chunk>, j: int, d: Dependency)
    requires chunks != []
    ensures var n := |chunks| - 1;
            ReportsInChunk(Carried(m, chunks[..n]), chunks[n], j, d) <==> ChunkedReportsAt(m, chunks, n, j, d)
  {}

  ghost predicate ChunkedSomewhere(m: Merge, chunks: seq<Chunk>, d: Dependency) {
    exists k, j :: ChunkedReportsAt(m, chunks, k, j, d)
  }

  ghost predicate SomewhereInChunk(s: ShadowMap, chunk: Chunk, d: Dependency) {
    exists j :: ReportsInChunk(s, chunk, j, d)
  }

  lemma ChunkedSomewhereGrows(m: Merge, chunks: seq<Chunk>, d: Dependency)
    requires chunks != []
    ensures var before, last := chunks[..|chunks| - 1], chunks[|chunks| - 1];
            ChunkedSomewhere(m, chunks, d) <==>
            ChunkedSomewhere(m, before, d) || SomewhereInChunk(Carried(m, before), last, d)
  {
    var n := |chunks| - 1;
    var before, last := chunks[..n], chunks[n];
    if k, j :| ChunkedReportsAt(m, chunks, k, j, d) {
      if k < n {
        ReportsInPrefix(m, chunks, n, k, j, d);
      } else {
        ReportsInLast(m, chunks, j, d);
      }
    }
    if k, j :| ChunkedReportsAt(m, before, k, j, d) {
      ReportsInPrefix(m, chunks, n, k, j, d);
    }
    if j :| ReportsInChunk(Carried(m, before), last, j, d) {
      ReportsInLast(m, chunks, j, d);
    }
  }

  /** Deferral, its deduplication and the give-up of that, replay and merge do not change
      which accesses report: the run reports what its accesses see, one by one. */
  lemma {:induction false} ChunkedByAccess(m: Merge, chunks: seq<Chunk>, d: Dependency)
    requires AllIdentified(chunks)
    ensures d in ChunkedReports(m, chunks) <==> ChunkedSomewhere(m, chunks, d)
  {
    if chunks == [] {
    } else {
      var before, last := chunks[..|chunks| - 1], chunks[|chunks| - 1];
      forall c | c in before ensures c in chunks {}
      assert last in chunks;
      ChunkedByAccess(m, before, d);
      ChunkReportsByAccess(Carried(m, before), last, d);
      ChunkedSomewhereGrows(m, chunks, d);
    }
  }

  lemma {:induction false} ReportsSplit(t: seq<AccessInfo>, u: seq<AccessInfo>, d: Dependency)
    ensures d in Reports(map[], t + u) <==> d in Reports(map[], t) || SomewhereAfter(t, u, d)
  {
    if u == [] {
      assert t + u == t;
    } else {
      var n := |u| - 1;
      var v := u[..n];
      assert (t + u)[..|t + u| - 1] == t + v;
      ReportsSplit(t, v, d);
      forall j | j != n
        ensures ReportsAfter(t, v, j, d) <==> ReportsAfter(t, u, j, d)
      {
        if 0 <= j < n {
          assert v[..j] == u[..j];
        }
      }
      assert d in Reports(map[], t + u) <==> (d in Reports(map[], t + v) || ReportsAfter(t, u, n, d));
    }
  }

  ghost predicate ReportsAfter(t: seq<AccessInfo>, u: seq<AccessInfo>, j: int, d: Dependency) {
    0 <= j < |u| && d in Report(CellAfter(EMPTY, t + u[..j], u[j].addr), u[j])
  }

  lemma SequentialReportsInLast(chunks: seq<Chunk>, j: int, d: Dependency)
    requires chunks != []
    ensures var n := |chunks| - 1;
            ReportsAfter(Flatten(chunks[..n]), chunks[n], j, d) <==> SequentialReportsAt(chunks, n, j, d)
  {}

  ghost predicate SequentialSomewhere(chunks: seq<Chunk>, d: Dependency) {
    exists k, j :: SequentialReportsAt(chunks, k, j, d)
  }

  ghost predicate SomewhereAfter(t: seq<AccessInfo>, u: seq<AccessInfo>, d: Dependency) {
    exists j :: ReportsAfter(t, u, j, d)
  }

  lemma SequentialSomewhereGrows(chunks: seq<Chunk>, d: Dependency)
    requires chunks != []
    ensures var before, last := chunks[..|chunks| - 1], chunks[|chunks| - 1];
            SequentialSomewhere(chunks, d) <==> SequentialSomewhere(before, d) || SomewhereAfter(Flatten(before), last, d)
  {
    var n := |chunks| - 1;
    var before, last := chunks[..n], chunks[n];
    if k, j :| SequentialReportsAt(chunks, k, j, d) {
      if k < n {
        ReportsInPrefix(Overwriting, chunks, n, k, j, d);
      } else {
        SequentialReportsInLast(chunks, j, d);
      }
    }
    if k, j :| SequentialReportsAt(before, k, j, d) {
      ReportsInPrefix(Overwriting, chunks, n, k, j, d);
    }
    if j :| ReportsAfter(Flatten(before), last, j, d) {
      SequentialReportsInLast(chunks, j, d);
    }
  }

  lemma {:induction false} SequentialByAccess(chunks: seq<Chunk>, d: Dependency)
    ensures d in Reports(map[], Flatten(chunks)) <==> SequentialSomewhere(chunks, d)
  {
    if chunks == [] {
    } else {
      var before := chunks[..|chunks| - 1];
      SequentialByAccess(before, d);
      ReportsSplit(Flatten(before), chunks[|chunks| - 1], d);
      SequentialSomewhereGrows(chunks, d);
    }
  }

  // ----- The write part of what is seen -------------------------------------------

  /** The LID of the latest write of `t` to `a`, 0 if there is none. */
  function LastWriteOf(t: seq<AccessInfo>, a: Addr): Lid {
    if t == [] then 0
    else
      var x := t[|t| - 1];
      if x.addr == a && !x.isRead then x.lid else LastWriteOf(t[..|t| - 1], a)
  }

  /** The latest chunk that touches `a` only reads it, though an earlier one had left a
      write of `a` that dependencies can be reported on. */
  predicate Lost(chunks: seq<Chunk>, a: Addr) {
    chunks != [] &&
    var before, last := chunks[..|chunks| - 1], chunks[|chunks| - 1];
    if Touches(last, a) then !Writes(last, a) && !IsNone(LastWriteOf(Flatten(before), a))
    else Lost(before, a)
  }

  /** Access `j` of chunk `k` asks for a write that the merge has overwritten. */
  predicate Forgotten(chunks: seq<Chunk>, k: int, j: int)
    requires Within(chunks, k, j)
  {
    var x := chunks[k][j];
    !x.skip && !Writes(chunks[k][..j], x.addr) && Lost(chunks[..k], x.addr)
  }

  ghost predicate NothingForgotten(chunks: seq<Chunk>) {
    forall k, j :: Within(chunks, k, j) ==> !Forgotten(chunks, k, j)
  }

  /** Both values give the same RAW and INIT. */
  predicate Alike(w: Lid, w': Lid) {
    w == w' || (IsNone(w) && IsNone(w'))
  }

  lemma {:induction false} LastWriteIsSeen(t: seq<AccessInfo>, a: Addr)
    ensures CellAfter(EMPTY, t, a).w == LastWriteOf(t, a)
  {
    if t == [] {
    } else {
      LastWriteIsSeen(t[..|t| - 1], a);
    }
  }

  lemma {:induction false} LastWriteSplit(t: seq<AccessInfo>, u: seq<AccessInfo>, a: Addr)
    ensures LastWriteOf(t + u, a) == if Writes(u, a) then LastWriteOf(u, a) else LastWriteOf(t, a)
  {
    if u == [] {
      assert t + u == t;
    } else {
      var n := |u| - 1;
      assert (t + u)[..|t + u| - 1] == t + u[..n];
      assert u == u[..n] + [u[n]];
      LastWriteSplit(t, u[..n], a);
    }
  }

  lemma {:induction false} LocalLastWrite(chunk: Chunk, a: Addr)
    requires Identified(chunk)
    ensures LocalCell(chunk, a).w == LastWriteOf(chunk, a)
  {
    if chunk == [] {
    } else {
      assert chunk[|chunk| - 1] in chunk;
      forall x | x in chunk[..|chunk| - 1] ensures x in chunk {}
      LocalLastWrite(chunk[..|chunk| - 1], a);
    }
  }

  lemma MergedAt(m: Merge, s: ShadowMap, chunk: Chunk, a: Addr)
    requires Identified(chunk)
    ensures At(Merged(m, s, chunk), a) ==
            if Touches(chunk, a) then MergeCell(m, CellAfter(At(s, a), Entries(chunk), a), LocalCell(chunk, a)) else At(s, a)
  {
    var e := Entries(chunk);
    EntriesAreDeferred(chunk);
    if !Touches(chunk, a) {
      CellUntouched(At(s, a), e, a);
    } else {
      assert Touches(e, a);
    }
  }

  /** What the second queue carries of the writes: the latest one, unless it is lost. */
  lemma {:induction false} CarriedWrite(m: Merge, chunks: seq<Chunk>, a: Addr)
    requires AllIdentified(chunks)
    ensures var w, carried := LastWriteOf(Flatten(chunks), a), At(Carried(m, chunks), a).w;
            && (m.Guarded? ==> carried == w)
            && (m.Overwriting? && Lost(chunks, a) ==> carried == 0 && !IsNone(w))
            && (m.Overwriting? && !Lost(chunks, a) ==> Alike(carried, w))
  {
    if chunks == [] {
    } else {
      var before, last := chunks[..|chunks| - 1], chunks[|chunks| - 1];
      forall c | c in before ensures c in chunks {}
      CarriedWrite(m, before, a);
      MergedAt(m, Carried(m, before), last, a);
      LocalLastWrite(last, a);
      LocalWriteKnown(last, a);
      LastWriteSplit(Flatten(before), last, a);
      EntriesAreDeferred(last);
      if Touches(last, a) && !Writes(last, a) {
        WriteUnchanged(At(Carried(m, before), a), Entries(last), a);
      }
    }
  }

  /** What the access sees of the writes differs from the sequential run where it is forgotten. */
  lemma WriteSeen(m: Merge, chunks: seq<Chunk>, k: int, j: int)
    requires AllIdentified(chunks) && Within(chunks, k, j)
    ensures var c, s := ChunkSees(m, chunks, k, j).w, SequentialSees(chunks, k, j).w;
            && (m.Guarded? ==> c == s)
            && (m.Overwriting? && Forgotten(chunks, k, j) ==> c == 0 && !IsNone(s))
            && (m.Overwriting? && !Forgotten(chunks, k, j) && !chunks[k][j].skip ==> Alike(c, s))
  {
    var before, x := chunks[..k], chunks[k][j];
    var within := chunks[k][..j];
    assert chunks[k] in chunks;
    forall y | y in within ensures y in chunks[k] {}
    forall c | c in before ensures c in chunks {}
    CarriedWrite(m, before, x.addr);
    LastWriteSplit(Flatten(before), within, x.addr);
    LastWriteIsSeen(Flatten(before) + within, x.addr);
    LocalWriteKnown(within, x.addr);
    LocalLastWrite(within, x.addr);
    if !Writes(within, x.addr) {
      EntriesAreDeferred(within);
      WriteUnchanged(At(Carried(m, before), x.addr), Entries(within), x.addr);
    }
  }

  // ----- Chunk independence -------------------------------------------------------

  function RawAndInit(deps: set<Dependency>): set<Dependency> {
    set d | d in deps && (d.depType == RAW || d.depType == INIT)
  }

  lemma AlikeReports(c: Cell, c': Cell, x: AccessInfo, d: Dependency)
    requires Alike(c.w, c'.w) || x.skip
    requires d.depType == RAW || d.depType == INIT
    ensures d in Report(c, x) <==> d in Report(c', x)
  {
  }

  lemma {:induction false} AllDeferredUnwritten(chunk: Chunk, a: Addr)
    requires Identified(chunk) && !Writes(chunk, a)
    ensures !Writes(AllDeferred(chunk), a)
  {
    if chunk == [] {
    } else {
      var before, x := chunk[..|chunk| - 1], chunk[|chunk| - 1];
      assert chunk == before + [x];
      assert x in chunk && !Writes(before, a);
      AllDeferredUnwritten(before, a);
    }
  }

  lemma ReportsAppend(s: ShadowMap, t: seq<AccessInfo>, x: AccessInfo)
    ensures Reports(s, t + [x]) == Reports(s, t) + Report(CellAfter(At(s, x.addr), t, x.addr), x)
  {
    assert (t + [x])[..|t|] == t;
  }

  /** Deduplication is invisible to RAW and INIT, wherever in the chunk it is given up. */
  lemma {:induction false} DeduplicationIsInvisible(s: ShadowMap, chunk: Chunk)
    requires Identified(chunk)
    ensures RawAndInit(Reports(s, Entries(chunk))) == RawAndInit(Reports(s, AllDeferred(chunk)))
  {
    if chunk == [] {
    } else {
      var before, x := chunk[..|chunk| - 1], chunk[|chunk| - 1];
      assert chunk == before + [x];
      forall y | y in before ensures y in chunk {}
      DeduplicationIsInvisible(s, before);
      EntriesGrow(before, x);
      LocalWriteKnown(before, x.addr);
      if IsEntryCondition(before, x) {
        EntriesAreDeferred(before);
        AllDeferredUnwritten(before, x.addr);
        DeferredStep(s, Entries(before), AllDeferred(before), x);
        if Entries(chunk) == Entries(before) {
          DroppedReportsNothingNew(s, before, x);
        }
      }
    }
  }

  lemma RawAndInitUnion(a: set<Dependency>, b: set<Dependency>)
    ensures RawAndInit(a + b) == RawAndInit(a) + RawAndInit(b)
  {}

  lemma SameWriteSameRawAndInit(c: Cell, c': Cell, x: AccessInfo)
    requires c.w == c'.w
    ensures RawAndInit(Report(c, x)) == RawAndInit(Report(c', x))
  {}

  /** Where neither list writes its address, an access reports the same RAW and INIT after both. */
  lemma DeferredStep(s: ShadowMap, e: seq<AccessInfo>, all: seq<AccessInfo>, x: AccessInfo)
    requires !Writes(e, x.addr) && !Writes(all, x.addr)
    requires RawAndInit(Reports(s, e)) == RawAndInit(Reports(s, all))
    ensures RawAndInit(Reports(s, all + [x]))
         == RawAndInit(Reports(s, e)) + RawAndInit(Report(CellAfter(At(s, x.addr), e, x.addr), x))
         == RawAndInit(Reports(s, e + [x]))
  {
    WriteUnchanged(At(s, x.addr), e, x.addr);
    WriteUnchanged(At(s, x.addr), all, x.addr);
    ReportsAppend(s, e, x);
    ReportsAppend(s, all, x);
    var c, c' := CellAfter(At(s, x.addr), e, x.addr), CellAfter(At(s, x.addr), all, x.addr);
    SameWriteSameRawAndInit(c, c', x);
    RawAndInitUnion(Reports(s, e), Report(c, x));
    RawAndInitUnion(Reports(s, all), Report(c', x));
  }

  lemma AgreeWhereNothingForgotten(m: Merge, chunks: seq<Chunk>, d: Dependency)
    requires AllIdentified(chunks)
    requires m.Guarded? || NothingForgotten(chunks)
    requires d.depType == RAW || d.depType == INIT
    ensures d in ChunkedReports(m, chunks) <==> d in Reports(map[], Flatten(chunks))
  {
    ChunkedByAccess(m, chunks, d);
    SequentialByAccess(chunks, d);
    forall k, j
      ensures ChunkedReportsAt(m, chunks, k, j, d) <==> SequentialReportsAt(chunks, k, j, d)
    {
      if Within(chunks, k, j) {
        WriteSeen(m, chunks, k, j);
        AlikeReports(ChunkSees(m, chunks, k, j), SequentialSees(chunks, k, j), chunks[k][j], d);
      }
    }
  }

  /** The runtime's merge: however the trace is cut, the RAW and INIT dependencies are those of
      the sequential run if no access asks for a write that was lost. */
  lemma SameRawAndInit(chunks: seq<Chunk>)
    requires AllIdentified(chunks) && NothingForgotten(chunks)
    ensures RawAndInit(ChunkedReports(Overwriting, chunks)) == RawAndInit(Reports(map[], Flatten(chunks)))
  {
    forall d: Dependency | d.depType == RAW || d.depType == INIT
      ensures d in ChunkedReports(Overwriting, chunks) <==> d in Reports(map[], Flatten(chunks))
    {
      AgreeWhereNothingForgotten(Overwriting, chunks, d);
    }
  }

  /** With a merge that keeps a carried write the chunk cannot replace, always. */
  lemma GuardedSameRawAndInit(chunks: seq<Chunk>)
    requires AllIdentified(chunks)
    ensures RawAndInit(ChunkedReports(Guarded, chunks)) == RawAndInit(Reports(map[], Flatten(chunks)))
  {
    forall d: Dependency | d.depType == RAW || d.depType == INIT
      ensures d in ChunkedReports(Guarded, chunks) <==> d in Reports(map[], Flatten(chunks))
    {
      AgreeWhereNothingForgotten(Guarded, chunks, d);
    }
  }

  // ----- Exactly when -------------------------------------------------------------

  /** The LID of the latest write that comes before access `j` of chunk `k` in the whole run. */
  function WrittenBefore(chunks: seq<Chunk>, k: int, j: int): Lid
    requires Within(chunks, k, j)
  {
    LastWriteOf(Flatten(chunks[..k]) + chunks[k][..j], chunks[k][j].addr)
  }

  /** Access `j'` of chunk `k'` has the LID of a forgotten one. It covers up for a forgotten read
      by reading the same write without forgetting it, and for a forgotten write by being a
      first write. */
  ghost predicate CoversUp(chunks: seq<Chunk>, k: int, j: int, k': int, j': int)
    requires Within(chunks, k, j)
  {
    Within(chunks, k', j') &&
    var x, y := chunks[k][j], chunks[k'][j'];
    y.lid == x.lid && y.isRead == x.isRead && !y.skip &&
    if x.isRead then !Forgotten(chunks, k', j') && WrittenBefore(chunks, k', j') == WrittenBefore(chunks, k, j)
    else IsNone(WrittenBefore(chunks, k', j'))
  }

  ghost predicate CoveredUp(chunks: seq<Chunk>, k: int, j: int)
    requires Within(chunks, k, j)
  {
    exists k', j' :: CoversUp(chunks, k, j, k', j')
  }

  ghost predicate AllCoveredUp(chunks: seq<Chunk>) {
    forall k, j :: Within(chunks, k, j) && Forgotten(chunks, k, j) ==> CoveredUp(chunks, k, j)
  }

  /** The RAW that a forgotten read loses, the INIT that is reported for a forgotten write. */
  function Witness(chunks: seq<Chunk>, k: int, j: int): Dependency
    requires Within(chunks, k, j)
  {
    var x := chunks[k][j];
    if x.isRead then Dependency(x.lid, RAW, WrittenBefore(chunks, k, j)) else Dependency(x.lid, INIT, 0)
  }

  lemma SequentialSeesWritten(chunks: seq<Chunk>, k: int, j: int)
    requires Within(chunks, k, j)
    ensures SequentialSees(chunks, k, j).w == WrittenBefore(chunks, k, j)
  {
    LastWriteIsSeen(Flatten(chunks[..k]) + chunks[k][..j], chunks[k][j].addr);
  }

  /** Of the two runs, the one that gets a forgotten access wrong has its dependency only from
      an access that covers up for it. */
  lemma ForgottenAt(chunks: seq<Chunk>, k: int, j: int, k': int, j': int)
    requires AllIdentified(chunks) && Within(chunks, k, j) && Forgotten(chunks, k, j)
    ensures var d := Witness(chunks, k, j);
            if chunks[k][j].isRead
            then SequentialReportsAt(chunks, k, j, d) && (ChunkedReportsAt(Overwriting, chunks, k', j', d) <==> CoversUp(chunks, k, j, k', j'))
            else ChunkedReportsAt(Overwriting, chunks, k, j, d) && (SequentialReportsAt(chunks, k', j', d) <==> CoversUp(chunks, k, j, k', j'))
  {
    WriteSeen(Overwriting, chunks, k, j);
    SequentialSeesWritten(chunks, k, j);
    if Within(chunks, k', j') {
      WriteSeen(Overwriting, chunks, k', j');
      SequentialSeesWritten(chunks, k', j');
    }
  }

  lemma ForgottenShows(chunks: seq<Chunk>, k: int, j: int)
    requires AllIdentified(chunks) && Within(chunks, k, j) && Forgotten(chunks, k, j)
    ensures var d, chunked, sequential := Witness(chunks, k, j), ChunkedReports(Overwriting, chunks), Reports(map[], Flatten(chunks));
            if chunks[k][j].isRead then d in sequential && (d in chunked <==> CoveredUp(chunks, k, j))
            else d in chunked && (d in sequential <==> CoveredUp(chunks, k, j))
  {
    var d := Witness(chunks, k, j);
    ChunkedByAccess(Overwriting, chunks, d);
    SequentialByAccess(chunks, d);
    forall k', j' { ForgottenAt(chunks, k, j, k', j'); }
    ForgottenAt(chunks, k, j, k, j);
  }

  /** Only the witness of a forgotten access can be in one run and not in the other. */
  lemma DifferenceIsForgotten(chunks: seq<Chunk>, k: int, j: int, d: Dependency)
    requires AllIdentified(chunks) && Within(chunks, k, j)
    requires d.depType == RAW || d.depType == INIT
    requires ChunkedReportsAt(Overwriting, chunks, k, j, d) != SequentialReportsAt(chunks, k, j, d)
    ensures Forgotten(chunks, k, j) && d == Witness(chunks, k, j)
    ensures chunks[k][j].isRead <==> SequentialReportsAt(chunks, k, j, d)
  {
    WriteSeen(Overwriting, chunks, k, j);
    SequentialSeesWritten(chunks, k, j);
    if !Forgotten(chunks, k, j) {
      AlikeReports(ChunkSees(Overwriting, chunks, k, j), SequentialSees(chunks, k, j), chunks[k][j], d);
    }
  }

  lemma AllCoveredUpAgree(chunks: seq<Chunk>, d: Dependency)
    requires AllIdentified(chunks) && AllCoveredUp(chunks)
    requires d.depType == RAW || d.depType == INIT
    ensures d in ChunkedReports(Overwriting, chunks) <==> d in Reports(map[], Flatten(chunks))
  {
    ChunkedByAccess(Overwriting, chunks, d);
    SequentialByAccess(chunks, d);
    if k, j :| ChunkedReportsAt(Overwriting, chunks, k, j, d) && !SequentialReportsAt(chunks, k, j, d) {
      DifferenceIsForgotten(chunks, k, j, d);
      ForgottenShows(chunks, k, j);
    }
    if k, j :| SequentialReportsAt(chunks, k, j, d) && !ChunkedReportsAt(Overwriting, chunks, k, j, d) {
      DifferenceIsForgotten(chunks, k, j, d);
      ForgottenShows(chunks, k, j);
    }
  }

  /** The exact condition, for every trace and every cut: the two runs agree on RAW and INIT if
      and only if every forgotten access is covered up by another one of its LID. */
  lemma SameRawAndInitExactly(chunks: seq<Chunk>)
    requires AllIdentified(chunks)
    ensures RawAndInit(ChunkedReports(Overwriting, chunks)) == RawAndInit(Reports(map[], Flatten(chunks)))
       <==> AllCoveredUp(chunks)
  {
    var chunked, sequential := ChunkedReports(Overwriting, chunks), Reports(map[], Flatten(chunks));
    if AllCoveredUp(chunks) {
      forall d: Dependency | d.depType == RAW || d.depType == INIT
        ensures d in chunked <==> d in sequential
      {
        AllCoveredUpAgree(chunks, d);
      }
    } else {
      var k, j :| Within(chunks, k, j) && Forgotten(chunks, k, j) && !CoveredUp(chunks, k, j);
      ForgottenShows(chunks, k, j);
      var d := Witness(chunks, k, j);
      assert d in RawAndInit(chunked) <==> d !in RawAndInit(sequential);
    }
  }

  /** Three accesses in three chunks suffice: the middle chunk only reads the address. */
  lemma ReadOnlyChunkLosesTheWrite(a: Addr)
    ensures var chunks := [[AccessInfo(false, false, 5, a)], [AccessInfo(true, false, 6, a)], [AccessInfo(true, false, 7, a)]];
            && Dependency(7, RAW, 5) in Reports(map[], Flatten(chunks))
            && Dependency(7, RAW, 5) !in ChunkedReports(Overwriting, chunks)
            && Dependency(7, RAW, 5) in ChunkedReports(Guarded, chunks)
  {
    var w, r, r' := AccessInfo(false, false, 5, a), AccessInfo(true, false, 6, a), AccessInfo(true, false, 7, a);
    var chunks := [[w], [r], [r']];
    assert chunks[2][0] == r' && chunks[2][..0] == [];
    assert chunks[..2] == [[w], [r]] && [[w], [r]][..1] == [[w]] && [[w]][..0] == [];
    TwoChunks(w, r);
    SequentialSeesWritten(chunks, 2, 0);
    forall k, j ensures !CoversUp(chunks, 2, 0, k, j) {
      assert Within(chunks, k, j) && chunks[k][j].lid == 7 ==> k == 2 && j == 0;
    }
    ForgottenShows(chunks, 2, 0);
    AgreeWhereNothingForgotten(Guarded, chunks, Dependency(7, RAW, 5));
  }

  lemma TwoChunks(w: AccessInfo, r: AccessInfo)
    requires !w.isRead && r.isRead && w.addr == r.addr && w.lid >= 2
    ensures Flatten([[w], [r]]) == [w, r]
    ensures Lost([[w], [r]], w.addr)
    ensures CellAfter(EMPTY, Flatten([[w], [r]]) + [], w.addr).w == w.lid
  {
    assert [[w], [r]][..1] == [[w]] && [[w]][..0] == [];
    assert Flatten([[w]]) == [w];
    assert LastWriteOf([w], w.addr) == w.lid;
    assert r in [r];
    var flat := [w, r];
    assert Flatten([[w], [r]]) + [] == flat;
    assert flat[..1] == [w];
    assert LastWriteOf(flat, w.addr) == LastWriteOf(flat[..1], w.addr);
    LastWriteIsSeen(flat, w.addr);
  }
}
