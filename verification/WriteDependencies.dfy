/** WAR and WAW are not chunk-independent: a chunk's first write of an address does not close the
    read before it, dropped repeats change which read is the latest, and a chunk that has only
    skipped writes knows nothing of the read before it. Exactly when this shows, and what the
    chunked run guarantees in any case. */
module WriteDependencies {
  import opened Accesses
  import opened SequentialAnalysis
  import opened Chunks
  import opened ChunkIndependence
  import opened OpenReads

  function WarAndWaw(deps: set<Dependency>): set<Dependency> {
    set d | d in deps && (d.depType == WAR || d.depType == WAW)
  }

  /** A write depends on the open read, or else on the latest write. */
  function WarOrWaw(x: AccessInfo, r: Lid, w: Lid): set<Dependency> {
    if x.isRead || x.skip then {}
    else if !IsNone(r) then {Dependency(x.lid, WAR, r)}
    else if !IsNone(w) then {Dependency(x.lid, WAW, w)}
    else {}
  }

  /** A write that is not marked to be skipped. */
  ghost predicate IsWrite(chunks: seq<Chunk>, k: int, j: int) {
    Within(chunks, k, j) && !chunks[k][j].isRead && !chunks[k][j].skip
  }

  // ----- Exactly when, access by access ------------------------------------------------

  /** The WAR or WAW of access `j` of chunk `k` in the sequential run. */
  function SequentialWarOrWaw(chunks: seq<Chunk>, k: int, j: int): set<Dependency>
    requires Within(chunks, k, j)
  {
    WarOrWaw(chunks[k][j], OpenBefore(chunks, k, j), WrittenBefore(chunks, k, j))
  }

  /** The same in the chunked run, where a forgotten write is none. */
  function ChunkedWarOrWaw(chunks: seq<Chunk>, k: int, j: int): set<Dependency>
    requires Within(chunks, k, j)
  {
    WarOrWaw(chunks[k][j], ChunkedOpenBefore(chunks, k, j), if Forgotten(chunks, k, j) then 0 else WrittenBefore(chunks, k, j))
  }

  /** A write whose open read differs, or that has none and asks for a forgotten write. */
  predicate Differs(chunks: seq<Chunk>, k: int, j: int)
    requires Within(chunks, k, j)
  {
    var x := chunks[k][j];
    !x.isRead && !x.skip &&
    (OpenReadDiffers(chunks, k, j) || (IsNone(OpenBefore(chunks, k, j)) && Forgotten(chunks, k, j)))
  }

  lemma SequentialReportsWarOrWaw(chunks: seq<Chunk>, k: int, j: int, d: Dependency)
    requires Within(chunks, k, j) && (d.depType == WAR || d.depType == WAW)
    ensures SequentialReportsAt(chunks, k, j, d) <==> d in SequentialWarOrWaw(chunks, k, j)
  {
    SequentialSeesOpenRead(chunks, k, j);
    SequentialSeesWritten(chunks, k, j);
  }

  lemma ChunkReportsWarOrWaw(chunks: seq<Chunk>, k: int, j: int, d: Dependency)
    requires AllIdentified(chunks) && Within(chunks, k, j) && (d.depType == WAR || d.depType == WAW)
    ensures ChunkedReportsAt(Overwriting, chunks, k, j, d) <==> d in ChunkedWarOrWaw(chunks, k, j)
  {
    ChunkSeesOpenRead(chunks, k, j);
    SequentialSeesWritten(chunks, k, j);
    WriteSeen(Overwriting, chunks, k, j);
  }

  lemma ReportsWarOrWaw(chunks: seq<Chunk>, k: int, j: int)
    requires AllIdentified(chunks) && Within(chunks, k, j)
    ensures forall d: Dependency :: d.depType == WAR || d.depType == WAW ==>
              (ChunkedReportsAt(Overwriting, chunks, k, j, d) <==> d in ChunkedWarOrWaw(chunks, k, j)) &&
              (SequentialReportsAt(chunks, k, j, d) <==> d in SequentialWarOrWaw(chunks, k, j))
  {
    forall d: Dependency | d.depType == WAR || d.depType == WAW
      ensures ChunkedReportsAt(Overwriting, chunks, k, j, d) <==> d in ChunkedWarOrWaw(chunks, k, j)
      ensures SequentialReportsAt(chunks, k, j, d) <==> d in SequentialWarOrWaw(chunks, k, j)
    {
      ChunkReportsWarOrWaw(chunks, k, j, d);
      SequentialReportsWarOrWaw(chunks, k, j, d);
    }
  }

  /** At any access of any trace, however it is cut, the two runs report the same WAR or WAW if
      and only if the access does not differ. */
  lemma SameWarOrWawExactly(chunks: seq<Chunk>, k: int, j: int)
    requires AllIdentified(chunks) && Within(chunks, k, j)
    ensures (forall d: Dependency :: d.depType == WAR || d.depType == WAW ==>
               (ChunkedReportsAt(Overwriting, chunks, k, j, d) <==> SequentialReportsAt(chunks, k, j, d)))
       <==> !Differs(chunks, k, j)
  {
    OpenReadDiffersExactly(chunks, k, j);
    ForgottenIsWritten(chunks, k, j);
    ReportsWarOrWaw(chunks, k, j);
    var x, r, r', w := chunks[k][j], OpenBefore(chunks, k, j), ChunkedOpenBefore(chunks, k, j), WrittenBefore(chunks, k, j);
    var war, war', waw := Dependency(x.lid, WAR, r), Dependency(x.lid, WAR, r'), Dependency(x.lid, WAW, w);
    assert Differs(chunks, k, j) ==>
      !(war in ChunkedWarOrWaw(chunks, k, j) <==> war in SequentialWarOrWaw(chunks, k, j)) ||
      !(war' in ChunkedWarOrWaw(chunks, k, j) <==> war' in SequentialWarOrWaw(chunks, k, j)) ||
      !(waw in ChunkedWarOrWaw(chunks, k, j) <==> waw in SequentialWarOrWaw(chunks, k, j));
  }

  lemma ForgottenIsWritten(chunks: seq<Chunk>, k: int, j: int)
    requires AllIdentified(chunks) && Within(chunks, k, j)
    ensures Forgotten(chunks, k, j) ==> !IsNone(WrittenBefore(chunks, k, j))
  {
    WriteSeen(Overwriting, chunks, k, j);
    SequentialSeesWritten(chunks, k, j);
  }

  // ----- Exactly when, for the whole run -------------------------------------------------

  /** Write `j'` of chunk `k'` has the LID of write `j` of chunk `k`, and in the sequential run
      depends on what the latter depends on in the chunked run: the same read is open, or none is
      and the latest write is the same. */
  ghost predicate SequentialCoversUp(chunks: seq<Chunk>, k: int, j: int, k': int, j': int)
    requires Within(chunks, k, j)
  {
    IsWrite(chunks, k', j') && chunks[k'][j'].lid == chunks[k][j].lid &&
    if !IsNone(ChunkedOpenBefore(chunks, k, j)) then OpenBefore(chunks, k', j') == ChunkedOpenBefore(chunks, k, j)
    else IsNone(OpenBefore(chunks, k', j')) && WrittenBefore(chunks, k', j') == WrittenBefore(chunks, k, j)
  }

  /** The other way round; a forgotten write is none. */
  ghost predicate ChunkedCoversUp(chunks: seq<Chunk>, k: int, j: int, k': int, j': int)
    requires Within(chunks, k, j)
  {
    IsWrite(chunks, k', j') && chunks[k'][j'].lid == chunks[k][j].lid &&
    if !IsNone(OpenBefore(chunks, k, j)) then ChunkedOpenBefore(chunks, k', j') == OpenBefore(chunks, k, j)
    else IsNone(ChunkedOpenBefore(chunks, k', j')) && !Forgotten(chunks, k', j') &&
         WrittenBefore(chunks, k', j') == WrittenBefore(chunks, k, j)
  }

  /** What either run makes a write depend on, if anything, is covered up in the other. */
  ghost predicate WarAndWawCoveredUp(chunks: seq<Chunk>, k: int, j: int)
    requires Within(chunks, k, j)
  {
    var w := WrittenBefore(chunks, k, j);
    && (!IsNone(ChunkedOpenBefore(chunks, k, j)) || (!Forgotten(chunks, k, j) && !IsNone(w)) ==>
          exists k', j' :: SequentialCoversUp(chunks, k, j, k', j'))
    && (!IsNone(OpenBefore(chunks, k, j)) || !IsNone(w) ==>
          exists k', j' :: ChunkedCoversUp(chunks, k, j, k', j'))
  }

  lemma SequentialCoversUpExactly(chunks: seq<Chunk>, k: int, j: int, d: Dependency, k': int, j': int)
    requires IsWrite(chunks, k, j) && d in ChunkedWarOrWaw(chunks, k, j)
    ensures SequentialCoversUp(chunks, k, j, k', j') <==> Within(chunks, k', j') && d in SequentialWarOrWaw(chunks, k', j')
  {}

  lemma ChunkedCoversUpExactly(chunks: seq<Chunk>, k: int, j: int, d: Dependency, k': int, j': int)
    requires IsWrite(chunks, k, j) && d in SequentialWarOrWaw(chunks, k, j)
    ensures ChunkedCoversUp(chunks, k, j, k', j') <==> Within(chunks, k', j') && d in ChunkedWarOrWaw(chunks, k', j')
  {}

  /** Covered up by position is reported somewhere else. */
  lemma CoveredUpIsElsewhere(chunks: seq<Chunk>, k: int, j: int)
    requires IsWrite(chunks, k, j)
    ensures WarAndWawCoveredUp(chunks, k, j) <==>
            (forall d :: d in ChunkedWarOrWaw(chunks, k, j) ==> SequentialElsewhere(chunks, d)) &&
            (forall d :: d in SequentialWarOrWaw(chunks, k, j) ==> ChunkedElsewhere(chunks, d))
  {
    CoveredUpInSequential(chunks, k, j);
    CoveredUpInChunked(chunks, k, j);
  }

  lemma CoveredUpInSequential(chunks: seq<Chunk>, k: int, j: int)
    requires IsWrite(chunks, k, j)
    ensures (!IsNone(ChunkedOpenBefore(chunks, k, j)) || (!Forgotten(chunks, k, j) && !IsNone(WrittenBefore(chunks, k, j))) ==>
               exists k', j' :: SequentialCoversUp(chunks, k, j, k', j'))
       <==> forall d :: d in ChunkedWarOrWaw(chunks, k, j) ==> SequentialElsewhere(chunks, d)
  {
    forall d | d in ChunkedWarOrWaw(chunks, k, j)
      ensures SequentialElsewhere(chunks, d) <==> exists k', j' :: SequentialCoversUp(chunks, k, j, k', j')
    {
      forall k', j'
        ensures SequentialCoversUp(chunks, k, j, k', j') <==> Within(chunks, k', j') && d in SequentialWarOrWaw(chunks, k', j')
      {
        SequentialCoversUpExactly(chunks, k, j, d, k', j');
      }
    }
    var x, r := chunks[k][j], ChunkedOpenBefore(chunks, k, j);
    var d := if !IsNone(r) then Dependency(x.lid, WAR, r) else Dependency(x.lid, WAW, WrittenBefore(chunks, k, j));
    assert ChunkedWarOrWaw(chunks, k, j) == {d} || ChunkedWarOrWaw(chunks, k, j) == {};
  }

  lemma CoveredUpInChunked(chunks: seq<Chunk>, k: int, j: int)
    requires IsWrite(chunks, k, j)
    ensures (!IsNone(OpenBefore(chunks, k, j)) || !IsNone(WrittenBefore(chunks, k, j)) ==>
               exists k', j' :: ChunkedCoversUp(chunks, k, j, k', j'))
       <==> forall d :: d in SequentialWarOrWaw(chunks, k, j) ==> ChunkedElsewhere(chunks, d)
  {
    forall d | d in SequentialWarOrWaw(chunks, k, j)
      ensures ChunkedElsewhere(chunks, d) <==> exists k', j' :: ChunkedCoversUp(chunks, k, j, k', j')
    {
      forall k', j'
        ensures ChunkedCoversUp(chunks, k, j, k', j') <==> Within(chunks, k', j') && d in ChunkedWarOrWaw(chunks, k', j')
      {
        ChunkedCoversUpExactly(chunks, k, j, d, k', j');
      }
    }
    var x, r := chunks[k][j], OpenBefore(chunks, k, j);
    var d := if !IsNone(r) then Dependency(x.lid, WAR, r) else Dependency(x.lid, WAW, WrittenBefore(chunks, k, j));
    assert SequentialWarOrWaw(chunks, k, j) == {d} || SequentialWarOrWaw(chunks, k, j) == {};
  }

  ghost predicate SequentialElsewhere(chunks: seq<Chunk>, d: Dependency) {
    exists k, j :: Within(chunks, k, j) && d in SequentialWarOrWaw(chunks, k, j)
  }

  ghost predicate ChunkedElsewhere(chunks: seq<Chunk>, d: Dependency) {
    exists k, j :: Within(chunks, k, j) && d in ChunkedWarOrWaw(chunks, k, j)
  }

  ghost predicate AllWarAndWawCoveredUp(chunks: seq<Chunk>) {
    forall k, j :: Within(chunks, k, j) && Differs(chunks, k, j) ==> WarAndWawCoveredUp(chunks, k, j)
  }

  lemma ChunkedIsElsewhere(chunks: seq<Chunk>, d: Dependency)
    requires AllIdentified(chunks) && (d.depType == WAR || d.depType == WAW)
    ensures d in ChunkedReports(Overwriting, chunks) <==> ChunkedElsewhere(chunks, d)
  {
    ChunkedByAccess(Overwriting, chunks, d);
    forall k, j | Within(chunks, k, j)
      ensures ChunkedReportsAt(Overwriting, chunks, k, j, d) <==> d in ChunkedWarOrWaw(chunks, k, j)
    {
      ChunkReportsWarOrWaw(chunks, k, j, d);
    }
  }

  lemma SequentialIsElsewhere(chunks: seq<Chunk>, d: Dependency)
    requires d.depType == WAR || d.depType == WAW
    ensures d in Reports(map[], Flatten(chunks)) <==> SequentialElsewhere(chunks, d)
  {
    SequentialByAccess(chunks, d);
    forall k, j | Within(chunks, k, j)
      ensures SequentialReportsAt(chunks, k, j, d) <==> d in SequentialWarOrWaw(chunks, k, j)
    {
      SequentialReportsWarOrWaw(chunks, k, j, d);
    }
  }

  lemma AgreeingAccessElsewhere(chunks: seq<Chunk>, k: int, j: int, d: Dependency)
    requires AllIdentified(chunks) && AllWarAndWawCoveredUp(chunks) && Within(chunks, k, j)
    requires d.depType == WAR || d.depType == WAW
    ensures d in ChunkedWarOrWaw(chunks, k, j) ==> SequentialElsewhere(chunks, d)
    ensures d in SequentialWarOrWaw(chunks, k, j) ==> ChunkedElsewhere(chunks, d)
  {
    if !Differs(chunks, k, j) {
      SameWarOrWawExactly(chunks, k, j);
      SequentialReportsWarOrWaw(chunks, k, j, d);
      ChunkReportsWarOrWaw(chunks, k, j, d);
    } else {
      CoveredUpIsElsewhere(chunks, k, j);
    }
  }

  /** Both runs report `d`, or neither does. */
  ghost predicate Agree(chunks: seq<Chunk>, d: Dependency) {
    d in ChunkedReports(Overwriting, chunks) <==> d in Reports(map[], Flatten(chunks))
  }

  lemma AgreeElsewhere(chunks: seq<Chunk>, d: Dependency)
    requires AllIdentified(chunks) && (d.depType == WAR || d.depType == WAW)
    ensures Agree(chunks, d) <==> (ChunkedElsewhere(chunks, d) <==> SequentialElsewhere(chunks, d))
  {
    ChunkedIsElsewhere(chunks, d);
    SequentialIsElsewhere(chunks, d);
  }

  lemma CoveredUpAgree(chunks: seq<Chunk>, d: Dependency)
    requires AllIdentified(chunks) && AllWarAndWawCoveredUp(chunks) && (d.depType == WAR || d.depType == WAW)
    ensures Agree(chunks, d)
  {
    AgreeElsewhere(chunks, d);
    forall k, j | Within(chunks, k, j)
      ensures d in ChunkedWarOrWaw(chunks, k, j) ==> SequentialElsewhere(chunks, d)
      ensures d in SequentialWarOrWaw(chunks, k, j) ==> ChunkedElsewhere(chunks, d)
    {
      AgreeingAccessElsewhere(chunks, k, j, d);
    }
  }

  lemma AgreeCoveredUp(chunks: seq<Chunk>, k: int, j: int)
    requires AllIdentified(chunks) && IsWrite(chunks, k, j)
    requires forall d: Dependency :: d.depType == WAR || d.depType == WAW ==> Agree(chunks, d)
    ensures WarAndWawCoveredUp(chunks, k, j)
  {
    forall d | d in ChunkedWarOrWaw(chunks, k, j) ensures SequentialElsewhere(chunks, d) {
      AgreeElsewhere(chunks, d);
    }
    forall d | d in SequentialWarOrWaw(chunks, k, j) ensures ChunkedElsewhere(chunks, d) {
      AgreeElsewhere(chunks, d);
    }
    CoveredUpIsElsewhere(chunks, k, j);
  }

  lemma AgreeAsSets(chunks: seq<Chunk>)
    ensures WarAndWaw(ChunkedReports(Overwriting, chunks)) == WarAndWaw(Reports(map[], Flatten(chunks)))
       <==> forall d: Dependency :: d.depType == WAR || d.depType == WAW ==> Agree(chunks, d)
  {
    var chunked, sequential := ChunkedReports(Overwriting, chunks), Reports(map[], Flatten(chunks));
    assert forall d: Dependency :: d.depType == WAR || d.depType == WAW ==>
      (d in WarAndWaw(chunked) <==> d in chunked) && (d in WarAndWaw(sequential) <==> d in sequential);
  }

  /** For every trace and every cut, the two runs agree on WAR and WAW if and only if everything
      reported at a differing write is covered up. */
  lemma SameWarAndWawExactly(chunks: seq<Chunk>)
    requires AllIdentified(chunks)
    ensures WarAndWaw(ChunkedReports(Overwriting, chunks)) == WarAndWaw(Reports(map[], Flatten(chunks)))
       <==> AllWarAndWawCoveredUp(chunks)
  {
    AgreeAsSets(chunks);
    if AllWarAndWawCoveredUp(chunks) {
      forall d: Dependency | d.depType == WAR || d.depType == WAW ensures Agree(chunks, d) {
        CoveredUpAgree(chunks, d);
      }
    } else if forall d: Dependency :: d.depType == WAR || d.depType == WAW ==> Agree(chunks, d) {
      forall k, j | Within(chunks, k, j) && Differs(chunks, k, j) ensures WarAndWawCoveredUp(chunks, k, j) {
        AgreeCoveredUp(chunks, k, j);
      }
    }
  }

  lemma BothKinds(a: set<Dependency>, b: set<Dependency>)
    ensures a == b <==> RawAndInit(a) == RawAndInit(b) && WarAndWaw(a) == WarAndWaw(b)
  {
    if RawAndInit(a) == RawAndInit(b) && WarAndWaw(a) == WarAndWaw(b) {
      forall d ensures d in a <==> d in b {
        assert d in a <==> d in RawAndInit(a) || d in WarAndWaw(a);
        assert d in b <==> d in RawAndInit(b) || d in WarAndWaw(b);
      }
    }
  }

  /** Cutting the trace does not show at all if and only if both kinds of difference are covered up. */
  lemma SameReportsExactly(chunks: seq<Chunk>)
    requires AllIdentified(chunks)
    ensures ChunkedReports(Overwriting, chunks) == Reports(map[], Flatten(chunks))
       <==> AllCoveredUp(chunks) && AllWarAndWawCoveredUp(chunks)
  {
    SameRawAndInitExactly(chunks);
    SameWarAndWawExactly(chunks);
    BothKinds(ChunkedReports(Overwriting, chunks), Reports(map[], Flatten(chunks)));
  }

  // ----- What holds in any case ----------------------------------------------------------

  /** No access carries one of the two LIDs that stand for none. Skip markers are allowed. */
  ghost predicate Counted(t: seq<AccessInfo>) {
    forall x :: x in t ==> x.lid >= 2
  }

  ghost predicate AllCounted(chunks: seq<Chunk>) {
    forall chunk :: chunk in chunks ==> Counted(chunk)
  }

  /** The accesses of the run before access `j` of chunk `k`. */
  function Earlier(chunks: seq<Chunk>, k: int, j: int): seq<AccessInfo>
    requires Within(chunks, k, j)
  {
    Flatten(chunks[..k]) + chunks[k][..j]
  }

  /** The latest chunk that touches `a` has only skipped writes of it, and a read is open before. */
  predicate Hidden(chunks: seq<Chunk>, a: Addr) {
    chunks != [] &&
    var before, last := chunks[..|chunks| - 1], chunks[|chunks| - 1];
    if Touches(last, a) then OnlySkipped(last, a) && !IsNone(OpenRead(0, Flatten(before), a)) else Hidden(before, a)
  }

  /** The open read of the address is hidden from the access by skipped writes of its own chunk
      or of the latest one that touches the address. */
  predicate HiddenAt(chunks: seq<Chunk>, k: int, j: int)
    requires Within(chunks, k, j)
  {
    var within, a := chunks[k][..j], chunks[k][j].addr;
    if Touches(within, a) then OnlySkipped(within, a) && !IsNone(OpenRead(0, Flatten(chunks[..k]), a))
    else Hidden(chunks[..k], a)
  }

  lemma {:induction false} LastReadCounts(t: seq<AccessInfo>, a: Addr)
    requires Counted(t)
    ensures Touches(t, a) && !Writes(t, a) ==> LastReadOf(t, a) >= 2
    ensures LastReadOf(t, a) != 0 ==> ReadOf(LastReadOf(t, a), t, a)
  {
    if t == [] {
    } else {
      var u, x := t[..|t| - 1], t[|t| - 1];
      assert t == u + [x] && x in t;
      LastReadCounts(u, a);
    }
  }

  lemma {:induction false} LastWriteCounts(t: seq<AccessInfo>, a: Addr)
    requires Counted(t) && Writes(t, a)
    ensures LastWriteOf(t, a) >= 2
  {
    var u, x := t[..|t| - 1], t[|t| - 1];
    assert t == u + [x] && x in t;
    if x.addr == a && !x.isRead {
    } else {
      LastWriteCounts(u, a);
    }
  }

  lemma {:induction false} StaleIsOpen(chunk: Chunk, a: Addr, o: Lid)
    requires Stale(chunk, a)
    ensures !IsNone(LocalOpenRead(chunk, a)) && OpenRead(o, chunk, a) == 0
  {
    var before, x := chunk[..|chunk| - 1], chunk[|chunk| - 1];
    if x.addr != a || Writes(before, a) {
      StaleIsOpen(before, a, o);
    } else {
      LocalOpenReadOfReads(before, a);
    }
  }

  /** A chunk that touches `a` takes an open read for none exactly where it has only skipped writes. */
  lemma HiddenByChunk(t: seq<AccessInfo>, chunk: Chunk, a: Addr)
    requires Touches(chunk, a)
    ensures IsNone(LocalOpenRead(chunk, a)) && !IsNone(OpenRead(0, t + chunk, a))
       <==> OnlySkipped(chunk, a) && !IsNone(OpenRead(0, t, a))
  {
    OpenReadSplit(0, t, chunk, a);
    ChunkOpenRead(t, chunk, a);
    if OnlySkipped(chunk, a) {
      OnlySkippedKeepsOpenRead(OpenRead(0, t, a), chunk, a);
    } else if Stale(chunk, a) {
      StaleIsOpen(chunk, a, OpenRead(0, t, a));
    }
  }

  lemma {:induction false} HiddenExactly(chunks: seq<Chunk>, a: Addr)
    ensures IsNone(CarriedOpenRead(chunks, a)) && !IsNone(OpenRead(0, Flatten(chunks), a)) <==> Hidden(chunks, a)
  {
    if chunks == [] {
    } else {
      var before, last := chunks[..|chunks| - 1], chunks[|chunks| - 1];
      HiddenExactly(before, a);
      if Touches(last, a) {
        HiddenByChunk(Flatten(before), last, a);
      } else {
        OpenReadSplit(0, Flatten(before), last, a);
        OpenReadOfReads(OpenRead(0, Flatten(before), a), last, a);
      }
    }
  }

  lemma EntriesCount(within: Chunk, a: Addr)
    requires Counted(within) && Touches(within, a) && !Writes(within, a)
    ensures LastReadOf(Entries(within), a) >= 2 && ReadOf(LastReadOf(Entries(within), a), within, a)
  {
    EntriesAreDeferred(within);
    LastReadCounts(Entries(within), a);
  }

  /** The chunked run takes an open read for none exactly where it is hidden. */
  lemma HiddenAtExactly(chunks: seq<Chunk>, k: int, j: int)
    requires AllCounted(chunks) && Within(chunks, k, j)
    ensures IsNone(ChunkedOpenBefore(chunks, k, j)) && !IsNone(OpenBefore(chunks, k, j)) <==> HiddenAt(chunks, k, j)
  {
    var before, within, a := chunks[..k], chunks[k][..j], chunks[k][j].addr;
    assert chunks[k] in chunks;
    forall y | y in within ensures y in chunks[k] {}
    if Writes(within, a) {
      HiddenByChunk(Flatten(before), within, a);
    } else if Touches(within, a) {
      EntriesCount(within, a);
    } else {
      HiddenExactly(before, a);
      OpenReadSplit(0, Flatten(before), within, a);
      OpenReadOfReads(OpenRead(0, Flatten(before), a), within, a);
    }
  }

  lemma {:induction false} LostLeavesRead(chunks: seq<Chunk>, a: Addr)
    requires AllCounted(chunks) && Lost(chunks, a)
    ensures CarriedOpenRead(chunks, a) >= 2
  {
    var before, last := chunks[..|chunks| - 1], chunks[|chunks| - 1];
    assert last in chunks;
    forall c | c in before ensures c in chunks {}
    if Touches(last, a) {
      LocalOpenReadOfReads(last, a);
      LastReadCounts(last, a);
    } else {
      LostLeavesRead(before, a);
    }
  }

  /** Where a write is forgotten, the read that made it so is open. */
  lemma ForgottenLeavesRead(chunks: seq<Chunk>, k: int, j: int)
    requires AllCounted(chunks) && Within(chunks, k, j) && Forgotten(chunks, k, j)
    ensures ChunkedOpenBefore(chunks, k, j) >= 2
  {
    var before, within, a := chunks[..k], chunks[k][..j], chunks[k][j].addr;
    assert chunks[k] in chunks;
    forall y | y in within ensures y in chunks[k] {}
    forall c | c in before ensures c in chunks {}
    if Touches(within, a) {
      EntriesCount(within, a);
    } else {
      LostLeavesRead(before, a);
    }
  }

  lemma {:induction false} FlattenCounted(chunks: seq<Chunk>)
    requires AllCounted(chunks)
    ensures Counted(Flatten(chunks))
  {
    if chunks == [] {
    } else {
      forall c | c in chunks[..|chunks| - 1] ensures c in chunks {}
      FlattenCounted(chunks[..|chunks| - 1]);
      assert chunks[|chunks| - 1] in chunks;
    }
  }

  lemma EarlierCounted(chunks: seq<Chunk>, k: int, j: int)
    requires AllCounted(chunks) && Within(chunks, k, j)
    ensures Counted(Earlier(chunks, k, j))
  {
    forall c | c in chunks[..k] ensures c in chunks {}
    FlattenCounted(chunks[..k]);
    assert chunks[k] in chunks;
  }

  /** At every write that has an earlier write, the chunked run reports exactly one of WAR and WAW. */
  lemma ExactlyOneOfWarAndWaw(chunks: seq<Chunk>, k: int, j: int)
    requires AllCounted(chunks) && IsWrite(chunks, k, j)
    requires Writes(Earlier(chunks, k, j), chunks[k][j].addr)
    ensures exists d :: ChunkedReportsAt(Overwriting, chunks, k, j, d) && (d.depType == WAR || d.depType == WAW)
              && forall d' :: ChunkedReportsAt(Overwriting, chunks, k, j, d') && (d'.depType == WAR || d'.depType == WAW) ==> d' == d
  {
    var x, r, w := chunks[k][j], ChunkedOpenBefore(chunks, k, j), WrittenBefore(chunks, k, j);
    EarlierCounted(chunks, k, j);
    LastWriteCounts(Earlier(chunks, k, j), x.addr);
    if Forgotten(chunks, k, j) {
      ForgottenLeavesRead(chunks, k, j);
    }
    ReportsWarOrWaw(chunks, k, j);
    var d := if IsNone(r) then Dependency(x.lid, WAW, w) else Dependency(x.lid, WAR, r);
    assert ChunkedWarOrWaw(chunks, k, j) == {d};
    assert ChunkedReportsAt(Overwriting, chunks, k, j, d);
  }

  /** A WAW of the chunked run is one of the sequential run at the same write, unless the open
      read is hidden there, and then it is not. */
  lemma ChunkedWawIsSequentialExactly(chunks: seq<Chunk>, k: int, j: int, d: Dependency)
    requires AllCounted(chunks) && ChunkedReportsAt(Overwriting, chunks, k, j, d) && d.depType == WAW
    ensures SequentialReportsAt(chunks, k, j, d) <==> !HiddenAt(chunks, k, j)
  {
    ChunkReportsWarOrWaw(chunks, k, j, d);
    SequentialReportsWarOrWaw(chunks, k, j, d);
    HiddenAtExactly(chunks, k, j);
  }

  /** Where the sequential run reports a WAR, so does the chunked run at the same write, unless
      the open read is hidden there, and then it does not. */
  lemma SequentialWarIsKeptExactly(chunks: seq<Chunk>, k: int, j: int, d: Dependency)
    requires AllCounted(chunks) && SequentialReportsAt(chunks, k, j, d) && d.depType == WAR
    ensures (exists d' :: ChunkedReportsAt(Overwriting, chunks, k, j, d') && d'.depType == WAR) <==> !HiddenAt(chunks, k, j)
  {
    ReportsWarOrWaw(chunks, k, j);
    HiddenAtExactly(chunks, k, j);
    var war := Dependency(chunks[k][j].lid, WAR, ChunkedOpenBefore(chunks, k, j));
    assert ChunkedReportsAt(Overwriting, chunks, k, j, war) <==> war in ChunkedWarOrWaw(chunks, k, j);
  }

  ghost predicate NothingHidden(chunks: seq<Chunk>) {
    forall k, j :: Within(chunks, k, j) ==> !HiddenAt(chunks, k, j)
  }

  /** So where nothing is hidden every WAW of the chunked run is one of the sequential run. */
  lemma ChunkedWawIsSequential(chunks: seq<Chunk>, d: Dependency)
    requires AllCounted(chunks) && NothingHidden(chunks)
    requires d in ChunkedReports(Overwriting, chunks) && d.depType == WAW
    ensures d in Reports(map[], Flatten(chunks))
  {
    ChunkedByAccess(Overwriting, chunks, d);
    SequentialByAccess(chunks, d);
    var k, j :| ChunkedReportsAt(Overwriting, chunks, k, j, d);
    ChunkedWawIsSequentialExactly(chunks, k, j, d);
  }

  ghost predicate Unmarked(chunks: seq<Chunk>) {
    forall chunk, x :: chunk in chunks && x in chunk ==> !x.skip
  }

  lemma {:induction false} UnmarkedHidesNothing(chunks: seq<Chunk>, a: Addr)
    requires Unmarked(chunks)
    ensures !Hidden(chunks, a)
  {
    if chunks == [] {
    } else {
      var before, last := chunks[..|chunks| - 1], chunks[|chunks| - 1];
      assert last in chunks;
      forall c | c in before ensures c in chunks {}
      UnmarkedHidesNothing(before, a);
    }
  }

  /** A trace without skip markers hides nothing. */
  lemma UnmarkedNothingHidden(chunks: seq<Chunk>)
    requires Unmarked(chunks)
    ensures NothingHidden(chunks)
  {
    forall k, j | Within(chunks, k, j) ensures !HiddenAt(chunks, k, j) {
      assert chunks[k] in chunks;
      forall y | y in chunks[k][..j] ensures y in chunks[k] {}
      forall c | c in chunks[..k] ensures c in chunks {}
      UnmarkedHidesNothing(chunks[..k], chunks[k][j].addr);
    }
  }

  /** So without skip markers, every WAW of the chunked run is one of the sequential run, and
      every write with a WAR in the sequential run has one in the chunked run. */
  lemma UnmarkedWarAndWaw(chunks: seq<Chunk>)
    requires AllCounted(chunks) && Unmarked(chunks)
    ensures forall d :: d in ChunkedReports(Overwriting, chunks) && d.depType == WAW ==> d in Reports(map[], Flatten(chunks))
    ensures forall k, j, d :: SequentialReportsAt(chunks, k, j, d) && d.depType == WAR ==>
              exists d' :: ChunkedReportsAt(Overwriting, chunks, k, j, d') && d'.depType == WAR
  {
    UnmarkedNothingHidden(chunks);
    forall d | d in ChunkedReports(Overwriting, chunks) && d.depType == WAW
      ensures d in Reports(map[], Flatten(chunks))
    {
      ChunkedWawIsSequential(chunks, d);
    }
    forall k, j, d | SequentialReportsAt(chunks, k, j, d) && d.depType == WAR
      ensures exists d' :: ChunkedReportsAt(Overwriting, chunks, k, j, d') && d'.depType == WAR
    {
      SequentialWarIsKeptExactly(chunks, k, j, d);
    }
  }

  // ----- Where the source of a WAR comes from ---------------------------------------------

  /** The LID of an access of `t` that reads `a`. */
  predicate ReadOf(l: Lid, t: seq<AccessInfo>, a: Addr) {
    exists x :: x in t && x.addr == a && x.isRead && x.lid == l
  }

  lemma {:induction false} LastReadIsRead(t: seq<AccessInfo>, a: Addr)
    ensures LastReadOf(t, a) != 0 ==> ReadOf(LastReadOf(t, a), t, a)
  {
    if t == [] {
    } else {
      var u, x := t[..|t| - 1], t[|t| - 1];
      assert t == u + [x];
      LastReadIsRead(u, a);
      assert x in t;
    }
  }

  lemma {:induction false} LocalOpenReadIsRead(chunk: Chunk, a: Addr)
    ensures LocalOpenRead(chunk, a) != 0 ==> ReadOf(LocalOpenRead(chunk, a), chunk, a)
  {
    if chunk == [] {
    } else {
      var u, x := chunk[..|chunk| - 1], chunk[|chunk| - 1];
      assert chunk == u + [x];
      LocalOpenReadIsRead(u, a);
      assert x in chunk;
    }
  }

  lemma {:induction false} CarriedOpenReadIsRead(chunks: seq<Chunk>, a: Addr)
    ensures CarriedOpenRead(chunks, a) != 0 ==> ReadOf(CarriedOpenRead(chunks, a), Flatten(chunks), a)
  {
    if chunks == [] {
    } else {
      var before, last := chunks[..|chunks| - 1], chunks[|chunks| - 1];
      CarriedOpenReadIsRead(before, a);
      LocalOpenReadIsRead(last, a);
      assert forall y :: y in Flatten(chunks) <==> y in Flatten(before) || y in last;
    }
  }

  lemma OpenReadIsRead(chunks: seq<Chunk>, k: int, j: int)
    requires AllIdentified(chunks) && Within(chunks, k, j)
    ensures var r := ChunkedOpenBefore(chunks, k, j); r != 0 ==> ReadOf(r, Earlier(chunks, k, j), chunks[k][j].addr)
  {
    var before, within, a := chunks[..k], chunks[k][..j], chunks[k][j].addr;
    assert chunks[k] in chunks;
    forall y | y in within ensures y in chunks[k] {}
    EntriesAreDeferred(within);
    LocalOpenReadIsRead(within, a);
    LastReadIsRead(Entries(within), a);
    CarriedOpenReadIsRead(before, a);
    assert forall y :: y in Earlier(chunks, k, j) <==> y in Flatten(before) || y in within;
  }

  /** The source of every WAR of the chunked run is an earlier read of the written address. */
  lemma WarSourceIsEarlierRead(chunks: seq<Chunk>, d: Dependency)
    requires AllIdentified(chunks)
    requires d in ChunkedReports(Overwriting, chunks) && d.depType == WAR
    ensures exists k, j :: IsWrite(chunks, k, j) && chunks[k][j].lid == d.sink
              && ReadOf(d.source, Earlier(chunks, k, j), chunks[k][j].addr)
  {
    ChunkedByAccess(Overwriting, chunks, d);
    var k, j :| ChunkedReportsAt(Overwriting, chunks, k, j, d);
    ChunkReportsWarOrWaw(chunks, k, j, d);
    OpenReadIsRead(chunks, k, j);
    assert IsWrite(chunks, k, j);
  }

  // ----- Inputs that show the differences --------------------------------------------------

  /** A read and two writes in one chunk: the second write is reported against the read that the
      first one should have closed. */
  lemma DeferredWriteKeepsTheRead(a: Addr)
    ensures var chunks := [[AccessInfo(true, false, 5, a), AccessInfo(false, false, 6, a), AccessInfo(false, false, 7, a)]];
            && SequentialWarOrWaw(chunks, 0, 2) == {Dependency(7, WAW, 6)}
            && ChunkedWarOrWaw(chunks, 0, 2) == {Dependency(7, WAR, 5)}
            && Differs(chunks, 0, 2)
  {
    var r, w, v := AccessInfo(true, false, 5, a), AccessInfo(false, false, 6, a), AccessInfo(false, false, 7, a);
    var chunks := [[r, w, v]];
    var within := chunks[0][..2];
    assert chunks[..0] == [] && within == [r, w] && within[..1] == [r] && [r][..0] == [];
    assert Flatten([]) + within == within;
    assert w in within && !Writes([r], a);
    assert LocalOpenRead([r], a) == 5 && LocalOpenRead(within, a) == LocalOpenRead(within[..1], a);
    assert Writes(chunks[0][..2], a);
  }

  /** Three reads, of which the last repeats the first, and a write in one chunk: the repetition is
      dropped, and the write is reported against the read before it. */
  lemma DroppedRepeatIsNotLatest(a: Addr)
    ensures var chunks := [[AccessInfo(true, false, 5, a), AccessInfo(true, false, 6, a), AccessInfo(true, false, 5, a),
                            AccessInfo(false, false, 7, a)]];
            && SequentialWarOrWaw(chunks, 0, 3) == {Dependency(7, WAR, 5)}
            && ChunkedWarOrWaw(chunks, 0, 3) == {Dependency(7, WAR, 6)}
            && Differs(chunks, 0, 3)
  {
    var r, q, w := AccessInfo(true, false, 5, a), AccessInfo(true, false, 6, a), AccessInfo(false, false, 7, a);
    var chunks := [[r, q, r, w]];
    var within := chunks[0][..3];
    assert chunks[..0] == [] && within == [r, q, r] && within[..2] == [r, q] && within[..2][..1] == [r] && [r][..0] == [];
    assert Flatten([]) + within == within;
    assert r in within && !Writes(within, a);
    assert OpenRead(0, within, a) == 5 && LastReadOf(within, a) == 5;
    EntriesOfRepeat(r, q, a);
    assert chunks[0][..3] == within;
  }

  lemma EntriesOfRepeat(r: AccessInfo, q: AccessInfo, a: Addr)
    requires r.isRead && q.isRead && r.addr == a == q.addr && r != q
    ensures Entries([r, q, r]) == [r, q] && LastReadOf([r, q], a) == q.lid
  {
    var one, two, three := [r], [r, q], [r, q, r];
    assert one[..0] == [] && two[..1] == one && three[..2] == two;
    assert LocalCell(one, a).w == 0 && LocalCell(two, a).w == 0;
    assert Deferred(one) == Deferral([r], {r}, true, 1, 0);
    assert Deferred(two) == Deferral([r, q], {r, q}, true, 2, 0);
  }

  /** A read in one chunk, and a skipped write and a write in the next: the write is reported
      against the skipped one, the read is hidden. */
  lemma SkippedWriteHidesTheRead(a: Addr)
    ensures var chunks := [[AccessInfo(true, false, 5, a)], [AccessInfo(false, true, 6, a), AccessInfo(false, false, 7, a)]];
            && SequentialWarOrWaw(chunks, 1, 1) == {Dependency(7, WAR, 5)}
            && ChunkedWarOrWaw(chunks, 1, 1) == {Dependency(7, WAW, 6)}
            && HiddenAt(chunks, 1, 1)
  {
    var r, s, w := AccessInfo(true, false, 5, a), AccessInfo(false, true, 6, a), AccessInfo(false, false, 7, a);
    var chunks := [[r], [s, w]];
    var within := chunks[1][..1];
    assert chunks[..1] == [[r]] && [[r]][..0] == [] && within == [s] && [s][..0] == [] && [r][..0] == [];
    assert Flatten([[r]]) == [r] && [r] + [s] == [r, s] && [r, s][..1] == [r];
    assert s in within && OnlySkipped(within, a);
    assert Writes(chunks[1][..1], a) && LocalOpenRead(within, a) == LocalOpenRead(within[..0], a);
    assert LastWriteOf([r, s], a) == 6;
    assert OpenRead(0, [r], a) == 5;
    assert OpenRead(0, [r, s], a) == OpenRead(0, [r, s][..1], a);
  }
}
