/** WAR and WAW depend on the read that is open at a write. Which one is that in the chunked
    run, and exactly when does it show? */
module OpenReads {
  import opened Accesses
  import opened SequentialAnalysis
  import opened Chunks
  import opened ChunkIndependence

  // ----- Open reads of a trace -----------------------------------------------------

  /** The LID of the latest read of `a`, 0 if there is none. */
  function LastReadOf(t: seq<AccessInfo>, a: Addr): Lid {
    if t == [] then 0
    else
      var x := t[|t| - 1];
      if x.addr == a && x.isRead then x.lid else LastReadOf(t[..|t| - 1], a)
  }

  /** The LID of the read of `a` that is open after `t`, where `o` was open before: the latest
      one, unless a write that is not marked to be skipped follows it. */
  function OpenRead(o: Lid, t: seq<AccessInfo>, a: Addr): Lid {
    if t == [] then o
    else
      var before, x := t[..|t| - 1], t[|t| - 1];
      if x.addr != a then OpenRead(o, before, a)
      else if x.isRead then x.lid
      else if x.skip then OpenRead(o, before, a)
      else 0
  }

  /** The same as a chunk's own shadow has it: the chunk's first write of `a` closes nothing. */
  function LocalOpenRead(chunk: Chunk, a: Addr): Lid {
    if chunk == [] then 0
    else
      var before, x := chunk[..|chunk| - 1], chunk[|chunk| - 1];
      if x.addr != a then LocalOpenRead(before, a)
      else if x.isRead then x.lid
      else if x.skip || !Writes(before, a) then LocalOpenRead(before, a)
      else 0
  }

  lemma {:induction false} OpenReadSplit(o: Lid, t: seq<AccessInfo>, u: seq<AccessInfo>, a: Addr)
    ensures OpenRead(o, t + u, a) == OpenRead(OpenRead(o, t, a), u, a)
  {
    if u == [] {
      assert t + u == t;
    } else {
      assert (t + u)[..|t + u| - 1] == t + u[..|u| - 1];
      OpenReadSplit(o, t, u[..|u| - 1], a);
    }
  }

  /** The sequential analysis keeps the open read, up to the two values that stand for none. */
  lemma {:induction false} CellKeepsOpenRead(c: Cell, o: Lid, t: seq<AccessInfo>, a: Addr)
    requires Alike(c.r, o)
    ensures Alike(CellAfter(c, t, a).r, OpenRead(o, t, a))
  {
    if t == [] {
    } else {
      CellKeepsOpenRead(c, o, t[..|t| - 1], a);
    }
  }

  lemma {:induction false} OpenReadOfReads(o: Lid, t: seq<AccessInfo>, a: Addr)
    requires !Writes(t, a)
    ensures OpenRead(o, t, a) == if Touches(t, a) then LastReadOf(t, a) else o
  {
    if t == [] {
    } else {
      var u, x := t[..|t| - 1], t[|t| - 1];
      assert t == u + [x];
      assert x in t && !Writes(u, a);
      OpenReadOfReads(o, u, a);
    }
  }

  // ----- Within a chunk -------------------------------------------------------------

  lemma {:induction false} LocalCellKeepsOpenRead(chunk: Chunk, a: Addr)
    requires Identified(chunk)
    ensures Alike(LocalCell(chunk, a).r, LocalOpenRead(chunk, a))
  {
    if chunk == [] {
    } else {
      var before := chunk[..|chunk| - 1];
      assert Identified(before);
      LocalCellKeepsOpenRead(before, a);
      LocalWriteKnown(before, a);
    }
  }

  /** The latest accesses of the chunk to `a` are its first write, which counts, and then only
      skipped writes; and a read that counts comes before. That read should be closed. */
  predicate Stale(chunk: Chunk, a: Addr) {
    chunk != [] &&
    var before, x := chunk[..|chunk| - 1], chunk[|chunk| - 1];
    if x.addr != a then Stale(before, a)
    else if x.isRead then false
    else if Writes(before, a) then x.skip && Stale(before, a)
    else !x.skip && !IsNone(LastReadOf(before, a))
  }

  /** The chunk does nothing to `a` but write it, marked to be skipped. */
  predicate OnlySkipped(chunk: Chunk, a: Addr) {
    Writes(chunk, a) && forall x :: x in chunk && x.addr == a ==> !x.isRead && x.skip
  }

  /** The chunk has another read open than the run: a stale one, or none where an earlier one is. */
  predicate Misses(before: seq<AccessInfo>, chunk: Chunk, a: Addr) {
    Stale(chunk, a) || (OnlySkipped(chunk, a) && !IsNone(OpenRead(0, before, a)))
  }

  lemma {:induction false} LocalOpenReadOfReads(chunk: Chunk, a: Addr)
    requires !Writes(chunk, a)
    ensures LocalOpenRead(chunk, a) == LastReadOf(chunk, a)
    ensures !Stale(chunk, a)
  {
    if chunk == [] {
    } else {
      var before, x := chunk[..|chunk| - 1], chunk[|chunk| - 1];
      assert chunk == before + [x];
      assert x in chunk && !Writes(before, a);
      LocalOpenReadOfReads(before, a);
    }
  }

  lemma {:induction false} OnlySkippedKeepsOpenRead(o: Lid, chunk: Chunk, a: Addr)
    requires forall x :: x in chunk && x.addr == a ==> !x.isRead && x.skip
    ensures LocalOpenRead(chunk, a) == 0 && OpenRead(o, chunk, a) == o && LastReadOf(chunk, a) == 0
    ensures !Stale(chunk, a)
  {
    if chunk == [] {
    } else {
      var before, x := chunk[..|chunk| - 1], chunk[|chunk| - 1];
      assert chunk == before + [x];
      assert x in chunk;
      OnlySkippedKeepsOpenRead(o, before, a);
    }
  }

  lemma {:induction false} NoReadsNoneOpen(chunk: Chunk, a: Addr)
    requires forall x :: x in chunk && x.addr == a ==> !x.isRead
    ensures LocalOpenRead(chunk, a) == 0 == LastReadOf(chunk, a)
  {
    if chunk == [] {
    } else {
      var before, x := chunk[..|chunk| - 1], chunk[|chunk| - 1];
      assert chunk == before + [x];
      assert x in chunk;
      NoReadsNoneOpen(before, a);
    }
  }

  /** In a chunk that does more to `a` than skipped writes, what was open before plays no part. */
  lemma {:induction false} LocalDiffers(o: Lid, chunk: Chunk, a: Addr)
    requires Touches(chunk, a) && !OnlySkipped(chunk, a)
    ensures Alike(LocalOpenRead(chunk, a), OpenRead(o, chunk, a)) <==> !Stale(chunk, a)
  {
    var before, x := chunk[..|chunk| - 1], chunk[|chunk| - 1];
    assert chunk == before + [x];
    assert x in chunk;
    if x.addr != a {
      assert Touches(before, a) && !OnlySkipped(before, a);
      LocalDiffers(o, before, a);
    } else if x.isRead {
    } else if !Writes(before, a) {
      LocalOpenReadOfReads(before, a);
      OpenReadOfReads(o, before, a);
      if x.skip {
        assert Touches(before, a);
      }
    } else if x.skip {
      assert !OnlySkipped(before, a);
      LocalDiffers(o, before, a);
    }
  }

  /** What the chunk has open after it has touched `a`, against the run that comes to it after `t`. */
  lemma ChunkOpenRead(t: seq<AccessInfo>, chunk: Chunk, a: Addr)
    requires Touches(chunk, a)
    ensures Alike(LocalOpenRead(chunk, a), OpenRead(0, t + chunk, a)) <==> !Misses(t, chunk, a)
  {
    OpenReadSplit(0, t, chunk, a);
    var o := OpenRead(0, t, a);
    if OnlySkipped(chunk, a) {
      OnlySkippedKeepsOpenRead(o, chunk, a);
    } else {
      LocalDiffers(o, chunk, a);
    }
  }

  /** Position `i` holds the chunk's first write of `a`. */
  ghost predicate FirstWriteAt(chunk: Chunk, a: Addr, i: int) {
    0 <= i < |chunk| && chunk[i].addr == a && !chunk[i].isRead && !Writes(chunk[..i], a)
  }

  ghost predicate StaleAt(chunk: Chunk, a: Addr, i: int) {
    FirstWriteAt(chunk, a, i) && !chunk[i].skip && !IsNone(LastReadOf(chunk[..i], a)) &&
    forall k :: i < k < |chunk| && chunk[k].addr == a ==> !chunk[k].isRead && chunk[k].skip
  }

  /** The same by position. */
  lemma {:induction false} StaleMeans(chunk: Chunk, a: Addr)
    ensures Stale(chunk, a) <==> exists i :: StaleAt(chunk, a, i)
  {
    if chunk == [] {
    } else {
      var n := |chunk| - 1;
      var before, x := chunk[..n], chunk[n];
      StaleMeans(before, a);
      forall i | 0 <= i < n ensures chunk[..i] == before[..i] {}
      if x.addr != a || (Writes(before, a) && !x.isRead && x.skip) {
        if i :| StaleAt(before, a, i) {
          assert StaleAt(chunk, a, i);
        }
        if i :| StaleAt(chunk, a, i) {
          assert i < n;
          assert StaleAt(before, a, i);
        }
      } else if !x.isRead && !Writes(before, a) {
        assert FirstWriteAt(chunk, a, n);
        assert StaleAt(chunk, a, n) <==> !x.skip && !IsNone(LastReadOf(before, a));
      } else {
        assert forall i :: FirstWriteAt(chunk, a, i) ==> i < n || x.isRead || !Writes(before, a);
      }
    }
  }

  // ----- Across chunks ---------------------------------------------------------------

  /** The read the second queue has open: what the latest chunk that touches `a` left. */
  function CarriedOpenRead(chunks: seq<Chunk>, a: Addr): Lid {
    if chunks == [] then 0
    else
      var before, last := chunks[..|chunks| - 1], chunks[|chunks| - 1];
      if Touches(last, a) then LocalOpenRead(last, a) else CarriedOpenRead(before, a)
  }

  /** It is not the one the run has open. */
  predicate Outdated(chunks: seq<Chunk>, a: Addr) {
    chunks != [] &&
    var before, last := chunks[..|chunks| - 1], chunks[|chunks| - 1];
    if Touches(last, a) then Misses(Flatten(before), last, a) else Outdated(before, a)
  }

  lemma {:induction false} CarriedKeepsOpenRead(chunks: seq<Chunk>, a: Addr)
    requires AllIdentified(chunks)
    ensures Alike(At(Carried(Overwriting, chunks), a).r, CarriedOpenRead(chunks, a))
    ensures Alike(CarriedOpenRead(chunks, a), OpenRead(0, Flatten(chunks), a)) <==> !Outdated(chunks, a)
  {
    if chunks == [] {
    } else {
      var before, last := chunks[..|chunks| - 1], chunks[|chunks| - 1];
      forall c | c in before ensures c in chunks {}
      assert last in chunks;
      CarriedKeepsOpenRead(before, a);
      MergedAt(Overwriting, Carried(Overwriting, before), last, a);
      LocalCellKeepsOpenRead(last, a);
      if Touches(last, a) {
        ChunkOpenRead(Flatten(before), last, a);
      } else {
        OpenReadSplit(0, Flatten(before), last, a);
        OpenReadOfReads(OpenRead(0, Flatten(before), a), last, a);
      }
    }
  }

  // ----- What an access sees -----------------------------------------------------------

  /** The read that is open at access `j` of chunk `k` in the whole run. */
  function OpenBefore(chunks: seq<Chunk>, k: int, j: int): Lid
    requires Within(chunks, k, j)
  {
    OpenRead(0, Flatten(chunks[..k]) + chunks[k][..j], chunks[k][j].addr)
  }

  /** The read that the chunked run has open there: once the chunk has written the address, that
      of its own shadow; before, the latest read it has deferred, or the one that is carried. */
  function ChunkedOpenBefore(chunks: seq<Chunk>, k: int, j: int): Lid
    requires Within(chunks, k, j)
  {
    var within, a := chunks[k][..j], chunks[k][j].addr;
    if Writes(within, a) then LocalOpenRead(within, a)
    else if Touches(within, a) then LastReadOf(Entries(within), a)
    else CarriedOpenRead(chunks[..k], a)
  }

  /** The two are not alike. */
  predicate OpenReadDiffers(chunks: seq<Chunk>, k: int, j: int)
    requires Within(chunks, k, j)
  {
    var within, a := chunks[k][..j], chunks[k][j].addr;
    if Writes(within, a) then Misses(Flatten(chunks[..k]), within, a)
    else if Touches(within, a) then !Alike(LastReadOf(Entries(within), a), LastReadOf(within, a))
    else Outdated(chunks[..k], a)
  }

  lemma ReplayedOpenRead(c: Cell, within: Chunk, a: Addr)
    requires Identified(within) && !Writes(within, a) && Touches(within, a)
    ensures Alike(CellAfter(c, Entries(within), a).r, LastReadOf(Entries(within), a))
  {
    EntriesAreDeferred(within);
    CellKeepsOpenRead(c, c.r, Entries(within), a);
    OpenReadOfReads(c.r, Entries(within), a);
  }

  lemma UntouchedReplay(c: Cell, within: Chunk, a: Addr)
    requires Identified(within) && !Touches(within, a)
    ensures CellAfter(c, Entries(within), a) == c
  {
    EntriesAreDeferred(within);
    CellUntouched(c, Entries(within), a);
  }

  lemma SequentialSeesOpenRead(chunks: seq<Chunk>, k: int, j: int)
    requires Within(chunks, k, j)
    ensures Alike(SequentialSees(chunks, k, j).r, OpenBefore(chunks, k, j))
  {
    CellKeepsOpenRead(EMPTY, 0, Flatten(chunks[..k]) + chunks[k][..j], chunks[k][j].addr);
  }

  lemma ChunkSeesOpenRead(chunks: seq<Chunk>, k: int, j: int)
    requires AllIdentified(chunks) && Within(chunks, k, j)
    ensures Alike(ChunkSees(Overwriting, chunks, k, j).r, ChunkedOpenBefore(chunks, k, j))
  {
    var before, within, a := chunks[..k], chunks[k][..j], chunks[k][j].addr;
    assert chunks[k] in chunks;
    forall y | y in within ensures y in chunks[k] {}
    forall c | c in before ensures c in chunks {}
    LocalWriteKnown(within, a);
    var c := At(Carried(Overwriting, before), a);
    if Writes(within, a) {
      LocalCellKeepsOpenRead(within, a);
    } else if Touches(within, a) {
      ReplayedOpenRead(c, within, a);
    } else {
      CarriedKeepsOpenRead(before, a);
      UntouchedReplay(c, within, a);
    }
  }

  lemma OpenReadDiffersExactly(chunks: seq<Chunk>, k: int, j: int)
    requires AllIdentified(chunks) && Within(chunks, k, j)
    ensures Alike(ChunkedOpenBefore(chunks, k, j), OpenBefore(chunks, k, j)) <==> !OpenReadDiffers(chunks, k, j)
  {
    var before, within, a := chunks[..k], chunks[k][..j], chunks[k][j].addr;
    forall c | c in before ensures c in chunks {}
    if Writes(within, a) {
      ChunkOpenRead(Flatten(before), within, a);
    } else {
      OpenReadSplit(0, Flatten(before), within, a);
      OpenReadOfReads(OpenRead(0, Flatten(before), a), within, a);
      CarriedKeepsOpenRead(before, a);
    }
  }
}
