/** What the two queue workers compute for a chunk, as functions of its recorded accesses. */
module Chunks {
  import opened Accesses
  import opened SequentialAnalysis

  type Chunk = seq<AccessInfo>

  // ----- First queue: the chunk against an empty local shadow -------------------

  /** Up to and including its first write, an address is only registered. */
  function LocalStep(c: Cell, x: AccessInfo): Cell {
    if c.w == 0 then
      if x.isRead then c.(r := x.lid) else c.(w := x.lid)
    else Step(c, x)
  }

  function LocalCell(chunk: Chunk, a: Addr): Cell {
    if chunk == [] then EMPTY
    else
      var x := chunk[|chunk| - 1];
      var before := LocalCell(chunk[..|chunk| - 1], a);
      if x.addr == a then LocalStep(before, x) else before
  }

  /** The chunk does not yet know everything about the address of its next access. */
  predicate IsEntryCondition(before: Chunk, x: AccessInfo) {
    LocalCell(before, x.addr).w == 0
  }

  function LocalReports(chunk: Chunk): set<Dependency> {
    if chunk == [] then {}
    else
      var before, x := chunk[..|chunk| - 1], chunk[|chunk| - 1];
      LocalReports(before) +
      if IsEntryCondition(before, x) then {} else Report(LocalCell(before, x.addr), x)
  }

  const DEFERRED_DEDUP_TRIAL := 4096

  /** The accesses handed on, and the state of their deduplication. */
  datatype Deferral = Deferral(
    entries: seq<AccessInfo>, already: set<AccessInfo>, deduplicate: bool, seen: nat, repeats: nat)

  const NOTHING_DEFERRED := Deferral([], {}, true, 0, 0)

  function Defer(d: Deferral, x: AccessInfo): Deferral {
    if !d.deduplicate then d.(entries := d.entries + [x])
    else
      var isNew := x !in d.already;
      var seen := d.seen + 1;
      var repeats := if isNew then d.repeats else d.repeats + 1;
      var entries := if isNew then d.entries + [x] else d.entries;
      // the share of repeats is below a quarter
      var giveUp := seen == DEFERRED_DEDUP_TRIAL && 4 * repeats < seen;
      Deferral(entries, if giveUp then {} else d.already + {x}, !giveUp, seen, repeats)
  }

  function Deferred(chunk: Chunk): Deferral {
    if chunk == [] then NOTHING_DEFERRED
    else
      var before, x := chunk[..|chunk| - 1], chunk[|chunk| - 1];
      if IsEntryCondition(before, x) then Defer(Deferred(before), x) else Deferred(before)
  }

  function Entries(chunk: Chunk): seq<AccessInfo> {
    Deferred(chunk).entries
  }

  predicate Touches(t: seq<AccessInfo>, a: Addr) {
    exists x :: x in t && x.addr == a
  }

  predicate Writes(t: seq<AccessInfo>, a: Addr) {
    exists x :: x in t && x.addr == a && !x.isRead
  }

  /** What would be handed on without any deduplication: up to and including its first write in
      the chunk, every access to an address. */
  function AllDeferred(chunk: Chunk): seq<AccessInfo> {
    if chunk == [] then []
    else
      var before, x := chunk[..|chunk| - 1], chunk[|chunk| - 1];
      if Writes(before, x.addr) then AllDeferred(before) else AllDeferred(before) + [x]
  }

  // ----- Second queue: replay on the carried shadow, then merge -----------------

  /** How a chunk's exit state replaces the carried one. The runtime stores the exit state
      of every address of the chunk; the guarded variant would keep a carried write that
      the chunk has none to replace. */
  datatype Merge = Overwriting | Guarded

  function MergeCell(m: Merge, carried: Cell, exit: Cell): Cell {
    if m.Guarded? && exit.w == 0 then Cell(exit.r, carried.w) else exit
  }

  function Merged(m: Merge, carried: ShadowMap, chunk: Chunk): ShadowMap {
    map a | a in carried.Keys + (set x | x in Entries(chunk) :: x.addr) ::
      var replayed := CellAfter(At(carried, a), Entries(chunk), a);
      if Touches(Entries(chunk), a) then MergeCell(m, replayed, LocalCell(chunk, a)) else replayed
  }

  /** The persistent shadow of the second queue after all `chunks`. */
  function Carried(m: Merge, chunks: seq<Chunk>): ShadowMap {
    if chunks == [] then map[]
    else Merged(m, Carried(m, chunks[..|chunks| - 1]), chunks[|chunks| - 1])
  }

  /** What both queues together report for a chunk that meets the carried shadow `s`. */
  function ChunkReports(s: ShadowMap, chunk: Chunk): set<Dependency> {
    LocalReports(chunk) + Reports(s, Entries(chunk))
  }

  function ChunkedReports(m: Merge, chunks: seq<Chunk>): set<Dependency> {
    if chunks == [] then {}
    else
      var before, chunk := chunks[..|chunks| - 1], chunks[|chunks| - 1];
      ChunkedReports(m, before) + ChunkReports(Carried(m, before), chunk)
  }

  function Flatten(chunks: seq<Chunk>): seq<AccessInfo> {
    if chunks == [] then [] else Flatten(chunks[..|chunks| - 1]) + chunks[|chunks| - 1]
  }

  // ----- The deferred accesses ---------------------------------------------------

  lemma {:induction false} LocalWriteKnown(chunk: Chunk, a: Addr)
    requires Identified(chunk)
    ensures LocalCell(chunk, a).w == 0 <==> !Writes(chunk, a)
    ensures LocalCell(chunk, a).r != 0 ==> Touches(chunk, a)
    ensures !Touches(chunk, a) ==> LocalCell(chunk, a) == EMPTY
    ensures Touches(chunk, a) ==> LocalCell(chunk, a) != EMPTY
  {
    if chunk == [] {
    } else {
      var before, x := chunk[..|chunk| - 1], chunk[|chunk| - 1];
      assert chunk == before + [x];
      assert Identified(before);
      LocalWriteKnown(before, a);
    }
  }

  /** The deferred list, in whatever way it is deduplicated: it holds accesses of the chunk,
      and of every deferred access one; while an address is unwritten it holds no write to it. */
  lemma {:induction false} EntriesAreDeferred(chunk: Chunk)
    requires Identified(chunk)
    ensures forall x :: x in Entries(chunk) ==> x in chunk
    ensures forall a :: !Writes(chunk, a) ==> !Writes(Entries(chunk), a)
    ensures forall x :: x in Deferred(chunk).already ==> x in Entries(chunk)
    ensures forall a :: Touches(chunk, a) ==> Touches(Entries(chunk), a)
    ensures forall x :: x in chunk && !Writes(chunk, x.addr) ==> x in Entries(chunk)
    ensures forall a :: Writes(chunk, a) ==> Writes(Entries(chunk), a)
  {
    if chunk == [] {
    } else {
      var before, x := chunk[..|chunk| - 1], chunk[|chunk| - 1];
      assert chunk == before + [x];
      assert Identified(before);
      EntriesAreDeferred(before);
      LocalWriteKnown(before, x.addr);
      EntriesGrow(before, x);
      forall a
        ensures !Writes(chunk, a) ==> !Writes(Entries(chunk), a)
        ensures Touches(chunk, a) ==> Touches(Entries(chunk), a)
        ensures Writes(chunk, a) ==> Writes(Entries(chunk), a)
      {
      }
    }
  }

  lemma EntriesGrow(before: Chunk, x: AccessInfo)
    ensures var e, e' := Entries(before), Entries(before + [x]);
            e' == e || (e' == e + [x] && IsEntryCondition(before, x))
    ensures IsEntryCondition(before, x) && x !in Deferred(before).already ==> Entries(before + [x]) == Entries(before) + [x]
  {
    assert (before + [x])[..|before|] == before;
  }

  lemma LocalCellExtends(before: Chunk, x: AccessInfo, a: Addr)
    ensures LocalCell(before + [x], a) == if x.addr == a then LocalStep(LocalCell(before, a), x) else LocalCell(before, a)
  {
    assert (before + [x])[..|before|] == before;
  }
}
