/** What the first queue hands on of the accesses it defers: told by the deferred accesses alone. */
module Deduplication {
  import opened Accesses
  import opened Chunks

  /** Each access once, where it first occurs. */
  function FirstOccurrences(t: seq<AccessInfo>): seq<AccessInfo> {
    if t == [] then []
    else
      var before, x := t[..|t| - 1], t[|t| - 1];
      if x in before then FirstOccurrences(before) else FirstOccurrences(before) + [x]
  }

  /** The positions of `t` that repeat an access of an earlier one. */
  ghost function Repeats(t: seq<AccessInfo>): set<nat> {
    set i: nat | i < |t| && t[i] in t[..i]
  }

  ghost predicate Distinct(t: seq<AccessInfo>) {
    forall i, j :: 0 <= i < j < |t| ==> t[i] != t[j]
  }

  /** Wherever a later access of `u` occurs in `t`, the earlier one has occurred before. */
  ghost predicate InOrderOf(u: seq<AccessInfo>, t: seq<AccessInfo>) {
    forall i, j, q :: 0 <= i < j < |u| && 0 <= q < |t| && t[q] == u[j] ==> u[i] in t[..q]
  }

  lemma {:induction false} FirstOccurrencesMeans(t: seq<AccessInfo>)
    ensures var u := FirstOccurrences(t);
            Distinct(u) && InOrderOf(u, t) && forall x :: x in u <==> x in t
    ensures |FirstOccurrences(t)| + |Repeats(t)| == |t|
  {
    if t == [] {
      assert Repeats(t) == {};
    } else {
      var before, x := t[..|t| - 1], t[|t| - 1];
      assert t == before + [x];
      FirstOccurrencesMeans(before);
      RepeatsGrow(before, x);
      OrderGrows(FirstOccurrences(before), before, x);
    }
  }

  lemma OrderGrows(u: seq<AccessInfo>, t: seq<AccessInfo>, x: AccessInfo)
    requires InOrderOf(u, t) && forall y :: y in u <==> y in t
    ensures x in t ==> InOrderOf(u, t + [x])
    ensures x !in t ==> InOrderOf(u + [x], t + [x])
  {
    var v := if x in t then u else u + [x];
    forall i, j, q | 0 <= i < j < |v| && 0 <= q < |t + [x]| && (t + [x])[q] == v[j]
      ensures v[i] in (t + [x])[..q]
    {
      assert (t + [x])[..q] == t[..q];
      assert v[i] == u[i] && u[i] in t;
      if q == |t| {
        assert (t + [x])[..q] == t;
      }
    }
  }

  lemma RepeatsGrow(t: seq<AccessInfo>, x: AccessInfo)
    ensures |Repeats(t + [x])| == |Repeats(t)| + if x in t then 1 else 0
  {
    var u := t + [x];
    forall i: nat ensures i in Repeats(u) <==> i in Repeats(t) || (i == |t| && x in t) {
      PrefixStays(t, x, i);
    }
    OneMore(Repeats(t), Repeats(u), |t|, x in t);
  }

  lemma PrefixStays(t: seq<AccessInfo>, x: AccessInfo, i: nat)
    ensures i <= |t| ==> (t + [x])[..i] == t[..i]
    ensures t[..|t|] == t
  {}

  lemma OneMore(a: set<nat>, b: set<nat>, n: nat, more: bool)
    requires n !in a && forall i: nat :: i in b <==> i in a || (i == n && more)
    ensures |b| == |a| + if more then 1 else 0
  {
    assert b == a + if more then {n} else {};
  }

  /** The deduplication is worth its while: at least a quarter of the trial are repeats. */
  ghost predicate PaysOff(all: seq<AccessInfo>) {
    |all| >= 4096 ==> |Repeats(all[..4096])| >= 1024
  }

  /** How the accesses `all` are handed on. */
  ghost predicate HandedOn(all: seq<AccessInfo>, entries: seq<AccessInfo>) {
    if |all| <= 4096 || |Repeats(all[..4096])| >= 1024 then entries == FirstOccurrences(all)
    else entries == FirstOccurrences(all[..4096]) + all[4096..]
  }

  /** The state of the deduplication after the accesses `all`. */
  ghost predicate StateAfter(all: seq<AccessInfo>, d: Deferral) {
    && d.deduplicate == PaysOff(all)
    && HandedOn(all, d.entries)
    && (d.deduplicate ==> d.seen == |all| && d.repeats == |Repeats(all)| && forall x :: x in d.already <==> x in all)
  }

  lemma StateGrows(all: seq<AccessInfo>, d: Deferral, x: AccessInfo)
    requires StateAfter(all, d)
    ensures StateAfter(all + [x], Defer(d, x))
  {
    var more := all + [x];
    RepeatsGrow(all, x);
    assert more[..|all|] == all;
    if |all| >= 4096 {
      assert more[..4096] == all[..4096];
      if !d.deduplicate {
        assert more[4096..] == all[4096..] + [x];
        if |all| == 4096 {
          assert all[..4096] == all && all[4096..] == [];
        }
      }
    } else if |all| == 4095 {
      assert more[..4096] == more;
    }
  }

  lemma {:induction false} DeferredState(chunk: Chunk)
    requires Identified(chunk)
    ensures StateAfter(AllDeferred(chunk), Deferred(chunk))
  {
    if chunk == [] {
    } else {
      var before, x := chunk[..|chunk| - 1], chunk[|chunk| - 1];
      assert chunk == before + [x];
      DeferredState(before);
      LocalWriteKnown(before, x.addr);
      if IsEntryCondition(before, x) {
        StateGrows(AllDeferred(before), Deferred(before), x);
      }
    }
  }

  /** Up to 4096 deferred accesses, or while a quarter of the first 4096 are repeats, each is
      handed on once; otherwise the ones after the trial follow unchanged. */
  lemma EntriesExactly(chunk: Chunk)
    requires Identified(chunk)
    ensures var all := AllDeferred(chunk);
            Entries(chunk) ==
            if |all| <= 4096 || |Repeats(all[..4096])| >= 1024 then FirstOccurrences(all)
            else FirstOccurrences(all[..4096]) + all[4096..]
  {
    DeferredState(chunk);
  }

  /** The deferred accesses: those with no write to their address before them in the chunk. */
  lemma {:induction false} AllDeferredMeans(chunk: Chunk, y: AccessInfo)
    ensures y in AllDeferred(chunk) <==>
            exists i :: 0 <= i < |chunk| && chunk[i] == y && !Writes(chunk[..i], y.addr)
  {
    if chunk == [] {
    } else {
      var before, x := chunk[..|chunk| - 1], chunk[|chunk| - 1];
      AllDeferredMeans(before, y);
      forall i | 0 <= i < |before| ensures before[..i] == chunk[..i] && before[i] == chunk[i] {}
      assert y == x && !Writes(before, x.addr) ==> chunk[|before|] == y && !Writes(chunk[..|before|], y.addr);
    }
  }
}
