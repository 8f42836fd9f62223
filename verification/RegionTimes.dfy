/** The hotspot runtime's accounting of inclusive time under recursion. */
module RegionTimes {

  /** A region is entered or left at a time. Function and loop callbacks do the same. */
  datatype Event = Event(enter: bool, id: nat, at: real)

  type Trace = seq<Event>

  /** Activations of `id` that are open after `t`. */
  function Open(t: Trace, id: nat): int {
    if t == [] then 0
    else
      var e := t[|t| - 1];
      Open(t[..|t| - 1], id) + (if e.id != id then 0 else if e.enter then 1 else -1)
  }

  /** Total length of the time up to the last event with at least one activation of `id` open. */
  function Covered(t: Trace, id: nat): real {
    if |t| < 2 then 0.0
    else
      var before := t[..|t| - 1];
      Covered(before, id) + (if Open(before, id) > 0 then t[|t| - 1].at - before[|before| - 1].at else 0.0)
  }

  ghost predicate Ordered(t: Trace) {
    forall i, j :: 0 <= i <= j < |t| ==> t[i].at <= t[j].at
  }

  /** No region is left more often than entered. */
  ghost predicate Bracketed(t: Trace) {
    forall i, id :: 0 <= i <= |t| ==> Open(t[..i], id) >= 0
  }

  function LatestTime(t: Trace): real
    requires t != []
  {
    t[|t| - 1].at
  }

  /** The flag counts the open activations; the accumulated time, together with what the open
      stretch has lasted, is the time covered. */
  ghost predicate Accounts(t: Trace, id: nat, flag: int, a: real, b: real) {
    flag == Open(t, id) && b + (if flag > 0 && t != [] then LatestTime(t) - a else 0.0) == Covered(t, id)
  }

  class HotspotRuntime {
    const timeFlag: array<int>
    const timeA: array<real>
    const timeB: array<real>
    ghost var trace: Trace

    ghost predicate Valid()
      reads this, timeFlag, timeA, timeB
    {
      && timeFlag.Length == timeA.Length == timeB.Length && timeA != timeB
      && Bracketed(trace) && Ordered(trace)
      && (forall e :: e in trace ==> e.id < timeFlag.Length)
      && (forall id: nat :: id < timeFlag.Length ==> Accounts(trace, id, timeFlag[id], timeA[id], timeB[id]))
    }

    constructor (regions: nat)
      ensures Valid() && trace == [] && fresh(timeFlag) && fresh(timeA) && fresh(timeB)
      ensures timeFlag.Length == regions + 1
    {
      timeFlag := new int[regions + 1](_ => 0);
      timeA := new real[regions + 1](_ => 0.0);
      timeB := new real[regions + 1](_ => 0.0);
      trace := [];
    }

    method Start(id: nat, now: real)
      requires Valid() && id < timeFlag.Length && (trace != [] ==> LatestTime(trace) <= now)
      modifies this, timeFlag, timeA, timeB
      ensures Valid() && trace == old(trace) + [Event(true, id, now)]
    {
      TraceGrows(trace, Event(true, id, now));
      forall v: nat | v < timeFlag.Length {
        Entered(trace, id, now, v, timeFlag[v], timeA[v], timeB[v]);
      }
      if timeFlag[id] == 0 {
        timeA[id] := now;
      }
      timeFlag[id] := timeFlag[id] + 1;
      trace := trace + [Event(true, id, now)];
    }

    method End(id: nat, now: real)
      requires Valid() && id < timeFlag.Length && (trace != [] ==> LatestTime(trace) <= now)
      requires Open(trace, id) > 0
      modifies this, timeFlag, timeA, timeB
      ensures Valid() && trace == old(trace) + [Event(false, id, now)]
    {
      TraceGrows(trace, Event(false, id, now));
      forall v: nat | v < timeFlag.Length {
        Left(trace, id, now, v, timeFlag[v], timeA[v], timeB[v]);
      }
      timeFlag[id] := timeFlag[id] - 1;
      if timeFlag[id] == 0 {
        timeB[id] := timeB[id] + now - timeA[id];
      }
      trace := trace + [Event(false, id, now)];
    }

    /** Recursion is counted once: a region that is closed shows the time it was active. */
    lemma ClosedRegionShowsCoveredTime(id: nat)
      requires Valid() && id < timeFlag.Length && Open(trace, id) == 0
      ensures timeB[id] == Covered(trace, id)
    {
      assert Accounts(trace, id, timeFlag[id], timeA[id], timeB[id]);
    }

    /** A region that is open only while another one is does not show the larger total. */
    lemma InnerRegionIsNotLonger(inner: nat, outer: nat)
      requires Valid() && inner < timeFlag.Length && outer < timeFlag.Length
      requires Open(trace, inner) == 0 && Open(trace, outer) == 0
      requires forall i :: 0 <= i <= |trace| && Open(trace[..i], inner) > 0 ==> Open(trace[..i], outer) > 0
      ensures timeB[inner] <= timeB[outer]
    {
      ClosedRegionShowsCoveredTime(inner);
      ClosedRegionShowsCoveredTime(outer);
      assert trace[..|trace|] == trace;
      NestedCoversLess(trace, inner, outer);
    }
  }

  lemma Entered(t: Trace, id: nat, now: real, v: nat, flag: int, a: real, b: real)
    requires Accounts(t, v, flag, a, b)
    ensures var t' := t + [Event(true, id, now)];
            if v != id then Accounts(t', v, flag, a, b)
            else Accounts(t', v, flag + 1, if flag == 0 then now else a, b)
  {
    Grown(t, Event(true, id, now), v);
  }

  lemma Left(t: Trace, id: nat, now: real, v: nat, flag: int, a: real, b: real)
    requires Accounts(t, v, flag, a, b) && Open(t, id) > 0
    ensures var t' := t + [Event(false, id, now)];
            if v != id then Accounts(t', v, flag, a, b)
            else Accounts(t', v, flag - 1, a, if flag == 1 then b + now - a else b)
  {
    Grown(t, Event(false, id, now), v);
  }

  lemma Grown(t: Trace, e: Event, id: nat)
    ensures Open(t + [e], id) == Open(t, id) + (if e.id != id then 0 else if e.enter then 1 else -1)
    ensures Covered(t + [e], id) == Covered(t, id) + (if t != [] && Open(t, id) > 0 then e.at - LatestTime(t) else 0.0)
  {
    assert (t + [e])[..|t|] == t;
  }

  lemma TraceGrows(t: Trace, e: Event)
    requires Bracketed(t) && Ordered(t)
    requires t != [] ==> LatestTime(t) <= e.at
    requires !e.enter ==> Open(t, e.id) > 0
    ensures Bracketed(t + [e]) && Ordered(t + [e])
  {
    var u := t + [e];
    assert t[..|t|] == t;
    forall i, id | 0 <= i <= |u| ensures Open(u[..i], id) >= 0 {
      if i <= |t| {
        assert u[..i] == t[..i];
      } else {
        assert u[..i] == u;
        Grown(t, e, id);
        assert Open(t[..|t|], id) >= 0;
      }
    }
  }

  lemma {:induction false} NestedCoversLess(t: Trace, inner: nat, outer: nat)
    requires Ordered(t)
    requires forall i :: 0 <= i <= |t| && Open(t[..i], inner) > 0 ==> Open(t[..i], outer) > 0
    ensures Covered(t, inner) <= Covered(t, outer)
  {
    if |t| < 2 {
    } else {
      var before := t[..|t| - 1];
      forall i | 0 <= i <= |before| ensures before[..i] == t[..i] {}
      assert before[..|before|] == before;
      NestedCoversLess(before, inner, outer);
    }
  }
}
