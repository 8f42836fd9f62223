/** The processes a process started, directly or not. */
module Descendants {

  /** A row of the process table. */
  datatype Process = Process(pid: int, parent: int)

  /** The table is keyed by process id. */
  ghost predicate Keyed(table: seq<Process>) {
    forall i, j :: 0 <= i < j < |table| ==> table[i].pid != table[j].pid
  }

  ghost predicate IsChild(table: seq<Process>, child: int, parent: int) {
    Process(child, parent) in table
  }

  /** `n` steps up the parent chain lead from `q` to `pid`. */
  ghost predicate ReachesIn(table: seq<Process>, q: int, pid: int, n: nat)
    decreases n
  {
    if n == 0 then q == pid
    else exists p :: IsChild(table, q, p) && ReachesIn(table, p, pid, n - 1)
  }

  /** The parent chain of `q` reaches `pid`, in at least one step. */
  ghost predicate Descends(table: seq<Process>, q: int, pid: int) {
    exists n: nat :: n > 0 && ReachesIn(table, q, pid, n)
  }

  /** The children of a process, in the order of the table. */
  function ChildrenOf(table: seq<Process>, parent: int): (cs: seq<int>)
  {
    if table == [] then []
    else
      var before, last := ChildrenOf(table[..|table| - 1], parent), table[|table| - 1];
      if last.parent == parent then before + [last.pid] else before
  }

  ghost predicate Distinct(s: seq<int>) {
    forall i, j :: 0 <= i < j < |s| ==> s[i] != s[j]
  }

  lemma DistinctConcat(a: seq<int>, b: seq<int>)
    requires Distinct(a) && Distinct(b) && forall x :: x in a ==> x !in b
    ensures Distinct(a + b)
  {
    forall i, j | 0 <= i < j < |a + b|
      ensures (a + b)[i] != (a + b)[j]
    {
      if i < |a| <= j {
        assert a[i] in a && b[j - |a|] in b;
      }
    }
  }

  lemma {:induction false} ChildrenAreChildren(table: seq<Process>, parent: int)
    ensures forall c :: c in ChildrenOf(table, parent) <==> IsChild(table, c, parent)
    ensures Keyed(table) ==> Distinct(ChildrenOf(table, parent))
  {
    if table == [] {
    } else {
      var before, last := table[..|table| - 1], table[|table| - 1];
      assert table == before + [last];
      ChildrenAreChildren(before, parent);
      if Keyed(table) {
        assert Keyed(before) && forall p :: p in before ==> p.pid != last.pid;
        if last.parent == parent {
          DistinctConcat(ChildrenOf(before, parent), [last.pid]);
        }
      }
    }
  }

  lemma OneParent(table: seq<Process>, c: int, p: int, q: int)
    requires Keyed(table) && IsChild(table, c, p) && IsChild(table, c, q)
    ensures p == q
  {
    var i :| 0 <= i < |table| && table[i] == Process(c, p);
    var j :| 0 <= j < |table| && table[j] == Process(c, q);
    assert i == j;
  }

  // ----- The walk ---------------------------------------------------------------------

  datatype Walk = Walk(pending: seq<int>, found: seq<int>)

  /** One turn: the last pending process gives way to its children. */
  function Turn(table: seq<Process>, w: Walk): Walk {
    if w.pending == [] then w
    else
      var cs := ChildrenOf(table, w.pending[|w.pending| - 1]);
      Walk(w.pending[..|w.pending| - 1] + cs, w.found + cs)
  }

  function After(table: seq<Process>, pid: int, n: nat): Walk {
    if n == 0 then Walk([pid], []) else Turn(table, After(table, pid, n - 1))
  }

  /** What was found are the children of the processes taken so far. */
  ghost predicate FoundAreChildren(table: seq<Process>, found: seq<int>, taken: set<int>) {
    forall q :: q in found <==> exists p :: p in taken && IsChild(table, q, p)
  }

  /** A process that came up is either taken or pending. */
  ghost predicate TakenOrPending(pid: int, w: Walk, taken: set<int>) {
    (forall q :: q in w.pending ==> q !in taken) &&
    (forall q :: q == pid || q in w.found <==> q in w.pending || q in taken)
  }

  /** What holds between turns. */
  ghost predicate Progress(table: seq<Process>, pid: int, w: Walk, taken: set<int>) {
    Distinct(w.pending) && Distinct(w.found) && pid !in w.found &&
    TakenOrPending(pid, w, taken) && FoundAreChildren(table, w.found, taken) &&
    forall q :: q in w.found ==> Descends(table, q, pid)
  }

  lemma ChildDescends(table: seq<Process>, pid: int, c: int, p: int)
    requires IsChild(table, c, p) && (p == pid || Descends(table, p, pid))
    ensures Descends(table, c, pid)
  {
    if p == pid {
      assert ReachesIn(table, p, pid, 0);
      assert ReachesIn(table, c, pid, 1);
    } else {
      var n: nat :| n > 0 && ReachesIn(table, p, pid, n);
      assert ReachesIn(table, c, pid, n + 1);
    }
  }

  /** The children of the process taken next are new. */
  lemma ChildrenAreNew(table: seq<Process>, pid: int, w: Walk, taken: set<int>, y: int)
    requires Keyed(table) && !Descends(table, pid, pid) && Progress(table, pid, w, taken) && y in w.pending
    ensures var cs := ChildrenOf(table, y);
            Distinct(cs) && forall c :: c in cs ==> c !in w.found && c != pid && c !in w.pending && c !in taken &&
                                                    Descends(table, c, pid)
  {
    ChildrenAreChildren(table, y);
    forall c | c in ChildrenOf(table, y)
      ensures c !in w.found && c != pid && Descends(table, c, pid)
    {
      ChildDescends(table, pid, c, y);
      if c in w.found {
        var p :| p in taken && IsChild(table, c, p);
        OneParent(table, c, p, y);
        assert false;
      }
    }
  }

  lemma TurnFindsChildren(table: seq<Process>, found: seq<int>, taken: set<int>, y: int)
    requires FoundAreChildren(table, found, taken)
    ensures FoundAreChildren(table, found + ChildrenOf(table, y), taken + {y})
  {
    ChildrenAreChildren(table, y);
    forall q
      ensures q in found + ChildrenOf(table, y) <==> exists p :: p in taken + {y} && IsChild(table, q, p)
    {
      if q in found {
        var p :| p in taken && IsChild(table, q, p);
        assert p in taken + {y};
      } else if q in ChildrenOf(table, y) {
        assert y in taken + {y};
      }
    }
  }

  lemma TurnTakes(pid: int, front: seq<int>, y: int, found: seq<int>, cs: seq<int>, taken: set<int>)
    requires TakenOrPending(pid, Walk(front + [y], found), taken) && Distinct(front + [y])
    requires forall c :: c in cs ==> c !in taken && c != y
    ensures TakenOrPending(pid, Walk(front + cs, found + cs), taken + {y})
  {
    var pending := front + [y];
    assert pending[|front|] == y;
    assert forall k :: 0 <= k < |front| ==> pending[k] == front[k];
    assert y !in front;
    assert forall q :: q in pending <==> q in front || q == y;
  }

  lemma TurnKeeps(table: seq<Process>, pid: int, w: Walk, taken: set<int>)
    requires Keyed(table) && !Descends(table, pid, pid) && Progress(table, pid, w, taken) && w.pending != []
    ensures Progress(table, pid, Turn(table, w), taken + {w.pending[|w.pending| - 1]})
  {
    var y := w.pending[|w.pending| - 1];
    var front := w.pending[..|w.pending| - 1];
    var cs := ChildrenOf(table, y);
    ChildrenAreNew(table, pid, w, taken, y);
    assert w.pending == front + [y];
    DistinctConcat(front, cs);
    DistinctConcat(w.found, cs);
    TurnTakes(pid, front, y, w.found, cs, taken);
    TurnFindsChildren(table, w.found, taken, y);
  }

  /** With nothing pending, every descendant has been found. */
  lemma {:induction false} AllFound(table: seq<Process>, pid: int, found: seq<int>, taken: set<int>, q: int, n: nat)
    requires Progress(table, pid, Walk([], found), taken)
    requires n > 0 && ReachesIn(table, q, pid, n)
    ensures q in found
    decreases n
  {
    var p :| IsChild(table, q, p) && ReachesIn(table, p, pid, n - 1);
    if n == 1 {
    } else {
      AllFound(table, pid, found, taken, p, n - 1);
    }
    assert p in taken;
  }

  lemma EverythingFound(table: seq<Process>, pid: int, found: seq<int>, taken: set<int>)
    requires Progress(table, pid, Walk([], found), taken)
    ensures forall q :: q in found <==> Descends(table, q, pid)
  {
    forall q | Descends(table, q, pid)
      ensures q in found
    {
      var n: nat :| n > 0 && ReachesIn(table, q, pid, n);
      AllFound(table, pid, found, taken, q, n);
    }
  }

  function Known(table: seq<Process>, pid: int): set<int> {
    {pid} + set p | p in table :: p.pid
  }

  lemma TakenIsKnown(table: seq<Process>, pid: int, w: Walk, taken: set<int>)
    requires Progress(table, pid, w, taken)
    ensures taken <= Known(table, pid) && forall q :: q in w.pending ==> q in Known(table, pid) - taken
  {
    forall q | q in taken || q in w.pending
      ensures q in Known(table, pid)
    {
      if q in w.found {
        var p :| p in taken && IsChild(table, q, p);
        assert Process(q, p) in table;
      }
    }
  }

  function Get(children: map<int, seq<int>>, p: int): seq<int> {
    if p in children then children[p] else []
  }

  method ChildTable(table: seq<Process>) returns (children: map<int, seq<int>>)
    ensures forall p :: Get(children, p) == ChildrenOf(table, p)
  {
    children := map[];
    for i := 0 to |table|
      invariant forall p :: Get(children, p) == ChildrenOf(table[..i], p)
    {
      assert table[..i + 1][..i] == table[..i];
      var row := table[i];
      if row.parent !in children {
        children := children[row.parent := []];
      }
      children := children[row.parent := children[row.parent] + [row.pid]];
    }
    assert table[..|table|] == table;
  }

  method Push(cs: seq<int>, found: seq<int>, pending: seq<int>) returns (found': seq<int>, pending': seq<int>)
    ensures found' == found + cs && pending' == pending + cs
  {
    found', pending' := found, pending;
    for k := 0 to |cs|
      invariant found' == found + cs[..k] && pending' == pending + cs[..k]
    {
      found' := found' + [cs[k]];
      pending' := pending' + [cs[k]];
    }
    assert cs[..|cs|] == cs;
  }

  /** Each process whose parent chain reaches `pid`, once. Needs `pid` not to be its own
      descendant; `EndsExactly` shows that nothing less would do. */
  method DescendantsOf(pid: int, table: seq<Process>) returns (found: seq<int>)
    requires Keyed(table) && !Descends(table, pid, pid)
    ensures Distinct(found)
    ensures forall q :: q in found <==> Descends(table, q, pid)
  {
    var children := ChildTable(table);
    found := [];
    var pending := [pid];
    ghost var taken: set<int> := {};
    while pending != []
      invariant Progress(table, pid, Walk(pending, found), taken)
      decreases Known(table, pid) - taken
    {
      ghost var w := Walk(pending, found);
      TurnKeeps(table, pid, w, taken);
      TakenIsKnown(table, pid, w, taken);
      var last := pending[|pending| - 1];
      assert last in pending;
      pending := pending[..|pending| - 1];
      var cs := Get(children, last);
      found, pending := Push(cs, found, pending);
      assert Walk(pending, found) == Turn(table, w);
      taken := taken + {last};
    }
    EverythingFound(table, pid, found, taken);
  }

  // ----- When the walk ends ---------------------------------------------------------------

  ghost predicate Ends(table: seq<Process>, pid: int) {
    exists n: nat :: After(table, pid, n).pending == []
  }

  lemma {:induction false} EndsFrom(table: seq<Process>, pid: int, n: nat, taken: set<int>)
    requires Keyed(table) && !Descends(table, pid, pid)
    requires Progress(table, pid, After(table, pid, n), taken)
    ensures Ends(table, pid)
    decreases Known(table, pid) - taken
  {
    var w := After(table, pid, n);
    if w.pending == [] {
    } else {
      TurnKeeps(table, pid, w, taken);
      TakenIsKnown(table, pid, w, taken);
      EndsFrom(table, pid, n + 1, taken + {w.pending[|w.pending| - 1]});
    }
  }

  lemma {:induction false} LastStep(table: seq<Process>, q: int, x: int, n: nat)
    requires n > 0 && ReachesIn(table, q, x, n)
    ensures exists c :: IsChild(table, c, x) && ReachesIn(table, q, c, n - 1)
    decreases n
  {
    var p :| IsChild(table, q, p) && ReachesIn(table, p, x, n - 1);
    if n > 1 {
      LastStep(table, p, x, n - 1);
      var c :| IsChild(table, c, x) && ReachesIn(table, p, c, n - 2);
      assert ReachesIn(table, q, c, n - 1);
    } else {
      assert ReachesIn(table, q, q, 0);
    }
  }

  /** On the way from `pid` down to itself there is always a next child to push. */
  lemma NextOnCycle(table: seq<Process>, pid: int, x: int)
    requires Descends(table, pid, pid) && Descends(table, pid, x)
    ensures exists c :: IsChild(table, c, x) && Descends(table, pid, c)
  {
    var n: nat :| n > 0 && ReachesIn(table, pid, x, n);
    LastStep(table, pid, x, n);
    var c :| IsChild(table, c, x) && ReachesIn(table, pid, c, n - 1);
    if n == 1 {
      assert c == pid;
    }
    assert Descends(table, pid, c);
  }

  ghost predicate CyclePending(table: seq<Process>, pid: int, w: Walk) {
    exists x :: x in w.pending && Descends(table, pid, x)
  }

  lemma TurnKeepsCycle(table: seq<Process>, pid: int, w: Walk)
    requires Descends(table, pid, pid) && CyclePending(table, pid, w)
    ensures CyclePending(table, pid, Turn(table, w))
  {
    var x :| x in w.pending && Descends(table, pid, x);
    var front, y := w.pending[..|w.pending| - 1], w.pending[|w.pending| - 1];
    assert w.pending == front + [y];
    if x == y {
      NextOnCycle(table, pid, x);
      var c :| IsChild(table, c, x) && Descends(table, pid, c);
      ChildrenAreChildren(table, x);
      assert c in Turn(table, w).pending;
    } else {
      assert x in Turn(table, w).pending;
    }
  }

  lemma {:induction false} CycleStaysPending(table: seq<Process>, pid: int, n: nat)
    requires Descends(table, pid, pid)
    ensures CyclePending(table, pid, After(table, pid, n))
  {
    if n == 0 {
      assert pid in After(table, pid, 0).pending;
    } else {
      CycleStaysPending(table, pid, n - 1);
      TurnKeepsCycle(table, pid, After(table, pid, n - 1));
    }
  }

  /** The walk ends if, and only if, the process is not its own descendant. */
  lemma EndsExactly(table: seq<Process>, pid: int)
    requires Keyed(table)
    ensures Ends(table, pid) <==> !Descends(table, pid, pid)
  {
    if Descends(table, pid, pid) {
      forall n: nat
        ensures After(table, pid, n).pending != []
      {
        CycleStaysPending(table, pid, n);
      }
    } else {
      assert Progress(table, pid, After(table, pid, 0), {});
      EndsFrom(table, pid, 0, {});
    }
  }
}
