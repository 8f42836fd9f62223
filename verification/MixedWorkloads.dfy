/** What computing workloads with calls ignored does to those stored. */
module MixedWorkloads {
  import opened Collections
  import opened Workload
  import opened WorkloadCache

  /** A call-free computation keeps the cache sound exactly if calls make no difference to any
      node it computes. */
  lemma OverwritingKeepsSound(g: seq<Node>, rank: map<nat, nat>, before: map<nat, int>, now: map<nat, int>, visited: set<nat>)
    requires Ranked(g, rank, NOTHING) && Ranked(g, rank, CallFree) && Sound(g, rank, before) && Overwritten(g, rank, before, now, visited)
    ensures Sound(g, rank, now) <==> forall m :: m in visited ==> Work(g, rank, m, CallFree) == Work(g, rank, m, NOTHING)
  {
    if Sound(g, rank, now) {
      forall m | m in visited
        ensures Work(g, rank, m, CallFree) == Work(g, rank, m, NOTHING)
      {
        assert m in now;
      }
    }
  }

  /** The workloads of the first `k` nodes that `n` calls. */
  ghost function CalledTotal(g: seq<Node>, rank: map<nat, nat>, n: nat, k: nat): int
    requires Ranked(g, rank, NOTHING) && n in rank && g[n].kind == CU && k <= |g[n].calls|
    decreases k
  {
    if k == 0 then 0 else CalledTotal(g, rank, n, k - 1) + Work(g, rank, Next(g, rank, n, k - 1, NOTHING), NOTHING)
  }

  lemma {:induction false} CalledInPlaceOfCalls(g: seq<Node>, rank: map<nat, nat>, n: nat, k: nat)
    requires Ranked(g, rank, NOTHING) && n in rank && g[n].kind == CU && k <= |g[n].calls|
    ensures Added(g, rank, n, k, NOTHING) == CalledTotal(g, rank, n, k) - k
  {
    if k == 0 {
    } else {
      CalledInPlaceOfCalls(g, rank, n, k - 1);
    }
  }

  /** Calls make no difference at the node itself: what a unit calls adds up to the number of its
      calls, and the children of a function add up to nothing. */
  ghost predicate CallsCancel(g: seq<Node>, rank: map<nat, nat>, n: nat)
    requires Ranked(g, rank, NOTHING) && n in rank
  {
    match g[n].kind
    case CU => CalledTotal(g, rank, n, |g[n].calls|) == |g[n].calls|
    case Function => Added(g, rank, n, |g[n].children|, NOTHING) == 0
    case _ => true
  }

  lemma CallsCancelExactly(g: seq<Node>, rank: map<nat, nat>, n: nat)
    requires Ranked(g, rank, NOTHING) && Ranked(g, rank, CallFree) && n in rank && g[n].kind != Loop
    ensures Work(g, rank, n, CallFree) == Work(g, rank, n, NOTHING) <==> CallsCancel(g, rank, n)
  {
    if g[n].kind == CU {
      CalledInPlaceOfCalls(g, rank, n, |g[n].calls|);
    }
  }

  ghost predicate AllCancel(g: seq<Node>, rank: map<nat, nat>, visited: set<nat>)
    requires Ranked(g, rank, NOTHING)
  {
    forall m :: m in visited ==> m in rank && CallsCancel(g, rank, m)
  }

  /** If calls cancel at every visited unit and function, the loops above them agree too. */
  lemma {:induction false} CancellingAgrees(g: seq<Node>, rank: map<nat, nat>, n: nat, visited: set<nat>)
    requires Ranked(g, rank, NOTHING) && Ranked(g, rank, CallFree) && n in rank
    requires AllCancel(g, rank, visited) && Visited(g, rank, n) <= visited
    ensures Work(g, rank, n, CallFree) == Work(g, rank, n, NOTHING)
    decreases rank[n], |Followed(g[n])| + 1
  {
    assert n in Visited(g, rank, n);
    if g[n].kind == Loop {
      CancellingAgreesBelow(g, rank, n, |Followed(g[n])|, visited);
    } else {
      CallsCancelExactly(g, rank, n);
    }
  }

  lemma {:induction false} CancellingAgreesBelow(g: seq<Node>, rank: map<nat, nat>, n: nat, k: nat, visited: set<nat>)
    requires Ranked(g, rank, NOTHING) && Ranked(g, rank, CallFree) && n in rank && g[n].kind == Loop && k <= |Followed(g[n])|
    requires AllCancel(g, rank, visited) && VisitedBelow(g, rank, n, k) <= visited
    ensures Added(g, rank, n, k, CallFree) == Added(g, rank, n, k, NOTHING)
    decreases rank[n], k
  {
    if k == 0 {
    } else {
      VisitedInside(g, rank, n, k - 1, visited);
      CancellingAgreesBelow(g, rank, n, k - 1, visited);
      if Computes(g, n, k - 1, CallFree) {
        CancellingAgrees(g, rank, Next(g, rank, n, k - 1, CallFree), visited);
      }
      SameAt(g, rank, n, k - 1, CallFree, NOTHING);
    }
  }

  lemma VisitedStep(g: seq<Node>, rank: map<nat, nat>, n: nat, k: nat)
    requires Ranked(g, rank, CallFree) && n in rank && k < |Followed(g[n])|
    ensures VisitedBelow(g, rank, n, k) <= VisitedBelow(g, rank, n, k + 1)
    ensures Computes(g, n, k, CallFree) ==>
              Visited(g, rank, Next(g, rank, n, k, CallFree)) <= VisitedBelow(g, rank, n, k + 1)
  {}

  lemma VisitedInside(g: seq<Node>, rank: map<nat, nat>, n: nat, k: nat, visited: set<nat>)
    requires Ranked(g, rank, CallFree) && n in rank && k < |Followed(g[n])| && VisitedBelow(g, rank, n, k + 1) <= visited
    ensures VisitedBelow(g, rank, n, k) <= visited
    ensures Computes(g, n, k, CallFree) ==> Visited(g, rank, Next(g, rank, n, k, CallFree)) <= visited
  {
    VisitedStep(g, rank, n, k);
    SubsetOn(VisitedBelow(g, rank, n, k), VisitedBelow(g, rank, n, k + 1), visited);
  }

  lemma VisitedLast(g: seq<Node>, rank: map<nat, nat>, n: nat, k: nat, m: nat)
    requires Ranked(g, rank, CallFree) && n in rank && k < |Followed(g[n])|
    requires m in VisitedBelow(g, rank, n, k + 1) && m !in VisitedBelow(g, rank, n, k)
    ensures Computes(g, n, k, CallFree) && m in Visited(g, rank, Next(g, rank, n, k, CallFree))
  {}

  /** What is visited below a node is visited from one of the nodes it computes. */
  lemma {:induction false} VisitedThrough(g: seq<Node>, rank: map<nat, nat>, n: nat, k: nat, m: nat) returns (j: nat)
    requires Ranked(g, rank, CallFree) && n in rank && k <= |Followed(g[n])| && m in VisitedBelow(g, rank, n, k)
    ensures j < k && Computes(g, n, j, CallFree) && m in Visited(g, rank, Next(g, rank, n, j, CallFree))
    ensures Visited(g, rank, Next(g, rank, n, j, CallFree)) <= VisitedBelow(g, rank, n, k)
    decreases k
  {
    var last, low, all := k - 1, VisitedBelow(g, rank, n, k - 1), VisitedBelow(g, rank, n, k);
    VisitedStep(g, rank, n, last);
    if m in low {
      j := VisitedThrough(g, rank, n, last, m);
      SubsetOn(Visited(g, rank, Next(g, rank, n, j, CallFree)), low, all);
    } else {
      j := last;
      VisitedLast(g, rank, n, last, m);
    }
  }

  lemma SubsetOn(a: set<nat>, b: set<nat>, c: set<nat>)
    requires a <= b <= c
    ensures a <= c
  {}

  lemma {:induction false} AllVisitedAgree(g: seq<Node>, rank: map<nat, nat>, n: nat, m: nat, visited: set<nat>)
    requires Ranked(g, rank, NOTHING) && Ranked(g, rank, CallFree) && n in rank && m in Visited(g, rank, n)
    requires AllCancel(g, rank, visited) && Visited(g, rank, n) <= visited
    ensures m in rank && Work(g, rank, m, CallFree) == Work(g, rank, m, NOTHING)
    decreases rank[n]
  {
    if m == n {
      CancellingAgrees(g, rank, n, visited);
    } else {
      var j := VisitedThrough(g, rank, n, |Followed(g[n])|, m);
      AllVisitedAgree(g, rank, Next(g, rank, n, j, CallFree), m, visited);
    }
  }

  /** After a computation with calls ignored the cache is sound if and only if calls cancel at
      every unit and every function it has visited. */
  lemma CallFreeKeepsSoundExactly(g: seq<Node>, rank: map<nat, nat>, n: nat, before: map<nat, int>, now: map<nat, int>)
    requires Ranked(g, rank, NOTHING) && Ranked(g, rank, CallFree) && n in rank
    requires Sound(g, rank, before) && Overwritten(g, rank, before, now, Visited(g, rank, n))
    ensures Sound(g, rank, now) <==> AllCancel(g, rank, Visited(g, rank, n))
  {
    var visited := Visited(g, rank, n);
    OverwritingKeepsSound(g, rank, before, now, visited);
    if Sound(g, rank, now) {
      forall m | m in visited ensures CallsCancel(g, rank, m) {
        if g[m].kind != Loop {
          CallsCancelExactly(g, rank, m);
        }
      }
    } else if AllCancel(g, rank, visited) {
      forall m | m in visited ensures Work(g, rank, m, CallFree) == Work(g, rank, m, NOTHING) {
        AllVisitedAgree(g, rank, n, m, visited);
      }
    }
  }

  /** A function of five instructions, and a unit of three that calls it. */
  function CallingUnit(): seq<Node> {
    [Node(CU, 5, "entry", [], [], -1, None), Node(Function, 0, "", [], [0], -1, None), Node(CU, 3, "entry", [1], [], -1, None)]
  }

  function Levels(): map<nat, nat> {
    map[0 := 0, 1 := 1, 2 := 2]
  }

  lemma WorkOfCallingUnit()
    ensures var g, rank := CallingUnit(), Levels();
            Ranked(g, rank, NOTHING) && Ranked(g, rank, CallFree) && Work(g, rank, 2, NOTHING) == 7 && Work(g, rank, 2, CallFree) == 3
  {
    var g, rank := CallingUnit(), Levels();
    assert Falls(g, rank, 0, NOTHING) && Falls(g, rank, 1, NOTHING) && Falls(g, rank, 2, NOTHING);
    FewerRecursions(g, rank, CallFree);
    assert Work(g, rank, 0, NOTHING) == 5;
    assert Next(g, rank, 1, 0, NOTHING) == 0 && Next(g, rank, 2, 0, NOTHING) == 1;
    assert Added(g, rank, 1, 1, NOTHING) == 5;
    assert Added(g, rank, 2, 1, NOTHING) == 4;
  }

  /** After a call-free computation the cached workload of a calling unit is not its workload. */
  method MixedComputations() returns (g: ProgramGraph, cached: int)
    ensures fresh(g) && g.nodes == CallingUnit()
    ensures Ranked(g.nodes, Levels(), NOTHING) && Work(g.nodes, Levels(), 2, NOTHING) == 7 && cached == 3
  {
    g := new ProgramGraph(CallingUnit());
    ghost var rank: map<nat, nat> := Levels();
    WorkOfCallingUnit();
    var w := g.CalculateWorkload(2, true, rank, map[]);
    FewerRecursions(g.nodes, rank, With(g.workload));
    cached := g.CalculateWorkload(2, false, rank, g.workload);
  }
}
