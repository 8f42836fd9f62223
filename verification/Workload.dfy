/** The workload of a program graph's nodes, and its cache. */
module Workload {
  import opened Collections

  datatype Kind = CU | Function | Loop | Dummy

  /** A node with the targets of its outgoing call and child edges, in order. `average` is the
      profiled iteration count of a loop that has loop data. */
  datatype Node = Node(
    kind: Kind, instructions: int, block: string, calls: seq<nat>, children: seq<nat>,
    iterations: int, average: Option<int>)

  /** What a loop's child is to the loop. */
  datatype Role = Increment | Condition | Body

  predicate FoundAt(text: string, part: string, i: nat) {
    i + |part| <= |text| && text[i..i + |part|] == part
  }

  predicate Contains(text: string, part: string) {
    exists i | 0 <= i <= |text| :: FoundAt(text, part, i)
  }

  function RoleOf(child: Node): Role {
    if child.kind != CU then Body
    else if Contains(child.block, "for.inc") then Increment
    else if Contains(child.block, "for.cond") then Condition
    else Body
  }

  /** The profiled count; the static one where the loop was not profiled. */
  function Iterations(loop: Node): int {
    if loop.average.None? then loop.iterations else loop.average.value
  }

  /** The nodes a node adds up, in order. */
  function Followed(node: Node): seq<nat> {
    match node.kind
    case CU => node.calls
    case Function => node.children
    case Loop => node.children
    case Dummy => []
  }

  /** A computation ignores calls and what is stored; or it takes what was stored when it began. */
  datatype Mode = CallFree | With(stored: map<nat, int>)

  /** The node has a value already. */
  predicate IsStored(mode: Mode, n: nat) {
    mode.With? && n in mode.stored
  }

  /** Every edge leads to a node. */
  ghost predicate Closed(g: seq<Node>) {
    forall n, k :: 0 <= n < |g| && 0 <= k < |Followed(g[n])| ==> Followed(g[n])[k] < |g|
  }

  /** Computing `n` computes the `k`-th of the nodes it adds up: a stored value needs nothing, a
      loop only reads its increments, and without calls a unit has nothing to compute, and a
      function leaves out its children. */
  ghost predicate Computes(g: seq<Node>, n: nat, k: nat, mode: Mode)
    requires Closed(g) && n < |g| && k < |Followed(g[n])|
  {
    !IsStored(mode, n) &&
    match g[n].kind
    case Loop => RoleOf(g[Followed(g[n])[k]]) != Increment
    case _ => mode.With?
  }

  /** The recursion ends from the ranked nodes: what they compute is ranked too, and `rank` falls. */
  ghost predicate Ranked(g: seq<Node>, rank: map<nat, nat>, mode: Mode) {
    Closed(g) && forall n :: n in rank ==> n < |g| && Falls(g, rank, n, mode)
  }

  ghost predicate Falls(g: seq<Node>, rank: map<nat, nat>, n: nat, mode: Mode)
    requires Closed(g) && n < |g| && n in rank
  {
    var ids := Followed(g[n]);
    forall k :: 0 <= k < |ids| && Computes(g, n, k, mode) ==> ids[k] in rank && rank[ids[k]] < rank[n]
  }

  // ----- What a workload is -------------------------------------------------------------

  /** The `k`-th node that `n` adds up, which computing `n` computes. */
  ghost function Next(g: seq<Node>, rank: map<nat, nat>, n: nat, k: nat, mode: Mode): (m: nat)
    requires Ranked(g, rank, mode) && n in rank && k < |Followed(g[n])| && Computes(g, n, k, mode)
    ensures m in rank && rank[m] < rank[n] && m == Followed(g[n])[k]
  {
    assert Falls(g, rank, n, mode);
    Followed(g[n])[k]
  }

  /** The workload of `n`: what was stored for it; or else, a call counts as what it calls, in
      place of the call instruction, and a loop's children count once for each iteration. Without
      calls, each counts as the one instruction. */
  ghost function Work(g: seq<Node>, rank: map<nat, nat>, n: nat, mode: Mode): int
    requires Ranked(g, rank, mode) && n in rank
    decreases rank[n], |Followed(g[n])| + 1
  {
    if IsStored(mode, n) then mode.stored[n]
    else
      var all := |Followed(g[n])|;
      match g[n].kind
      case Dummy => 0
      case CU => g[n].instructions + if mode.CallFree? then 0 else Added(g, rank, n, all, mode)
      case Function => if mode.CallFree? then 0 else Added(g, rank, n, all, mode)
      case Loop => Added(g, rank, n, all, mode)
  }

  /** What the first `k` of the followed nodes add to the workload of `n`. */
  ghost function Added(g: seq<Node>, rank: map<nat, nat>, n: nat, k: nat, mode: Mode): int
    requires Ranked(g, rank, mode) && n in rank && k <= |Followed(g[n])|
    decreases rank[n], k
  {
    if k == 0 then 0
    else
      Added(g, rank, n, k - 1, mode) + Share(g[n], g[Followed(g[n])[k - 1]], WorkAt(g, rank, n, k - 1, mode))
  }

  /** The workload of the `k`-th of the followed nodes, if computing `n` computes it. */
  ghost function WorkAt(g: seq<Node>, rank: map<nat, nat>, n: nat, k: nat, mode: Mode): int
    requires Ranked(g, rank, mode) && n in rank && k < |Followed(g[n])|
    decreases rank[n], k
  {
    if Computes(g, n, k, mode) then Work(g, rank, Next(g, rank, n, k, mode), mode) else 0
  }

  lemma AddedStep(g: seq<Node>, rank: map<nat, nat>, n: nat, k: nat, mode: Mode)
    requires Ranked(g, rank, mode) && n in rank && k < |Followed(g[n])|
    ensures Added(g, rank, n, k + 1, mode) ==
            Added(g, rank, n, k, mode) + Share(g[n], g[Followed(g[n])[k]], WorkAt(g, rank, n, k, mode))
  {}

  /** What a followed node of workload `w` adds. */
  function Share(node: Node, next: Node, w: int): int {
    match node.kind
    case CU => w - 1
    case Loop => (
      match RoleOf(next)
      case Increment => next.instructions
      case Condition => w * Iterations(node) + 1
      case Body => w * Iterations(node))
    case _ => w
  }

  /** The nodes a call-free computation from `n` computes: the loops' children, however deep,
      but no increments. */
  ghost function Visited(g: seq<Node>, rank: map<nat, nat>, n: nat): set<nat>
    requires Ranked(g, rank, CallFree) && n in rank
    decreases rank[n], |Followed(g[n])| + 1
  {
    {n} + VisitedBelow(g, rank, n, |Followed(g[n])|)
  }

  ghost function VisitedBelow(g: seq<Node>, rank: map<nat, nat>, n: nat, k: nat): set<nat>
    requires Ranked(g, rank, CallFree) && n in rank && k <= |Followed(g[n])|
    decreases rank[n], k
  {
    if k == 0 then {}
    else
      VisitedBelow(g, rank, n, k - 1) +
      if Computes(g, n, k - 1, CallFree) then Visited(g, rank, Next(g, rank, n, k - 1, CallFree)) else {}
  }

  lemma {:induction false} NothingVisitedBelow(g: seq<Node>, rank: map<nat, nat>, n: nat, k: nat)
    requires Ranked(g, rank, CallFree) && n in rank && g[n].kind != Loop && k <= |Followed(g[n])|
    ensures VisitedBelow(g, rank, n, k) == {}
  {
    if k == 0 {
    } else {
      NothingVisitedBelow(g, rank, n, k - 1);
    }
  }

  // ----- The cached computation ----------------------------------------------------------

  /** What was stored at the start is still there, and every value stored since is the workload. */
  ghost predicate Grown(g: seq<Node>, rank: map<nat, nat>, start: map<nat, int>, now: map<nat, int>)
    requires Ranked(g, rank, With(start))
  {
    && (forall m :: m in start ==> m in now && now[m] == start[m])
    && forall m :: m in now && m !in start ==> m in rank && now[m] == Work(g, rank, m, With(start))
  }

  lemma GrownValue(g: seq<Node>, rank: map<nat, nat>, start: map<nat, int>, now: map<nat, int>, n: nat)
    requires Ranked(g, rank, With(start)) && Grown(g, rank, start, now) && n in rank && n in now
    ensures now[n] == Work(g, rank, n, With(start))
  {}

  lemma GrowsBy(g: seq<Node>, rank: map<nat, nat>, start: map<nat, int>, now: map<nat, int>, n: nat)
    requires Ranked(g, rank, With(start)) && Grown(g, rank, start, now) && n in rank
    ensures Grown(g, rank, start, now[n := Work(g, rank, n, With(start))])
  {}

  /** The call-free workloads of `visited` replaced whatever was stored. */
  ghost predicate Overwritten(g: seq<Node>, rank: map<nat, nat>, before: map<nat, int>, now: map<nat, int>, visited: set<nat>)
    requires Ranked(g, rank, CallFree)
  {
    now.Keys == before.Keys + visited &&
    (forall m :: m in visited ==> m in rank && now[m] == Work(g, rank, m, CallFree)) &&
    forall m :: m in before && m !in visited ==> now[m] == before[m]
  }

  lemma OverwrittenOn(g: seq<Node>, rank: map<nat, nat>, a: map<nat, int>, b: map<nat, int>, c: map<nat, int>, u: set<nat>, v: set<nat>)
    requires Ranked(g, rank, CallFree) && Overwritten(g, rank, a, b, u) && Overwritten(g, rank, b, c, v)
    ensures Overwritten(g, rank, a, c, u + v)
  {}

  function ModeOf(callFree: bool, start: map<nat, int>): Mode {
    if callFree then CallFree else With(start)
  }

  class ProgramGraph {
    const nodes: seq<Node>
    /** `node.workload`, for the nodes that have one. */
    var workload: map<nat, int>

    constructor (nodes: seq<Node>)
      ensures this.nodes == nodes && workload == map[]
    {
      this.nodes := nodes;
      workload := map[];
    }

    /** `start` is what was stored when the outermost computation began, whatever it is. */
    method CalculateWorkload(n: nat, callFree: bool, ghost rank: map<nat, nat>, ghost start: map<nat, int>) returns (res: int)
      requires Ranked(nodes, rank, ModeOf(callFree, start)) && n in rank
      requires !callFree ==> Grown(nodes, rank, start, workload)
      modifies this`workload
      ensures res == Work(nodes, rank, n, ModeOf(callFree, start))
      ensures !callFree ==> Grown(nodes, rank, start, workload) && old(workload).Keys <= workload.Keys
      ensures callFree ==> Overwritten(nodes, rank, old(workload), workload, Visited(nodes, rank, n))
      ensures n in workload && workload[n] == res
      decreases rank[n], 1
    {
      if n in workload {
        if !callFree {
          GrownValue(nodes, rank, start, workload, n);
          return workload[n];
        }
      }
      res := 0;
      match nodes[n].kind {
        case Dummy =>
        case CU =>
          res := nodes[n].instructions;
          if !callFree {
            res := AddCalled(n, res, rank, start);
          }
        case Function =>
          if !callFree {
            res := AddChildren(n, rank, start);
          }
        case Loop =>
          res := AddIterated(n, callFree, rank, start);
      }
      if callFree && nodes[n].kind != Loop {
        NothingVisitedBelow(nodes, rank, n, |Followed(nodes[n])|);
      }
      if !callFree {
        GrowsBy(nodes, rank, start, workload, n);
      }
      workload := workload[n := res];
    }

    method AddCalled(n: nat, instructions: int, ghost rank: map<nat, nat>, ghost start: map<nat, int>) returns (res: int)
      requires Ranked(nodes, rank, With(start)) && n in rank && n !in start && nodes[n].kind == CU
      requires Grown(nodes, rank, start, workload)
      modifies this`workload
      ensures res == instructions + Added(nodes, rank, n, |nodes[n].calls|, With(start))
      ensures Grown(nodes, rank, start, workload) && old(workload).Keys <= workload.Keys
      decreases rank[n], 0
    {
      res := instructions;
      for k := 0 to |nodes[n].calls|
        invariant res == instructions + Added(nodes, rank, n, k, With(start))
        invariant Grown(nodes, rank, start, workload) && old(workload).Keys <= workload.Keys
      {
        assert nodes[n].calls[k] == Next(nodes, rank, n, k, With(start));
        AddedStep(nodes, rank, n, k, With(start));
        var w := CalculateWorkload(nodes[n].calls[k], false, rank, start);
        res := res + w;
        res := res - 1;
      }
    }

    method AddChildren(n: nat, ghost rank: map<nat, nat>, ghost start: map<nat, int>) returns (res: int)
      requires Ranked(nodes, rank, With(start)) && n in rank && n !in start && nodes[n].kind == Function
      requires Grown(nodes, rank, start, workload)
      modifies this`workload
      ensures res == Added(nodes, rank, n, |nodes[n].children|, With(start))
      ensures Grown(nodes, rank, start, workload) && old(workload).Keys <= workload.Keys
      decreases rank[n], 0
    {
      res := 0;
      for k := 0 to |nodes[n].children|
        invariant res == Added(nodes, rank, n, k, With(start))
        invariant Grown(nodes, rank, start, workload) && old(workload).Keys <= workload.Keys
      {
        assert nodes[n].children[k] == Next(nodes, rank, n, k, With(start));
        AddedStep(nodes, rank, n, k, With(start));
        var w := CalculateWorkload(nodes[n].children[k], false, rank, start);
        res := res + w;
      }
    }

    method AddIterated(n: nat, callFree: bool, ghost rank: map<nat, nat>, ghost start: map<nat, int>) returns (res: int)
      requires Ranked(nodes, rank, ModeOf(callFree, start)) && n in rank && nodes[n].kind == Loop
      requires !callFree ==> n !in start && Grown(nodes, rank, start, workload)
      modifies this`workload
      ensures res == Added(nodes, rank, n, |nodes[n].children|, ModeOf(callFree, start))
      ensures !callFree ==> Grown(nodes, rank, start, workload) && old(workload).Keys <= workload.Keys
      ensures callFree ==>
                Overwritten(nodes, rank, old(workload), workload, VisitedBelow(nodes, rank, n, |nodes[n].children|))
      decreases rank[n], 0
    {
      ghost var mode := ModeOf(callFree, start);
      var iterations := Iterations(nodes[n]);
      res := 0;
      for k := 0 to |nodes[n].children|
        invariant res == Added(nodes, rank, n, k, mode)
        invariant !callFree ==> Grown(nodes, rank, start, workload) && old(workload).Keys <= workload.Keys
        invariant callFree ==> Overwritten(nodes, rank, old(workload), workload, VisitedBelow(nodes, rank, n, k))
      {
        assert nodes[n].children[k] == Followed(nodes[n])[k];
        AddedStep(nodes, rank, n, k, mode);
        var m := nodes[n].children[k];
        ghost var before := workload;
        match RoleOf(nodes[m]) {
          case Increment =>
            res := res + nodes[m].instructions;
          case Condition =>
            assert m == Next(nodes, rank, n, k, mode);
            var w := CalculateWorkload(m, callFree, rank, start);
            MoreOverwritten(callFree, rank, old(workload), before, workload, n, k);
            res := res + (w * iterations + 1);
          case Body =>
            assert m == Next(nodes, rank, n, k, mode);
            var w := CalculateWorkload(m, callFree, rank, start);
            MoreOverwritten(callFree, rank, old(workload), before, workload, n, k);
            res := res + w * iterations;
        }
      }
    }

    lemma MoreOverwritten(callFree: bool, rank: map<nat, nat>, a: map<nat, int>, b: map<nat, int>, c: map<nat, int>, n: nat, k: nat)
      requires callFree ==>
                 && Ranked(nodes, rank, CallFree) && n in rank && k < |Followed(nodes[n])| && Computes(nodes, n, k, CallFree)
                 && Overwritten(nodes, rank, a, b, VisitedBelow(nodes, rank, n, k))
                 && Overwritten(nodes, rank, b, c, Visited(nodes, rank, Next(nodes, rank, n, k, CallFree)))
      ensures callFree ==> Overwritten(nodes, rank, a, c, VisitedBelow(nodes, rank, n, k + 1))
    {
      if callFree {
        OverwrittenOn(nodes, rank, a, b, c, VisitedBelow(nodes, rank, n, k), Visited(nodes, rank, Next(nodes, rank, n, k, CallFree)));
      }
    }

    /** The workload of one iteration of a loop; any other node is refused. */
    method PerIterationWorkload(n: nat, ghost rank: map<nat, nat>, ghost start: map<nat, int>) returns (res: Option<int>)
      requires Ranked(nodes, rank, With(start)) && n < |nodes| && (nodes[n].kind == Loop ==> BodyRanked(nodes, rank, n))
      requires Grown(nodes, rank, start, workload)
      modifies this`workload
      ensures Grown(nodes, rank, start, workload) && old(workload).Keys <= workload.Keys
      ensures res == if nodes[n].kind == Loop then Some(BodyTotal(nodes, rank, n, |nodes[n].children|, With(start))) else None
    {
      if nodes[n].kind != Loop {
        return None;
      }
      var sum := 0;
      for k := 0 to |nodes[n].children|
        invariant sum == BodyTotal(nodes, rank, n, k, With(start))
        invariant Grown(nodes, rank, start, workload) && old(workload).Keys <= workload.Keys
      {
        assert nodes[n].children[k] == Followed(nodes[n])[k];
        var m := nodes[n].children[k];
        if RoleOf(nodes[m]) != Body {
          continue;
        }
        var w := CalculateWorkload(m, false, rank, start);
        sum := sum + w;
      }
      return Some(sum);
    }
  }

  // ----- A loop's workload and that of one iteration ----------------------------------------

  /** The children of a loop that one iteration adds up are ranked. */
  ghost predicate BodyRanked(g: seq<Node>, rank: map<nat, nat>, n: nat)
    requires Closed(g) && n < |g|
  {
    var ids := Followed(g[n]);
    forall k :: 0 <= k < |ids| && RoleOf(g[ids[k]]) == Body ==> ids[k] in rank
  }

  /** The workloads of a loop's body: neither increments nor conditions. */
  ghost function BodyTotal(g: seq<Node>, rank: map<nat, nat>, n: nat, k: nat, mode: Mode): int
    requires Ranked(g, rank, mode) && n < |g| && BodyRanked(g, rank, n) && k <= |Followed(g[n])|
    decreases k
  {
    if k == 0 then 0
    else
      var m := Followed(g[n])[k - 1];
      BodyTotal(g, rank, n, k - 1, mode) + if RoleOf(g[m]) == Body then Work(g, rank, m, mode) else 0
  }

  /** What a loop's children sum to, by role: the workloads of its body, the instructions of its
      increments, and the workloads and number of its conditions. */
  datatype Sums = Sums(body: int, increments: int, conditions: int, tests: nat)

  function Extended(s: Sums, next: Node, w: int): Sums {
    match RoleOf(next)
    case Increment => s.(increments := s.increments + next.instructions)
    case Condition => s.(conditions := s.conditions + w, tests := s.tests + 1)
    case Body => s.(body := s.body + w)
  }

  ghost function Parts(g: seq<Node>, rank: map<nat, nat>, n: nat, k: nat, mode: Mode): Sums
    requires Ranked(g, rank, mode) && n in rank && k <= |Followed(g[n])|
    decreases k
  {
    if k == 0 then Sums(0, 0, 0, 0)
    else Extended(Parts(g, rank, n, k - 1, mode), g[Followed(g[n])[k - 1]], WorkAt(g, rank, n, k - 1, mode))
  }

  lemma {:induction false} BodyIsPart(g: seq<Node>, rank: map<nat, nat>, n: nat, k: nat, mode: Mode)
    requires Ranked(g, rank, mode) && n in rank && g[n].kind == Loop && !IsStored(mode, n) && k <= |Followed(g[n])|
    requires BodyRanked(g, rank, n)
    ensures Parts(g, rank, n, k, mode).body == BodyTotal(g, rank, n, k, mode)
  {
    if k == 0 {
    } else {
      BodyIsPart(g, rank, n, k - 1, mode);
    }
  }

  lemma LoopBodyRanked(g: seq<Node>, rank: map<nat, nat>, n: nat, mode: Mode)
    requires Ranked(g, rank, mode) && n in rank && g[n].kind == Loop && !IsStored(mode, n)
    ensures BodyRanked(g, rank, n)
  {
    var ids := Followed(g[n]);
    forall k | 0 <= k < |ids| && RoleOf(g[ids[k]]) == Body ensures ids[k] in rank {
      assert ids[k] == Next(g, rank, n, k, mode);
    }
  }

  function LoopTotal(s: Sums, iterations: int): int {
    s.body * iterations + s.increments + s.conditions * iterations + s.tests
  }

  lemma ShareExtends(node: Node, next: Node, s: Sums, w: int)
    requires node.kind == Loop
    ensures LoopTotal(Extended(s, next, w), Iterations(node)) == LoopTotal(s, Iterations(node)) + Share(node, next, w)
  {}

  lemma {:induction false} AddedByRole(g: seq<Node>, rank: map<nat, nat>, n: nat, k: nat, mode: Mode)
    requires Ranked(g, rank, mode) && n in rank && g[n].kind == Loop && k <= |Followed(g[n])|
    ensures Added(g, rank, n, k, mode) == LoopTotal(Parts(g, rank, n, k, mode), Iterations(g[n]))
  {
    if k == 0 {
    } else {
      AddedByRole(g, rank, n, k - 1, mode);
      ShareExtends(g[n], g[Followed(g[n])[k - 1]], Parts(g, rank, n, k - 1, mode), WorkAt(g, rank, n, k - 1, mode));
    }
  }

  /** The workload of a loop without a stored value is that of one iteration times the iterations,
      plus the increments once, plus each condition once for each iteration and one test more. */
  lemma LoopWorkloadByIteration(g: seq<Node>, rank: map<nat, nat>, n: nat, mode: Mode)
    requires Ranked(g, rank, mode) && n in rank && g[n].kind == Loop && !IsStored(mode, n)
    ensures BodyRanked(g, rank, n)
    ensures var all, i := |g[n].children|, Iterations(g[n]);
            var s := Parts(g, rank, n, all, mode);
            Work(g, rank, n, mode) == BodyTotal(g, rank, n, all, mode) * i + s.increments + s.conditions * i + s.tests
  {
    LoopBodyRanked(g, rank, n, mode);
    AddedByRole(g, rank, n, |g[n].children|, mode);
    BodyIsPart(g, rank, n, |g[n].children|, mode);
  }
}
