/** What a workload is, told by the kinds and the blocks of the nodes. */
module WorkloadMeaning {
  import opened Collections
  import opened Workload

  // ----- Increments, conditions and the body -----------------------------------------------

  ghost predicate IsSubstring(part: string, text: string) {
    exists pre, post :: text == pre + part + post
  }

  lemma ContainsExactly(text: string, part: string)
    ensures Contains(text, part) <==> IsSubstring(part, text)
  {
    if i :| 0 <= i <= |text| && FoundAt(text, part, i) {
      assert text == text[..i] + part + text[i + |part|..];
    }
    if pre, post :| text == pre + part + post {
      assert FoundAt(text, part, |pre|);
    }
  }

  ghost predicate IsIncrement(child: Node) {
    child.kind == CU && IsSubstring("for.inc", child.block)
  }

  ghost predicate IsCondition(child: Node) {
    child.kind == CU && !IsSubstring("for.inc", child.block) && IsSubstring("for.cond", child.block)
  }

  /** A child that is no unit belongs to the body whatever its block. */
  ghost predicate IsOfBody(child: Node) {
    child.kind != CU || (!IsSubstring("for.inc", child.block) && !IsSubstring("for.cond", child.block))
  }

  lemma RoleMeans(child: Node)
    ensures RoleOf(child) == Increment <==> IsIncrement(child)
    ensures RoleOf(child) == Condition <==> IsCondition(child)
    ensures RoleOf(child) == Body <==> IsOfBody(child)
  {
    ContainsExactly(child.block, "for.inc");
    ContainsExactly(child.block, "for.cond");
  }

  /** Which nodes a computation goes on to: none from a stored value; all that a loop does not
      merely read; and without calls no others. */
  lemma ComputesMeans(g: seq<Node>, n: nat, k: nat, mode: Mode)
    requires Closed(g) && n < |g| && k < |Followed(g[n])|
    ensures Computes(g, n, k, mode) <==>
            && !(mode.With? && n in mode.stored)
            && if g[n].kind == Loop then !IsIncrement(g[g[n].children[k]]) else mode.With?
  {
    if g[n].kind == Loop {
      RoleMeans(g[g[n].children[k]]);
    }
  }

  // ----- Sums over nodes --------------------------------------------------------------------

  ghost predicate Targets(g: seq<Node>, ids: seq<nat>) {
    forall k :: 0 <= k < |ids| ==> ids[k] < |g|
  }

  ghost function Value(g: seq<Node>, rank: map<nat, nat>, m: nat, mode: Mode): int
    requires Ranked(g, rank, mode)
  {
    if m in rank then Work(g, rank, m, mode) else 0
  }

  ghost function TotalWork(g: seq<Node>, rank: map<nat, nat>, ids: seq<nat>, mode: Mode): int
    requires Ranked(g, rank, mode)
  {
    if ids == [] then 0
    else TotalWork(g, rank, ids[..|ids| - 1], mode) + Value(g, rank, ids[|ids| - 1], mode)
  }

  ghost function Conditions(g: seq<Node>, ids: seq<nat>): seq<nat>
    requires Targets(g, ids)
  {
    if ids == [] then []
    else
      var m := ids[|ids| - 1];
      Conditions(g, ids[..|ids| - 1]) + if IsCondition(g[m]) then [m] else []
  }

  ghost function BodyOf(g: seq<Node>, ids: seq<nat>): seq<nat>
    requires Targets(g, ids)
  {
    if ids == [] then []
    else
      var m := ids[|ids| - 1];
      BodyOf(g, ids[..|ids| - 1]) + if IsOfBody(g[m]) then [m] else []
  }

  ghost function IncrementInstructions(g: seq<Node>, ids: seq<nat>): int
    requires Targets(g, ids)
  {
    if ids == [] then 0
    else
      var m := ids[|ids| - 1];
      IncrementInstructions(g, ids[..|ids| - 1]) + if IsIncrement(g[m]) then g[m].instructions else 0
  }

  lemma TotalWorkGrows(g: seq<Node>, rank: map<nat, nat>, ids: seq<nat>, m: nat, mode: Mode)
    requires Ranked(g, rank, mode)
    ensures TotalWork(g, rank, ids + [m], mode) == TotalWork(g, rank, ids, mode) + Value(g, rank, m, mode)
  {
    assert (ids + [m])[..|ids|] == ids;
  }

  lemma SumsGrow(g: seq<Node>, rank: map<nat, nat>, ids: seq<nat>, m: nat, mode: Mode)
    requires Ranked(g, rank, mode) && Targets(g, ids) && m < |g|
    ensures Targets(g, ids + [m])
    ensures IncrementInstructions(g, ids + [m]) == IncrementInstructions(g, ids) + if IsIncrement(g[m]) then g[m].instructions else 0
    ensures var v := Value(g, rank, m, mode);
            && TotalWork(g, rank, BodyOf(g, ids + [m]), mode)
            == TotalWork(g, rank, BodyOf(g, ids), mode) + (if IsOfBody(g[m]) then v else 0)
            && TotalWork(g, rank, Conditions(g, ids + [m]), mode)
            == TotalWork(g, rank, Conditions(g, ids), mode) + if IsCondition(g[m]) then v else 0
    ensures |Conditions(g, ids + [m])| == |Conditions(g, ids)| + if IsCondition(g[m]) then 1 else 0
  {
    assert (ids + [m])[..|ids|] == ids;
    TotalWorkGrows(g, rank, BodyOf(g, ids), m, mode);
    TotalWorkGrows(g, rank, Conditions(g, ids), m, mode);
    if !IsOfBody(g[m]) {
      assert BodyOf(g, ids + [m]) == BodyOf(g, ids);
    }
    if !IsCondition(g[m]) {
      assert Conditions(g, ids + [m]) == Conditions(g, ids);
    }
  }

  // ----- Every kind of node -----------------------------------------------------------------

  lemma FollowedAreTargets(g: seq<Node>, n: nat)
    requires Closed(g) && n < |g|
    ensures Targets(g, Followed(g[n]))
  {}

  lemma WorkAtMeans(g: seq<Node>, rank: map<nat, nat>, n: nat, k: nat, mode: Mode)
    requires Ranked(g, rank, mode) && n in rank && k < |Followed(g[n])| && Computes(g, n, k, mode)
    ensures WorkAt(g, rank, n, k, mode) == Value(g, rank, Followed(g[n])[k], mode)
  {
    assert Followed(g[n])[k] == Next(g, rank, n, k, mode);
  }

  lemma ExtendedMeans(s: Sums, next: Node, w: int, v: int)
    requires IsIncrement(next) || w == v
    ensures Extended(s, next, w) ==
            Sums(s.body + (if IsOfBody(next) then v else 0), s.increments + (if IsIncrement(next) then next.instructions else 0),
                 s.conditions + (if IsCondition(next) then v else 0), s.tests + if IsCondition(next) then 1 else 0)
  {
    RoleMeans(next);
  }

  /** What `ids` sum to, by what they are to a loop. */
  ghost function SumsOver(g: seq<Node>, rank: map<nat, nat>, ids: seq<nat>, mode: Mode): Sums
    requires Ranked(g, rank, mode) && Targets(g, ids)
  {
    Sums(TotalWork(g, rank, BodyOf(g, ids), mode), IncrementInstructions(g, ids),
         TotalWork(g, rank, Conditions(g, ids), mode), |Conditions(g, ids)|)
  }

  lemma ExtendedSums(g: seq<Node>, rank: map<nat, nat>, ids: seq<nat>, m: nat, w: int, mode: Mode)
    requires Ranked(g, rank, mode) && Targets(g, ids) && m < |g| && (IsIncrement(g[m]) || w == Value(g, rank, m, mode))
    ensures Targets(g, ids + [m])
    ensures Extended(SumsOver(g, rank, ids, mode), g[m], w) == SumsOver(g, rank, ids + [m], mode)
  {
    SumsGrow(g, rank, ids, m, mode);
    ExtendedMeans(SumsOver(g, rank, ids, mode), g[m], w, Value(g, rank, m, mode));
  }

  lemma PartsGrow(g: seq<Node>, rank: map<nat, nat>, n: nat, k: nat, mode: Mode)
    requires Ranked(g, rank, mode) && n in rank && k < |Followed(g[n])|
    ensures Parts(g, rank, n, k + 1, mode) ==
            Extended(Parts(g, rank, n, k, mode), g[Followed(g[n])[k]], WorkAt(g, rank, n, k, mode))
  {}

  lemma LoopWorkAt(g: seq<Node>, rank: map<nat, nat>, n: nat, k: nat, mode: Mode)
    requires Ranked(g, rank, mode) && n in rank && g[n].kind == Loop && !IsStored(mode, n) && k < |Followed(g[n])|
    ensures var m := Followed(g[n])[k];
            IsIncrement(g[m]) || WorkAt(g, rank, n, k, mode) == Value(g, rank, m, mode)
  {
    ComputesMeans(g, n, k, mode);
    if Computes(g, n, k, mode) {
      WorkAtMeans(g, rank, n, k, mode);
    }
  }

  lemma PartsStep(g: seq<Node>, rank: map<nat, nat>, n: nat, ids: seq<nat>, m: nat, mode: Mode)
    requires Ranked(g, rank, mode) && n in rank && g[n].kind == Loop && !IsStored(mode, n)
    requires ids + [m] <= Followed(g[n]) && Targets(g, ids)
    requires Parts(g, rank, n, |ids|, mode) == SumsOver(g, rank, ids, mode)
    ensures Targets(g, ids + [m])
    ensures Parts(g, rank, n, |ids + [m]|, mode) == SumsOver(g, rank, ids + [m], mode)
  {
    assert Followed(g[n])[|ids|] == m;
    PartsGrow(g, rank, n, |ids|, mode);
    LoopWorkAt(g, rank, n, |ids|, mode);
    ExtendedSums(g, rank, ids, m, WorkAt(g, rank, n, |ids|, mode), mode);
  }

  lemma Unextended(g: seq<Node>, ids: seq<nat>, front: seq<nat>, m: nat)
    requires Targets(g, ids) && ids != [] && front == ids[..|ids| - 1] && m == ids[|ids| - 1]
    ensures Targets(g, front) && ids == front + [m]
  {}

  /** The sums of a loop's parts are those over its conditions, its body and its increments. */
  lemma {:induction false} PartsMean(g: seq<Node>, rank: map<nat, nat>, n: nat, ids: seq<nat>, mode: Mode)
    requires Ranked(g, rank, mode) && n in rank && g[n].kind == Loop && !IsStored(mode, n)
    requires ids <= Followed(g[n]) && Targets(g, ids)
    ensures Parts(g, rank, n, |ids|, mode) == SumsOver(g, rank, ids, mode)
  {
    if ids == [] {
    } else {
      var front, m := ids[..|ids| - 1], ids[|ids| - 1];
      Unextended(g, ids, front, m);
      PartsMean(g, rank, n, front, mode);
      PartsStep(g, rank, n, front, m, mode);
    }
  }

  /** A unit's calls replace their call instructions. */
  function CallInstructions(node: Node, k: nat): nat {
    if node.kind == CU then k else 0
  }

  lemma AddedMore(g: seq<Node>, rank: map<nat, nat>, n: nat, k: nat, mode: Mode)
    requires Ranked(g, rank, mode) && n in rank && g[n].kind != Loop && mode.With? && !IsStored(mode, n)
    requires k < |Followed(g[n])|
    ensures Added(g, rank, n, k + 1, mode) ==
            Added(g, rank, n, k, mode) + Value(g, rank, Followed(g[n])[k], mode) - CallInstructions(g[n], 1)
  {
    WorkAtMeans(g, rank, n, k, mode);
    AddedStep(g, rank, n, k, mode);
  }

  lemma {:induction false} AddedMeans(g: seq<Node>, rank: map<nat, nat>, n: nat, ids: seq<nat>, mode: Mode)
    requires Ranked(g, rank, mode) && n in rank && g[n].kind != Loop && mode.With? && !IsStored(mode, n)
    requires ids <= Followed(g[n])
    ensures Added(g, rank, n, |ids|, mode) == TotalWork(g, rank, ids, mode) - CallInstructions(g[n], |ids|)
  {
    if ids == [] {
    } else {
      var k := |ids| - 1;
      AddedMeans(g, rank, n, ids[..k], mode);
      AddedMore(g, rank, n, k, mode);
    }
  }

  lemma LoopTotalMeans(s: Sums, times: int)
    ensures LoopTotal(s, times) == s.increments + times * s.conditions + s.tests + times * s.body
  {
    assert s.body * times == times * s.body && s.conditions * times == times * s.conditions;
  }

  /** The workload of a loop: its increments once, its conditions and its body as often as the
      profiled program went round it, and one more for each condition. Where there is no profile,
      the iterations of the loop take its place. */
  lemma LoopWorkload(g: seq<Node>, rank: map<nat, nat>, n: nat, times: int, mode: Mode)
    requires Ranked(g, rank, mode) && n in rank && g[n].kind == Loop && !(mode.With? && n in mode.stored)
    requires times == match g[n].average case Some(average) => average case None => g[n].iterations
    ensures Targets(g, g[n].children)
    ensures var ids := g[n].children;
            Work(g, rank, n, mode) == IncrementInstructions(g, ids)
                                    + times * TotalWork(g, rank, Conditions(g, ids), mode) + |Conditions(g, ids)|
                                    + times * TotalWork(g, rank, BodyOf(g, ids), mode)
  {
    var ids := g[n].children;
    assert Followed(g[n]) == ids;
    FollowedAreTargets(g, n);
    AddedByRole(g, rank, n, |ids|, mode);
    LoopTotalMeans(Parts(g, rank, n, |ids|, mode), times);
    PartsMean(g, rank, n, ids, mode);
  }

  /** The value of every other node. */
  lemma PlainWorkload(g: seq<Node>, rank: map<nat, nat>, n: nat, mode: Mode)
    requires Ranked(g, rank, mode) && n in rank
    requires g[n].kind == Loop ==> mode.With? && n in mode.stored
    ensures Work(g, rank, n, mode) ==
            if mode.With? && n in mode.stored then mode.stored[n]
            else match g[n].kind
                 case CU => g[n].instructions + (if mode.With? then TotalWork(g, rank, g[n].calls, mode) - |g[n].calls| else 0)
                 case Function => if mode.With? then TotalWork(g, rank, g[n].children, mode) else 0
                 case _ => 0
  {
    var ids := Followed(g[n]);
    if mode.With? && n !in mode.stored {
      AddedMeans(g, rank, n, ids, mode);
    }
  }

  lemma BodyTotalStep(g: seq<Node>, rank: map<nat, nat>, n: nat, ids: seq<nat>, m: nat, mode: Mode)
    requires Ranked(g, rank, mode) && n < |g| && BodyRanked(g, rank, n) && ids + [m] <= Followed(g[n]) && Targets(g, ids)
    requires BodyTotal(g, rank, n, |ids|, mode) == TotalWork(g, rank, BodyOf(g, ids), mode)
    ensures Targets(g, ids + [m])
    ensures BodyTotal(g, rank, n, |ids + [m]|, mode) == TotalWork(g, rank, BodyOf(g, ids + [m]), mode)
  {
    assert Followed(g[n])[|ids|] == m;
    RoleMeans(g[m]);
    SumsGrow(g, rank, ids, m, mode);
  }

  lemma {:induction false} BodyTotalGrows(g: seq<Node>, rank: map<nat, nat>, n: nat, ids: seq<nat>, mode: Mode)
    requires Ranked(g, rank, mode) && n < |g| && BodyRanked(g, rank, n) && ids <= Followed(g[n]) && Targets(g, ids)
    ensures BodyTotal(g, rank, n, |ids|, mode) == TotalWork(g, rank, BodyOf(g, ids), mode)
  {
    if ids == [] {
    } else {
      var front, m := ids[..|ids| - 1], ids[|ids| - 1];
      Unextended(g, ids, front, m);
      BodyTotalGrows(g, rank, n, front, mode);
      BodyTotalStep(g, rank, n, front, m, mode);
    }
  }

  /** What one iteration adds up is the workloads of the body. */
  lemma IterationWorkload(g: seq<Node>, rank: map<nat, nat>, n: nat, mode: Mode)
    requires Ranked(g, rank, mode) && n < |g| && g[n].kind == Loop && BodyRanked(g, rank, n)
    ensures Targets(g, g[n].children)
    ensures BodyTotal(g, rank, n, |g[n].children|, mode) == TotalWork(g, rank, BodyOf(g, g[n].children), mode)
  {
    var ids := g[n].children;
    assert Followed(g[n]) == ids;
    FollowedAreTargets(g, n);
    BodyTotalGrows(g, rank, n, ids, mode);
  }

  // ----- An example -------------------------------------------------------------------------

  function CountingLoop(): seq<Node> {
    [ Node(Loop, 0, "", [], [1, 2, 3], 10, Some(10)),
      Node(CU, 2, "for.cond", [], [], -1, None),
      Node(CU, 1, "for.inc", [], [], -1, None),
      Node(CU, 5, "for.body", [], [], -1, None)]
  }

  lemma UnitsOfCountingLoop()
    ensures var g := CountingLoop();
            Workload.Closed(g) && RoleOf(g[1]) == Condition && RoleOf(g[2]) == Increment && RoleOf(g[3]) == Body
  {
    var cond, body := "for.cond", "for.body";
    assert FoundAt(cond, "for.cond", 0) && FoundAt("for.inc", "for.inc", 0);
    forall i | 0 <= i <= 8 ensures !FoundAt(cond, "for.inc", i) {
      assert i + 7 <= 8 ==> cond[i..i + 7][4] == cond[i + 4];
    }
    forall i | 0 <= i <= 8 ensures !FoundAt(body, "for.inc", i) && !FoundAt(body, "for.cond", i) {
      assert i + 7 <= 8 ==> body[i..i + 7][4] == body[i + 4];
      assert i + 8 <= 8 ==> body[i..i + 8][4] == body[i + 4];
    }
  }

  /** Ten iterations of two and five instructions, one increment and one test more. */
  method CountingLoopWorkload() returns (p: ProgramGraph, w: int)
    ensures fresh(p) && p.nodes == CountingLoop() && w == 72
  {
    p := new ProgramGraph(CountingLoop());
    UnitsOfCountingLoop();
    ghost var g, rank: map<nat, nat>, mode := p.nodes, map[0 := 1, 1 := 0, 2 := 0, 3 := 0], With(map[]);
    assert Followed(g[0]) == [1, 2, 3] && Followed(g[1]) == [] && Followed(g[2]) == [] && Followed(g[3]) == [];
    assert forall n :: n in rank ==> Falls(g, rank, n, mode);
    w := p.CalculateWorkload(0, false, rank, map[]);
    CountingLoopAdds(rank);
  }

  lemma CountingLoopAdds(rank: map<nat, nat>)
    requires Ranked(CountingLoop(), rank, With(map[])) && 0 in rank
    ensures Work(CountingLoop(), rank, 0, With(map[])) == 72
  {
    UnitsOfCountingLoop();
    var g, mode := CountingLoop(), With(map[]);
    assert Computes(g, 0, 0, mode) && Next(g, rank, 0, 0, mode) == 1 && Added(g, rank, 1, 0, mode) == 0;
    assert Computes(g, 0, 2, mode) && Next(g, rank, 0, 2, mode) == 3 && Added(g, rank, 3, 0, mode) == 0;
    assert WorkAt(g, rank, 0, 0, mode) == 2;
    assert WorkAt(g, rank, 0, 2, mode) == 5;
    AddedStep(g, rank, 0, 0, mode);
    AddedStep(g, rank, 0, 1, mode);
    AddedStep(g, rank, 0, 2, mode);
    assert Added(g, rank, 0, 0, mode) == 0;
  }
}
