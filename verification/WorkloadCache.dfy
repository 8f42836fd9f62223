/** When the workload's recursion ends, and what computations in both modes do to the cache. */
module WorkloadCache {
  import opened Collections
  import opened Recursion
  import opened Workload

  // ----- When the recursion ends ------------------------------------------------------------

  /** For every node the nodes that computing it computes; nothing for one that is stored. */
  ghost function Computed(g: seq<Node>, mode: Mode): (calls: Calls)
    requires Workload.Closed(g)
    ensures |calls| == |g| && Recursion.Closed(calls)
  {
    seq(|g|, n requires 0 <= n < |g| => ComputedBy(g, n, mode))
  }

  ghost function ComputedBy(g: seq<Node>, n: nat, mode: Mode): (ms: set<nat>)
    requires Workload.Closed(g) && n < |g|
    ensures forall m :: m in ms ==> m < |g|
  {
    set k | 0 <= k < |Followed(g[n])| && Computes(g, n, k, mode) :: Followed(g[n])[k]
  }

  lemma RankedIsRanking(g: seq<Node>, rank: map<nat, nat>, mode: Mode)
    requires Workload.Closed(g)
    ensures Ranked(g, rank, mode) <==> Ranking(Computed(g, mode), rank)
  {
    forall n | n in rank && n < |g|
      ensures Falls(g, rank, n, mode) <==> forall m :: m in ComputedBy(g, n, mode) ==> m in rank && rank[m] < rank[n]
    {
      forall k | 0 <= k < |Followed(g[n])| && Computes(g, n, k, mode)
        ensures Followed(g[n])[k] in ComputedBy(g, n, mode) {}
    }
  }

  /** With any values stored, the recursion ends if and only if no node without one that is
      computed on the way computes itself again; and then, and only then, there is a ranking. */
  lemma RecursionEndsExactly(g: seq<Node>, n: nat, mode: Mode)
    requires Workload.Closed(g) && n < |g|
    ensures EndsAtAll(Computed(g, mode), n) <==> !CycleBelow(Computed(g, mode), n)
    ensures EndsAtAll(Computed(g, mode), n) <==> exists rank :: Ranked(g, rank, mode) && n in rank
  {
    EndsExactly(Computed(g, mode), n);
    forall rank ensures Ranked(g, rank, mode) <==> Ranking(Computed(g, mode), rank) {
      RankedIsRanking(g, rank, mode);
    }
  }

  /** What a node's workload is wherever the recursion ends. */
  ghost function WorkloadOf(g: seq<Node>, n: nat, mode: Mode): int
    requires Workload.Closed(g) && n < |g| && EndsAtAll(Computed(g, mode), n)
  {
    DepthsRanked(g, mode);
    Work(g, Depths(Computed(g, mode)), n, mode)
  }

  lemma DepthsRanked(g: seq<Node>, mode: Mode)
    requires Workload.Closed(g)
    ensures Ranked(g, Depths(Computed(g, mode)), mode)
    ensures forall n :: n in Depths(Computed(g, mode)) <==> 0 <= n < |g| && EndsAtAll(Computed(g, mode), n)
  {
    DepthsRank(Computed(g, mode));
    RankedIsRanking(g, Depths(Computed(g, mode)), mode);
  }

  /** Which ranking shows that the recursion ends makes no difference. */
  lemma {:induction false} AnyRanking(g: seq<Node>, r: map<nat, nat>, s: map<nat, nat>, n: nat, k: nat, mode: Mode)
    requires Ranked(g, r, mode) && Ranked(g, s, mode) && n in r && n in s && k <= |Followed(g[n])|
    ensures IsStored(mode, n) || Added(g, r, n, k, mode) == Added(g, s, n, k, mode)
    ensures k == |Followed(g[n])| ==> Work(g, r, n, mode) == Work(g, s, n, mode)
    decreases r[n], k
  {
    if k == 0 || IsStored(mode, n) {
    } else {
      AnyRanking(g, r, s, n, k - 1, mode);
      if Computes(g, n, k - 1, mode) {
        var m := Next(g, r, n, k - 1, mode);
        assert m == Next(g, s, n, k - 1, mode);
        AnyRanking(g, r, s, m, |Followed(g[m])|, mode);
      }
    }
  }

  lemma WorkIsWorkload(g: seq<Node>, rank: map<nat, nat>, n: nat, mode: Mode)
    requires Ranked(g, rank, mode) && n in rank
    ensures EndsAtAll(Computed(g, mode), n) && Work(g, rank, n, mode) == WorkloadOf(g, n, mode)
  {
    RecursionEndsExactly(g, n, mode);
    DepthsRanked(g, mode);
    AnyRanking(g, rank, Depths(Computed(g, mode)), n, |Followed(g[n])|, mode);
  }

  // ----- A whole computation, from any cache --------------------------------------------------

  /** Everything stored since the start is the workload of its node. */
  ghost predicate StoredSince(g: seq<Node>, start: map<nat, int>, now: map<nat, int>)
    requires Workload.Closed(g)
  {
    && (forall m :: m in start ==> m in now && now[m] == start[m])
    && forall m :: m in now && m !in start ==>
         m < |g| && EndsAtAll(Computed(g, With(start)), m) && now[m] == WorkloadOf(g, m, With(start))
  }

  /** Whatever is stored, right or wrong: where the recursion ends, the value returned is the
      workload that takes the stored values as given, and so is everything stored on the way. */
  method CalculateFromCache(p: ProgramGraph, n: nat) returns (res: int)
    requires Workload.Closed(p.nodes) && n < |p.nodes| && !CycleBelow(Computed(p.nodes, With(p.workload)), n)
    modifies p`workload
    ensures EndsAtAll(Computed(p.nodes, With(old(p.workload))), n)
    ensures res == WorkloadOf(p.nodes, n, With(old(p.workload)))
    ensures StoredSince(p.nodes, old(p.workload), p.workload) && n in p.workload && p.workload[n] == res
  {
    ghost var start := p.workload;
    ghost var rank := Depths(Computed(p.nodes, With(start)));
    EndsExactly(Computed(p.nodes, With(start)), n);
    DepthsRanked(p.nodes, With(start));
    res := p.CalculateWorkload(n, false, rank, start);
    forall m | m in p.workload && m !in start
      ensures m < |p.nodes| && EndsAtAll(Computed(p.nodes, With(start)), m)
      ensures p.workload[m] == WorkloadOf(p.nodes, m, With(start))
    {
      WorkIsWorkload(p.nodes, rank, m, With(start));
    }
  }

  /** What is stored on the way changes nothing about which recursions end. */
  lemma StoringOnTheWay(g: seq<Node>, start: map<nat, int>, now: map<nat, int>, n: nat)
    requires Workload.Closed(g) && n < |g| && StoredSince(g, start, now)
    ensures EndsAtAll(Computed(g, With(now)), n) <==> EndsAtAll(Computed(g, With(start)), n)
  {
    var stops := now.Keys - start.Keys;
    CutEndsAlike(Computed(g, With(start)), stops, n);
    assert Cut(Computed(g, With(start)), stops) == Computed(g, With(now)) by {
      forall m | 0 <= m < |g| ensures Cut(Computed(g, With(start)), stops)[m] == Computed(g, With(now))[m] {
        StoredStops(g, start, now, m);
      }
    }
  }

  lemma StoredStops(g: seq<Node>, start: map<nat, int>, now: map<nat, int>, m: nat)
    requires Workload.Closed(g) && m < |g| && start.Keys <= now.Keys
    ensures ComputedBy(g, m, With(now)) == if m in now.Keys - start.Keys then {} else ComputedBy(g, m, With(start))
  {
    forall k | 0 <= k < |Followed(g[m])|
      ensures Computes(g, m, k, With(now)) <==> m !in now.Keys - start.Keys && Computes(g, m, k, With(start)) {}
  }

  // ----- With a cache that is right -----------------------------------------------------------

  /** Nothing stored. */
  const NOTHING: Mode := With(map[])

  /** Every stored value is the workload of its node, computed from nothing. */
  ghost predicate Right(g: seq<Node>, cache: map<nat, int>)
    requires Workload.Closed(g)
  {
    StoredSince(g, map[], cache)
  }

  lemma FewerRecursions(g: seq<Node>, rank: map<nat, nat>, mode: Mode)
    requires Ranked(g, rank, NOTHING)
    ensures Ranked(g, rank, mode)
  {
    forall n | n in rank ensures Falls(g, rank, n, mode) {
      assert Falls(g, rank, n, NOTHING);
    }
  }

  /** Every value stored for a ranked node is its workload. */
  ghost predicate Sound(g: seq<Node>, rank: map<nat, nat>, cache: map<nat, int>)
    requires Ranked(g, rank, NOTHING)
  {
    forall m :: m in cache && m in rank ==> cache[m] == Work(g, rank, m, NOTHING)
  }

  /** Taking right values as given makes no difference. */
  lemma {:induction false} SoundValuesWillDo(g: seq<Node>, rank: map<nat, nat>, n: nat, cache: map<nat, int>)
    requires Ranked(g, rank, NOTHING) && Ranked(g, rank, With(cache)) && Sound(g, rank, cache) && n in rank
    ensures Work(g, rank, n, With(cache)) == Work(g, rank, n, NOTHING)
    decreases rank[n], |Followed(g[n])| + 1
  {
    if n in cache {
    } else {
      SoundValuesAdd(g, rank, n, |Followed(g[n])|, cache);
    }
  }

  lemma {:induction false} SoundValuesAdd(g: seq<Node>, rank: map<nat, nat>, n: nat, k: nat, cache: map<nat, int>)
    requires Ranked(g, rank, NOTHING) && Ranked(g, rank, With(cache)) && Sound(g, rank, cache)
    requires n in rank && n !in cache && k <= |Followed(g[n])|
    ensures Added(g, rank, n, k, With(cache)) == Added(g, rank, n, k, NOTHING)
    decreases rank[n], k
  {
    if k == 0 {
    } else {
      SoundValuesAdd(g, rank, n, k - 1, cache);
      assert Computes(g, n, k - 1, With(cache)) <==> Computes(g, n, k - 1, NOTHING);
      if Computes(g, n, k - 1, NOTHING) {
        SoundValuesWillDo(g, rank, Next(g, rank, n, k - 1, NOTHING), cache);
      }
      SameAt(g, rank, n, k - 1, With(cache), NOTHING);
    }
  }

  /** What is computed alike adds alike. */
  lemma SameAt(g: seq<Node>, rank: map<nat, nat>, n: nat, k: nat, mode: Mode, other: Mode)
    requires Ranked(g, rank, mode) && Ranked(g, rank, other) && n in rank && k < |Followed(g[n])|
    requires Computes(g, n, k, mode) <==> Computes(g, n, k, other)
    requires Computes(g, n, k, mode) ==> Work(g, rank, Followed(g[n])[k], mode) == Work(g, rank, Followed(g[n])[k], other)
    requires Added(g, rank, n, k, mode) == Added(g, rank, n, k, other)
    ensures Added(g, rank, n, k + 1, mode) == Added(g, rank, n, k + 1, other)
  {
    AddedStep(g, rank, n, k, mode);
    AddedStep(g, rank, n, k, other);
  }

  lemma RightIsSound(g: seq<Node>, rank: map<nat, nat>, cache: map<nat, int>)
    requires Ranked(g, rank, NOTHING) && Right(g, cache)
    ensures Sound(g, rank, cache)
  {
    forall m | m in cache && m in rank ensures cache[m] == Work(g, rank, m, NOTHING) {
      WorkIsWorkload(g, rank, m, NOTHING);
    }
  }

  /** From a right cache the computation ends where it would from nothing, and gives the same; so
      the cache stays right. */
  lemma RightCacheWillDo(g: seq<Node>, cache: map<nat, int>, n: nat)
    requires Workload.Closed(g) && n < |g| && Right(g, cache)
    ensures EndsAtAll(Computed(g, With(cache)), n) <==> EndsAtAll(Computed(g, NOTHING), n)
    ensures EndsAtAll(Computed(g, NOTHING), n) ==> WorkloadOf(g, n, With(cache)) == WorkloadOf(g, n, NOTHING)
  {
    StoringOnTheWay(g, map[], cache, n);
    if EndsAtAll(Computed(g, NOTHING), n) {
      var rank := Depths(Computed(g, NOTHING));
      DepthsRanked(g, NOTHING);
      FewerRecursions(g, rank, With(cache));
      RightIsSound(g, rank, cache);
      SoundValuesWillDo(g, rank, n, cache);
      WorkIsWorkload(g, rank, n, With(cache));
    }
  }

  lemma RightStaysRight(g: seq<Node>, cache: map<nat, int>, now: map<nat, int>)
    requires Workload.Closed(g) && Right(g, cache) && StoredSince(g, cache, now)
    ensures Right(g, now)
  {
    forall m | m in now
      ensures m < |g| && EndsAtAll(Computed(g, NOTHING), m) && now[m] == WorkloadOf(g, m, NOTHING)
    {
      if m !in cache {
        RightCacheWillDo(g, cache, m);
      }
    }
  }

  // ----- Recursive programs --------------------------------------------------------------------

  /** A function, and its one unit, which calls the function. */
  function RecursiveFunction(): seq<Node> {
    [Node(Function, 0, "", [], [1], -1, None), Node(CU, 3, "entry", [0], [], -1, None)]
  }

  lemma UnitAndFunction(mode: Mode)
    ensures var g := RecursiveFunction();
            Workload.Closed(g) && forall n :: 0 <= n < 2 ==>
              ComputedBy(g, n, mode) == if mode.CallFree? || IsStored(mode, n) then {} else {1 - n}
  {
    var g := RecursiveFunction();
    assert Workload.Closed(g);
    forall n | 0 <= n < 2
      ensures ComputedBy(g, n, mode) == if mode.CallFree? || IsStored(mode, n) then {} else {1 - n}
    {
      assert |Followed(g[n])| == 1 && Followed(g[n])[0] == 1 - n;
      assert Computes(g, n, 0, mode) <==> !(mode.CallFree? || IsStored(mode, n));
      if Computes(g, n, 0, mode) {
        assert Followed(g[n])[0] in ComputedBy(g, n, mode);
      }
    }
  }

  lemma TwoNodesEndExactly(calls: Calls, n: nat)
    requires n < 2 == |calls| && calls[n] <= {1 - n} && calls[1 - n] <= {n}
    ensures Recursion.Closed(calls)
    ensures EndsAtAll(calls, n) <==> calls[0] == {} || calls[1] == {}
  {
    EndsExactly(calls, n);
    if calls[n] == {} {
      assert Ends(calls, n, 1);
    } else if calls[1 - n] == {} {
      assert Ends(calls, 1 - n, 1);
      assert Ends(calls, n, 2);
    } else {
      assert 1 - n in calls[n] && n in calls[1 - n];
      OneStep(calls, n, 1 - n);
      OneStep(calls, 1 - n, n);
      PathConcat(calls, n, 1 - n, n, 1, 1);
      assert Path(calls, n, n, 0);
      assert Reaches(calls, n, n) && ReachesBelow(calls, n, n);
    }
  }

  /** With neither stored, the recursive call does not count as the one instruction but is followed
      again and again. A stored value for either, or ignoring calls, ends that. */
  lemma RecursiveFunctionEndsExactly(n: nat, mode: Mode)
    requires n < 2
    ensures var g := RecursiveFunction();
            Workload.Closed(g) &&
            (EndsAtAll(Computed(g, mode), n) <==> mode.CallFree? || IsStored(mode, 0) || IsStored(mode, 1))
  {
    UnitAndFunction(mode);
    TwoNodesEndExactly(Computed(RecursiveFunction(), mode), n);
  }

  /** Computing the unit with calls ignored stores 3; computing the function then returns 3. */
  method StoredUnitEndsRecursion() returns (p: ProgramGraph, w: int)
    ensures fresh(p) && p.nodes == RecursiveFunction() && w == 3
  {
    p := new ProgramGraph(RecursiveFunction());
    UnitAndFunction(CallFree);
    ghost var alone: map<nat, nat> := map[1 := 0];
    assert Ranked(p.nodes, alone, CallFree);
    var unit := p.CalculateWorkload(1, true, alone, map[]);
    NothingVisitedBelow(p.nodes, alone, 1, 1);
    assert p.workload == map[1 := 3];
    ghost var rank: map<nat, nat> := map[0 := 1, 1 := 0];
    UnitIsStored();
    w := p.CalculateWorkload(0, false, rank, p.workload);
  }

  lemma UnitIsStored()
    ensures var g, rank, mode := RecursiveFunction(), map[0 := 1, 1 := 0], With(map[1 := 3]);
            Ranked(g, rank, mode) && Work(g, rank, 0, mode) == 3
  {
    var g, rank, mode := RecursiveFunction(), map[0 := 1, 1 := 0], With(map[1 := 3]);
    UnitAndFunction(mode);
    assert Falls(g, rank, 0, mode) && Falls(g, rank, 1, mode);
    assert Next(g, rank, 0, 0, mode) == 1;
    assert Added(g, rank, 0, 1, mode) == Added(g, rank, 0, 0, mode) + Share(g[0], g[1], 3);
  }
}
