/** When a recursion over the nodes of a graph ends. */
module Recursion {

  /** For every node the nodes that it recurses into. */
  type Calls = seq<set<nat>>

  ghost predicate Closed(g: Calls) {
    forall n, m :: 0 <= n < |g| && m in g[n] ==> m < |g|
  }

  /** From `n` the recursion is at most `depth` calls deep. */
  ghost predicate Ends(g: Calls, n: nat, depth: nat)
    requires Closed(g) && n < |g|
    decreases depth
  {
    depth > 0 && forall m :: m in g[n] ==> Ends(g, m, depth - 1)
  }

  ghost predicate EndsAtAll(g: Calls, n: nat)
    requires Closed(g) && n < |g|
  {
    exists depth :: Ends(g, n, depth)
  }

  /** Some ranking of nodes falls with every call. */
  ghost predicate Ranking(g: Calls, rank: map<nat, nat>) {
    forall n :: n in rank ==> n < |g| && forall m :: m in g[n] ==> m in rank && rank[m] < rank[n]
  }

  /** `length` calls lead from `n` to `m`. */
  ghost predicate Path(g: Calls, n: nat, m: nat, length: nat)
    requires Closed(g) && n < |g|
    decreases length
  {
    if length == 0 then n == m else exists c :: c in g[n] && Path(g, c, m, length - 1)
  }

  ghost predicate Reaches(g: Calls, n: nat, m: nat)
    requires Closed(g) && n < |g|
  {
    exists length :: Path(g, n, m, length)
  }

  ghost predicate ReachesBelow(g: Calls, n: nat, m: nat)
    requires Closed(g) && n < |g|
  {
    exists length :: length > 0 && Path(g, n, m, length)
  }

  /** `n` reaches a node that reaches itself again. */
  ghost predicate CycleBelow(g: Calls, n: nat)
    requires Closed(g) && n < |g|
  {
    exists m :: 0 <= m < |g| && Reaches(g, n, m) && ReachesBelow(g, m, m)
  }

  // ----- With a cycle it never ends ----------------------------------------------------

  lemma {:induction false} PathConcat(g: Calls, n: nat, m: nat, l: nat, i: nat, j: nat)
    requires Closed(g) && n < |g| && m < |g| && Path(g, n, m, i) && Path(g, m, l, j)
    ensures Path(g, n, l, i + j)
    decreases i
  {
    if i == 0 {
    } else {
      var c :| c in g[n] && Path(g, c, m, i - 1);
      PathConcat(g, c, m, l, i - 1, j);
      assert Path(g, c, l, i + j - 1);
    }
  }

  /** A path is shorter than the recursion is deep. */
  lemma {:induction false} PathFits(g: Calls, n: nat, m: nat, length: nat, depth: nat)
    requires Closed(g) && n < |g| && Ends(g, n, depth) && Path(g, n, m, length)
    ensures length < depth
    decreases length
  {
    if length == 0 {
    } else {
      var c :| c in g[n] && Path(g, c, m, length - 1);
      PathFits(g, c, m, length - 1, depth - 1);
    }
  }

  /** Going round a cycle often enough makes a path of any length. */
  lemma {:induction false} RoundAndRound(g: Calls, m: nat, j: nat, rounds: nat) returns (length: nat)
    requires Closed(g) && m < |g| && j > 0 && Path(g, m, m, j)
    ensures length >= rounds && Path(g, m, m, length)
    decreases rounds
  {
    if rounds == 0 {
      length := 0;
    } else {
      length := RoundAndRound(g, m, j, rounds - 1);
      PathConcat(g, m, m, m, length, j);
      length := length + j;
    }
  }

  lemma CycleNeverEnds(g: Calls, n: nat, depth: nat)
    requires Closed(g) && n < |g| && CycleBelow(g, n)
    ensures !Ends(g, n, depth)
  {
    var m: nat :| m < |g| && Reaches(g, n, m) && ReachesBelow(g, m, m);
    var i: nat :| Path(g, n, m, i);
    var j: nat :| j > 0 && Path(g, m, m, j);
    var length := RoundAndRound(g, m, j, depth);
    PathConcat(g, n, m, m, i, length);
    if Ends(g, n, depth) {
      PathFits(g, n, m, i + length, depth);
    }
  }

  // ----- Without one it ends -------------------------------------------------------------

  function Nodes(size: nat): (all: set<nat>)
    ensures forall n: nat :: n in all <==> n < size
    ensures |all| == size
  {
    if size == 0 then {} else Nodes(size - 1) + {size - 1}
  }

  lemma {:induction false} SubsetSize(a: set<nat>, b: set<nat>)
    requires a <= b
    ensures |a| <= |b|
  {
    if a == {} {
    } else {
      var x :| x in a;
      SubsetSize(a - {x}, b - {x});
    }
  }

  /** The nodes `above` are the calls under way when `n` is called. */
  ghost predicate UnderWay(g: Calls, n: nat, above: set<nat>)
    requires Closed(g) && n < |g|
  {
    above <= Nodes(|g|) && forall m :: m in above ==> ReachesBelow(g, m, n)
  }

  lemma OneStep(g: Calls, n: nat, c: nat)
    requires Closed(g) && n < |g| && c in g[n]
    ensures Path(g, n, c, 1)
  {
    assert Path(g, c, c, 0);
  }

  lemma UnderWayBelow(g: Calls, n: nat, c: nat, above: set<nat>)
    requires Closed(g) && n < |g| && UnderWay(g, n, above) && c in g[n]
    ensures UnderWay(g, c, above + {n})
  {
    OneStep(g, n, c);
    forall m | m in above + {n} ensures ReachesBelow(g, m, c) {
      if m != n {
        var i: nat :| i > 0 && Path(g, m, n, i);
        PathConcat(g, m, n, c, i, 1);
      }
    }
  }

  lemma NoCycleFurtherDown(g: Calls, n: nat, c: nat)
    requires Closed(g) && n < |g| && c in g[n] && CycleBelow(g, c)
    ensures CycleBelow(g, n)
  {
    var m: nat :| m < |g| && Reaches(g, c, m) && ReachesBelow(g, m, m);
    var i: nat :| Path(g, c, m, i);
    OneStep(g, n, c);
    PathConcat(g, n, c, m, 1, i);
  }

  lemma NotUnderWayTwice(g: Calls, n: nat, above: set<nat>)
    requires Closed(g) && n < |g| && UnderWay(g, n, above) && !CycleBelow(g, n)
    ensures n !in above && |above + {n}| == |above| + 1 <= |g|
  {
    assert Path(g, n, n, 0);
    SubsetSize(above + {n}, Nodes(|g|));
  }

  /** Without a cycle the recursion is no deeper than there are nodes left. */
  lemma {:induction false} EndsWithoutCycle(g: Calls, n: nat, above: set<nat>)
    requires Closed(g) && n < |g| && UnderWay(g, n, above) && !CycleBelow(g, n)
    ensures |above| < |g| && Ends(g, n, |g| - |above|)
    decreases Nodes(|g|) - above
  {
    NotUnderWayTwice(g, n, above);
    forall c | c in g[n]
      ensures Ends(g, c, |g| - |above| - 1)
    {
      UnderWayBelow(g, n, c, above);
      if CycleBelow(g, c) {
        NoCycleFurtherDown(g, n, c);
      }
      EndsWithoutCycle(g, c, above + {n});
    }
  }

  // ----- And a ranking with it -----------------------------------------------------------

  lemma {:induction false} DeeperEnds(g: Calls, n: nat, depth: nat, deeper: nat)
    requires Closed(g) && n < |g| && Ends(g, n, depth) && depth <= deeper
    ensures Ends(g, n, deeper)
    decreases depth
  {
    forall m | m in g[n] ensures Ends(g, m, deeper - 1) {
      DeeperEnds(g, m, depth - 1, deeper - 1);
    }
  }

  ghost predicate LeastDepth(g: Calls, n: nat, depth: nat)
    requires Closed(g) && n < |g|
  {
    Ends(g, n, depth) && depth > 0 && !Ends(g, n, depth - 1)
  }

  lemma {:induction false} LeastDepthExists(g: Calls, n: nat, depth: nat) returns (least: nat)
    requires Closed(g) && n < |g| && Ends(g, n, depth)
    ensures LeastDepth(g, n, least)
    decreases depth
  {
    least := depth;
    if Ends(g, n, depth - 1) {
      least := LeastDepthExists(g, n, depth - 1);
    }
  }

  ghost function DepthOf(g: Calls, n: nat): nat
    requires Closed(g) && n < |g|
  {
    if depth: nat :| LeastDepth(g, n, depth) then depth else 0
  }

  lemma DepthOfEnding(g: Calls, n: nat)
    requires Closed(g) && n < |g| && EndsAtAll(g, n)
    ensures LeastDepth(g, n, DepthOf(g, n))
  {
    var depth: nat :| Ends(g, n, depth);
    var _ := LeastDepthExists(g, n, depth);
  }

  lemma DepthFalls(g: Calls, n: nat, m: nat)
    requires Closed(g) && n < |g| && EndsAtAll(g, n) && m in g[n]
    ensures EndsAtAll(g, m) && DepthOf(g, m) < DepthOf(g, n)
  {
    DepthOfEnding(g, n);
    var depth := DepthOf(g, n);
    assert Ends(g, m, depth - 1);
    DepthOfEnding(g, m);
    if DepthOf(g, m) >= depth {
      DeeperEnds(g, m, depth - 1, DepthOf(g, m) - 1);
    }
  }

  ghost function Depths(g: Calls): map<nat, nat>
    requires Closed(g)
  {
    map n | n in Nodes(|g|) && EndsAtAll(g, n) :: DepthOf(g, n)
  }

  lemma DepthsRank(g: Calls)
    requires Closed(g)
    ensures Ranking(g, Depths(g))
  {
    forall n, m | n in Depths(g) && m in g[n] ensures m in Depths(g) && Depths(g)[m] < Depths(g)[n] {
      DepthFalls(g, n, m);
    }
  }

  lemma {:induction false} RankedEnds(g: Calls, rank: map<nat, nat>, n: nat)
    requires Closed(g) && Ranking(g, rank) && n in rank
    ensures Ends(g, n, rank[n] + 1)
    decreases rank[n]
  {
    forall m | m in g[n] ensures Ends(g, m, rank[n]) {
      RankedEnds(g, rank, m);
      DeeperEnds(g, m, rank[m] + 1, rank[n]);
    }
  }

  /** The recursion from `n` ends if and only if no node that it reaches reaches itself again;
      and if and only if there is a ranking. */
  lemma EndsExactly(g: Calls, n: nat)
    requires Closed(g) && n < |g|
    ensures EndsAtAll(g, n) <==> !CycleBelow(g, n)
    ensures EndsAtAll(g, n) <==> exists rank :: Ranking(g, rank) && n in rank
  {
    if CycleBelow(g, n) {
      forall depth ensures !Ends(g, n, depth) {
        CycleNeverEnds(g, n, depth);
      }
    } else {
      EndsWithoutCycle(g, n, {});
    }
    if EndsAtAll(g, n) {
      DepthsRank(g);
      assert n in Depths(g);
    } else if rank :| Ranking(g, rank) && n in rank {
      RankedEnds(g, rank, n);
    }
  }

  // ----- Nodes that need no recursion -------------------------------------------------------

  /** The recursion stops at the nodes in `stops`. */
  function Cut(g: Calls, stops: set<nat>): (cut: Calls)
    ensures |cut| == |g| && forall n :: 0 <= n < |g| ==> cut[n] == if n in stops then {} else g[n]
  {
    seq(|g|, n requires 0 <= n < |g| => if n in stops then {} else g[n])
  }

  lemma CycleFurtherDown(g: Calls, n: nat)
    requires Closed(g) && n < |g| && CycleBelow(g, n)
    ensures exists c :: c in g[n] && CycleBelow(g, c)
  {
    var m: nat :| m < |g| && Reaches(g, n, m) && ReachesBelow(g, m, m);
    var i: nat :| Path(g, n, m, i);
    if i > 0 {
      var c :| c in g[n] && Path(g, c, m, i - 1);
      assert Reaches(g, c, m);
    } else {
      var j: nat :| j > 0 && Path(g, m, m, j);
      var c :| c in g[m] && Path(g, c, m, j - 1);
      assert Reaches(g, c, m);
    }
  }

  lemma EndsOneUp(g: Calls, n: nat)
    requires Closed(g) && n < |g| && forall c :: c in g[n] ==> EndsAtAll(g, c)
    ensures EndsAtAll(g, n)
  {
    EndsExactly(g, n);
    if CycleBelow(g, n) {
      CycleFurtherDown(g, n);
      var c :| c in g[n] && CycleBelow(g, c);
      EndsExactly(g, c);
    }
  }

  lemma {:induction false} CutEndsSooner(g: Calls, stops: set<nat>, n: nat, depth: nat)
    requires Closed(g) && n < |g| && Ends(g, n, depth)
    ensures Closed(Cut(g, stops)) && Ends(Cut(g, stops), n, depth)
    decreases depth
  {
    forall m | m in Cut(g, stops)[n] ensures Ends(Cut(g, stops), m, depth - 1) {
      CutEndsSooner(g, stops, m, depth - 1);
    }
  }

  lemma {:induction false} CutEndsNotOnly(g: Calls, stops: set<nat>, n: nat, depth: nat)
    requires Closed(g) && n < |g| && (forall m :: m in stops && m < |g| ==> EndsAtAll(g, m))
    requires Closed(Cut(g, stops)) && Ends(Cut(g, stops), n, depth)
    ensures EndsAtAll(g, n)
    decreases depth
  {
    if n in stops {
    } else {
      forall c | c in g[n] ensures EndsAtAll(g, c) {
        assert c in Cut(g, stops)[n];
        CutEndsNotOnly(g, stops, c, depth - 1);
      }
      EndsOneUp(g, n);
    }
  }

  /** Stopping at nodes from which it ends anyway makes no difference to whether it ends. */
  lemma CutEndsAlike(g: Calls, stops: set<nat>, n: nat)
    requires Closed(g) && n < |g| && forall m :: m in stops && m < |g| ==> EndsAtAll(g, m)
    ensures Closed(Cut(g, stops))
    ensures EndsAtAll(Cut(g, stops), n) <==> EndsAtAll(g, n)
  {
    assert Closed(Cut(g, stops));
    if depth :| Ends(g, n, depth) {
      CutEndsSooner(g, stops, n, depth);
    }
    if depth :| Ends(Cut(g, stops), n, depth) {
      CutEndsNotOnly(g, stops, n, depth);
    }
  }
}
