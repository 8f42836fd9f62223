/** The sequential analysis: one access against a shadow memory. */
module SequentialAnalysis {
  import opened Accesses

  /** What a shadow memory knows about one address: the LID of the last read not yet
      consumed by a write, and the LID of the last write; 0 for none, 1 for the marker
      that clears an address. */
  datatype Cell = Cell(r: Lid, w: Lid)

  const EMPTY := Cell(0, 0)

  type ShadowMap = map<Addr, Cell>

  function At(s: ShadowMap, a: Addr): Cell {
    if a in s then s[a] else EMPTY
  }

  /** True of the two values that stand for "no such access". */
  predicate IsNone(l: Lid) {
    l == 0 || l == 1
  }

  function Step(c: Cell, x: AccessInfo): Cell {
    if x.isRead then c.(r := x.lid)
    else if x.skip || IsNone(c.r) then c.(w := x.lid)
    else Cell(0, x.lid)
  }

  function Report(c: Cell, x: AccessInfo): set<Dependency> {
    if x.skip then {}
    else if x.isRead then
      if IsNone(c.w) then {} else {Dependency(x.lid, RAW, c.w)}
    else if IsNone(c.w) then
      {Dependency(x.lid, INIT, 0)} + (if IsNone(c.r) then {} else {Dependency(x.lid, WAR, c.r)})
    else if IsNone(c.r) then {Dependency(x.lid, WAW, c.w)}
    else {Dependency(x.lid, WAR, c.r)}
  }

  /** What the shadow knows about `a` after `t`, having known `c` before. */
  function CellAfter(c: Cell, t: seq<AccessInfo>, a: Addr): Cell {
    if t == [] then c
    else
      var x := t[|t| - 1];
      var before := CellAfter(c, t[..|t| - 1], a);
      if x.addr == a then Step(before, x) else before
  }

  /** The cell that access `i` of `t` is analysed against. */
  function Seen(s: ShadowMap, t: seq<AccessInfo>, i: nat): Cell
    requires i < |t|
  {
    CellAfter(At(s, t[i].addr), t[..i], t[i].addr)
  }

  /** Everything reported while analysing `t`, starting from the shadow `s`. */
  function Reports(s: ShadowMap, t: seq<AccessInfo>): set<Dependency> {
    if t == [] then {}
    else
      Reports(s, t[..|t| - 1]) + Report(Seen(s, t, |t| - 1), t[|t| - 1])
  }

  lemma {:induction false} CellUntouched(c: Cell, t: seq<AccessInfo>, a: Addr)
    requires forall x :: x in t ==> x.addr != a
    ensures CellAfter(c, t, a) == c
  {
    if t == [] {
    } else {
      CellUntouched(c, t[..|t| - 1], a);
    }
  }

  lemma {:induction false} CellAfterSplit(c: Cell, t: seq<AccessInfo>, u: seq<AccessInfo>, a: Addr)
    ensures CellAfter(c, t + u, a) == CellAfter(CellAfter(c, t, a), u, a)
  {
    if u == [] {
      assert t + u == t;
    } else {
      assert (t + u)[..|t + u| - 1] == t + u[..|u| - 1];
      CellAfterSplit(c, t, u[..|u| - 1], a);
    }
  }

  lemma {:induction false} ReportedIff(s: ShadowMap, t: seq<AccessInfo>, d: Dependency)
    ensures d in Reports(s, t) <==> exists i :: 0 <= i < |t| && d in Report(Seen(s, t, i), t[i])
  {
    if t == [] {
    } else {
      var u := t[..|t| - 1];
      ReportedIff(s, u, d);
      forall i | 0 <= i < |u|
        ensures Seen(s, u, i) == Seen(s, t, i) && u[i] == t[i]
      {
        assert u[..i] == t[..i];
      }
      if d in Reports(s, u) {
        var i :| 0 <= i < |u| && d in Report(Seen(s, u, i), u[i]);
        assert d in Report(Seen(s, t, i), t[i]);
      }
    }
  }

  // ----- What the reports mean -------------------------------------------------

  /** Position `i` holds the latest write of `t` to `a`. */
  ghost predicate LatestWrite(t: seq<AccessInfo>, a: Addr, i: int) {
    0 <= i < |t| && t[i].addr == a && !t[i].isRead
    && forall k :: i < k < |t| && t[k].addr == a ==> t[k].isRead
  }

  /** Position `i` holds a read of `a` that is open: only writes marked to be skipped follow. */
  ghost predicate OpenReadAt(t: seq<AccessInfo>, a: Addr, i: int) {
    0 <= i < |t| && t[i].addr == a && t[i].isRead
    && forall k :: i < k < |t| && t[k].addr == a ==> !t[k].isRead && t[k].skip
  }

  ghost predicate WriteBefore(t: seq<AccessInfo>, a: Addr, l: Lid) {
    l != 0 && l != 1 && exists i :: LatestWrite(t, a, i) && t[i].lid == l
  }

  ghost predicate OpenReadBefore(t: seq<AccessInfo>, a: Addr, l: Lid) {
    l != 0 && l != 1 && exists i :: OpenReadAt(t, a, i) && t[i].lid == l
  }

  /** The dependencies of a trace by definition, without any shadow memory. A read depends on
      the latest earlier write of its address (RAW). A write depends on the open read of its
      address (WAR); without one, on the latest earlier write (WAW). A write without an earlier
      one is an INIT. Accesses marked to be skipped depend on nothing, and the LIDs 0 and 1
      stand for no access. */
  ghost predicate DependsAt(t: seq<AccessInfo>, j: int, d: Dependency)
    requires 0 <= j < |t|
  {
    var before, x := t[..j], t[j];
    !x.skip && d.sink == x.lid &&
    match d.depType
    case RAW => x.isRead && WriteBefore(before, x.addr, d.source)
    case WAR => !x.isRead && OpenReadBefore(before, x.addr, d.source)
    case WAW => !x.isRead && (forall l :: !OpenReadBefore(before, x.addr, l)) && WriteBefore(before, x.addr, d.source)
    case INIT => !x.isRead && (forall l :: !WriteBefore(before, x.addr, l)) && d.source == 0
  }

  /** The cell of an address: its write part is the latest write, its read part the open read. */
  ghost predicate Means(c: Cell, t: seq<AccessInfo>, a: Addr) {
    && (forall l :: WriteBefore(t, a, l) <==> l == c.w && !IsNone(l))
    && (forall l :: OpenReadBefore(t, a, l) <==> l == c.r && !IsNone(l))
  }

  lemma {:induction false} CellMeaning(t: seq<AccessInfo>, a: Addr)
    ensures Means(CellAfter(EMPTY, t, a), t, a)
  {
    if t == [] {
    } else {
      var u, x := t[..|t| - 1], t[|t| - 1];
      assert t == u + [x];
      CellMeaning(u, a);
      forall l ensures WriteBefore(t, a, l) <==> if x.addr == a && !x.isRead then l == x.lid && !IsNone(l) else WriteBefore(u, a, l) {
        WriteBeforeExtends(u, x, a, l);
      }
      forall l {
        OpenReadBeforeExtends(u, x, a, l);
      }
    }
  }

  lemma WriteBeforeExtends(u: seq<AccessInfo>, x: AccessInfo, a: Addr, l: Lid)
    ensures WriteBefore(u + [x], a, l) <==>
            if x.addr == a && !x.isRead then l == x.lid && !IsNone(l) else WriteBefore(u, a, l)
  {
    var t := u + [x];
    assert t[|u|] == x;
    assert forall k {:trigger u[k]} :: 0 <= k < |u| ==> t[k] == u[k];
    if x.addr == a && !x.isRead {
      assert LatestWrite(t, a, |u|);
    } else {
      assert forall i :: LatestWrite(t, a, i) <==> LatestWrite(u, a, i);
    }
  }

  lemma OpenReadBeforeExtends(u: seq<AccessInfo>, x: AccessInfo, a: Addr, l: Lid)
    ensures OpenReadBefore(u + [x], a, l) <==>
            if x.addr != a || (!x.isRead && x.skip) then OpenReadBefore(u, a, l)
            else x.isRead && l == x.lid && !IsNone(l)
  {
    var t := u + [x];
    assert t[|u|] == x;
    assert forall k {:trigger u[k]} :: 0 <= k < |u| ==> t[k] == u[k];
    if x.addr != a || (!x.isRead && x.skip) {
      assert forall i :: OpenReadAt(t, a, i) <==> OpenReadAt(u, a, i);
    } else if x.isRead {
      assert OpenReadAt(t, a, |u|);
    }
  }

  lemma ReportMeaning(t: seq<AccessInfo>, j: nat, d: Dependency)
    requires j < |t|
    ensures d in Report(Seen(map[], t, j), t[j]) <==> DependsAt(t, j, d)
  {
    var a, p := t[j].addr, t[..j];
    CellMeaning(p, a);
    var c := CellAfter(EMPTY, p, a);
    assert OpenReadBefore(p, a, c.r) <==> !IsNone(c.r);
    assert WriteBefore(p, a, c.w) <==> !IsNone(c.w);
  }

  /** The sequential analyser reports exactly the dependencies of the trace. */
  lemma ReportsAreDependencies(t: seq<AccessInfo>, d: Dependency)
    ensures d in Reports(map[], t) <==> exists j :: 0 <= j < |t| && DependsAt(t, j, d)
  {
    ReportedIff(map[], t, d);
    forall j | 0 <= j < |t|
      ensures d in Report(Seen(map[], t, j), t[j]) <==> DependsAt(t, j, d)
    {
      ReportMeaning(t, j, d);
    }
  }
}
