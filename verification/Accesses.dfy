/** The vocabulary of the profiler's runtime: recorded memory accesses and the dependencies they give rise to. */
module Accesses {

  type Addr = int
  type Lid = int

  /** One recorded access. `skip` marks what the hybrid analysis inserts. */
  datatype AccessInfo = AccessInfo(isRead: bool, skip: bool, lid: Lid, addr: Addr) {

    /** The slots of a chunk buffer that were never filled. */
    predicate Unused() {
      addr == 0 && lid == 0
    }
  }

  datatype DepType = RAW | WAR | WAW | INIT

  datatype Dep = Dep(depType: DepType, depOn: Lid)

  /** Dependencies by sink, as the per-thread and the global table hold them. */
  type DepMap = map<Lid, set<Dep>>

  datatype Dependency = Dependency(sink: Lid, depType: DepType, source: Lid)

  function Triples(m: DepMap): set<Dependency> {
    set l, d | l in m && d in m[l] :: Dependency(l, d.depType, d.depOn)
  }

  /** The accesses of a buffer that were really recorded, in order. */
  function Recorded(buffer: seq<AccessInfo>): (r: seq<AccessInfo>)
    ensures forall x :: x in r <==> x in buffer && (x.addr != 0 || x.lid != 0)
  {
    if buffer == [] then []
    else
      var rest := Recorded(buffer[..|buffer| - 1]);
      var x := buffer[|buffer| - 1];
      if x.Unused() then rest else rest + [x]
  }

  /** 0 means "none" throughout the runtime, so no real access carries it as its LID. */
  ghost predicate Identified(t: seq<AccessInfo>) {
    forall x :: x in t ==> x.lid != 0
  }
}
