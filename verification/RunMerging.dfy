/** Merging the runs of separately instrumented builds into one id space. */
module RunMerging {
  import opened Collections
  import opened Text
  import opened RegionKeys
  import opened CsIdTable

  /** Runtimes by serialized region key. */
  type Regions = map<string, real>

  /** The printed form of a key that a table can hold. */
  ghost predicate ProperName(s: string, mapping: FileMapping) {
    exists k :: Proper(k, mapping) && s == Serialize(k)
  }

  ghost predicate ProperRun(run: Regions, mapping: FileMapping) {
    forall s :: s in run ==> run[s] > 0.0 && ProperName(s, mapping)
  }

  // ----- Collecting ---------------------------------------------------------------------

  function SerializedTable(keys: map<int, RegionKey>): map<int, string> {
    map id | id in keys :: Serialize(keys[id])
  }

  /** Measurements by region key; zeroes and unknown ids are dropped. */
  ghost predicate IsCollected(regions: Regions, result: map<int, real>, named: map<int, string>) {
    && (forall s :: s in regions ==>
         exists id :: id in result && id in named && result[id] > 0.0 && named[id] == s && regions[s] == result[id])
    && (forall id :: id in result && id in named && result[id] > 0.0 ==> named[id] in regions)
  }

  method CollectRun(result: map<int, real>, keys: map<int, RegionKey>) returns (regions: Regions)
    ensures IsCollected(regions, result, SerializedTable(keys))
  {
    ghost var named := SerializedTable(keys);
    regions := map[];
    var todo := result.Keys;
    while todo != {}
      invariant todo <= result.Keys
      invariant forall s :: s in regions ==>
                  exists id :: id in result && id in named && result[id] > 0.0 && named[id] == s && regions[s] == result[id]
      invariant forall id :: id in result && id !in todo && id in named && result[id] > 0.0 ==> named[id] in regions
      decreases |todo|
    {
      HasElement(todo);
      var id :| id in todo;
      todo := todo - {id};
      if id in keys && result[id] > 0.0 {
        assert named[id] == Serialize(keys[id]);
        regions := regions[Serialize(keys[id]) := result[id]];
      }
    }
  }

  ghost predicate Measured(result: map<int, real>, named: map<int, string>, id: int) {
    id in result && id in named && result[id] > 0.0
  }

  ghost function MeasuredNames(result: map<int, real>, named: map<int, string>): set<string> {
    set id | id in result && Measured(result, named, id) :: named[id]
  }

  lemma SomethingIsCollected(result: map<int, real>, named: map<int, string>) returns (regions: Regions)
    ensures IsCollected(regions, result, named)
  {
    regions := map s | s in MeasuredNames(result, named) ::
      var id :| id in result && Measured(result, named, id) && named[id] == s; result[id];
    forall id | id in result && id in named && result[id] > 0.0 ensures named[id] in regions {
      assert Measured(result, named, id);
    }
  }

  /** Every region of what a result file measures comes from a row of the table. */
  lemma CollectedIsMeasured(regions: Regions, result: map<int, real>, named: map<int, string>, s: string)
    requires IsCollected(regions, result, named) && s in regions
    ensures regions[s] > 0.0 && exists id :: Measured(result, named, id) && named[id] == s
  {
    var id :| id in result && id in named && result[id] > 0.0 && named[id] == s && regions[s] == result[id];
    assert Measured(result, named, id);
  }

  /** No loop that the file measures has a name. */
  ghost predicate LoopsNameless(csId: map<int, CodeSection>, result: map<int, real>) {
    forall id :: id in csId && id in result && result[id] > 0.0 && csId[id].kind == LOOP ==> csId[id].name == ""
  }

  lemma SectionIsProper(lines: seq<string>, mapping: FileMapping, id: int)
    requires NotMisleading(mapping) && id in CsIdOf(lines)
    ensures var section := CsIdOf(lines)[id];
            section.kind == LOOP ==> section.name == "" ==> Proper(KeyOf(section, mapping), mapping)
    ensures CsIdOf(lines)[id].kind == FUNCTION ==> Proper(KeyOf(CsIdOf(lines)[id], mapping), mapping)
    ensures !Misleading(KeyOf(CsIdOf(lines)[id], mapping).path)
  {
    TableNamesAreSolid(lines);
    PathNotMisleading(mapping, CsIdOf(lines)[id].fid);
  }

  /** What is collected with a parsed table is proper if and only if no measured loop has a name. */
  lemma CollectedIsProperExactly(lines: seq<string>, mapping: FileMapping, result: map<int, real>, regions: Regions)
    requires NotMisleading(mapping)
    requires IsCollected(regions, result, SerializedTable(ResolveKeys(CsIdOf(lines), mapping)))
    ensures ProperRun(regions, mapping) <==> LoopsNameless(CsIdOf(lines), result)
  {
    var csId, named := CsIdOf(lines), SerializedTable(ResolveKeys(CsIdOf(lines), mapping));
    if LoopsNameless(csId, result) {
      forall s | s in regions ensures regions[s] > 0.0 && ProperName(s, mapping) {
        CollectedIsMeasured(regions, result, named, s);
        var id :| Measured(result, named, id) && named[id] == s;
        SectionIsProper(lines, mapping, id);
        assert s == Serialize(KeyOf(csId[id], mapping));
      }
    } else if ProperRun(regions, mapping) {
      var id :| id in csId && id in result && result[id] > 0.0 && csId[id].kind == LOOP && csId[id].name != "";
      var k := KeyOf(csId[id], mapping);
      assert named[id] == Serialize(k) && named[id] in regions;
      var proper :| Proper(proper, mapping) && named[id] == Serialize(proper);
      SectionIsProper(lines, mapping, id);
      RoundTripExactly(k);
      RoundTripExactly(proper);
    }
  }

  // ----- Writing ------------------------------------------------------------------------

  /** Keys measured by some run, each once. */
  ghost predicate Canonical(keys: seq<RegionKey>, runs: seq<Regions>) {
    && (forall i, j :: 0 <= i < j < |keys| ==> keys[i] != keys[j])
    && (forall k :: k in keys <==> exists r, s :: r in runs && s in r && Deserialize(s) == Some(k))
  }

  function Names(keys: seq<RegionKey>): seq<string> {
    seq(|keys|, i requires 0 <= i < |keys| => Serialize(keys[i]))
  }

  /** The ids of the merged table count from 1 in the order of the keys. */
  function IdsOf(names: seq<string>): map<string, int> {
    if names == [] then map[] else IdsOf(names[..|names| - 1])[names[|names| - 1] := |names|]
  }

  /** The measurements of one run in the merged id space. */
  ghost predicate IsMergedResult(result: map<int, real>, run: Regions, ids: map<string, int>) {
    && (forall s :: s in run && s in ids ==> ids[s] in result && result[ids[s]] == run[s])
    && (forall id :: id in result ==> exists s :: s in run && s in ids && ids[s] == id)
  }

  ghost predicate Injective(ids: map<string, int>) {
    forall s, s' :: s in ids && s' in ids && ids[s] == ids[s'] ==> s == s'
  }

  method WriteRun(run: Regions, ids: map<string, int>) returns (result: map<int, real>)
    requires Injective(ids)
    ensures IsMergedResult(result, run, ids)
  {
    result := map[];
    var todo := run.Keys;
    while todo != {}
      invariant todo <= run.Keys
      invariant forall s :: s in run && s !in todo && s in ids ==> ids[s] in result && result[ids[s]] == run[s]
      invariant forall id :: id in result ==> exists s :: s in run && s !in todo && s in ids && ids[s] == id
      decreases |todo|
    {
      var s :| s in todo;
      todo := todo - {s};
      if s in ids {
        result := result[ids[s] := run[s]];
      }
    }
  }

  /** The id of a name is its position, counted from 1. */
  ghost predicate Numbers(ids: map<string, int>, names: seq<string>) {
    && (forall i :: 0 <= i < |names| ==> names[i] in ids && ids[names[i]] == i + 1)
    && (forall s :: s in ids ==> s in names)
  }

  lemma {:induction false} IdsNumberTheNames(names: seq<string>)
    requires forall i, j :: 0 <= i < j < |names| ==> names[i] != names[j]
    ensures Numbers(IdsOf(names), names)
  {
    if names == [] {
    } else {
      var front, last := names[..|names| - 1], names[|names| - 1];
      IdsNumberTheNames(front);
      forall s | s in IdsOf(names) ensures s in names {
        assert s == last || s in front;
      }
    }
  }

  lemma NumbersAreInjective(ids: map<string, int>, names: seq<string>)
    requires Numbers(ids, names)
    ensures Injective(ids)
  {
    forall s, s' | s in ids && s' in ids && ids[s] == ids[s'] ensures s == s' {
      var i :| 0 <= i < |names| && names[i] == s;
      var i' :| 0 <= i' < |names| && names[i'] == s';
    }
  }

  /** Canonical keys have distinct names: what a printed key is parsed to has no misleading path. */
  lemma CanonicalNames(keys: seq<RegionKey>, runs: seq<Regions>)
    requires Canonical(keys, runs)
    ensures Numbers(IdsOf(Names(keys)), Names(keys))
  {
    var names := Names(keys);
    forall i, j | 0 <= i < j < |names| ensures names[i] != names[j] {
      CanonicalKeyComesBack(keys, runs, keys[i]);
      CanonicalKeyComesBack(keys, runs, keys[j]);
    }
    IdsNumberTheNames(names);
  }

  lemma CanonicalKeyComesBack(keys: seq<RegionKey>, runs: seq<Regions>, k: RegionKey)
    requires Canonical(keys, runs) && k in keys
    ensures Deserialize(Serialize(k)) == Some(k)
  {
    var r, s :| r in runs && s in r && Deserialize(s) == Some(k);
    DeserializedIsNotMisleading(s);
    RoundTripExactly(k);
  }

  // ----- What was written reads back -------------------------------------------------------

  /** Where the table gives the id of every measured name that name, collecting undoes writing. */
  lemma CollectingUndoesWriting(run: Regions, ids: map<string, int>, named: map<int, string>,
                                result: map<int, real>, regions: Regions)
    requires forall s :: s in run ==> run[s] > 0.0 && s in ids && ids[s] in named && named[ids[s]] == s
    requires IsMergedResult(result, run, ids) && IsCollected(regions, result, named)
    ensures regions == run
  {
    forall s | s in run ensures s in regions {
      var id := ids[s];
      assert id in named && named[id] == s;
      assert id in result && result[id] == run[s] > 0.0;
    }
    forall s | s in regions ensures s in run && regions[s] == run[s] {
      var id :| id in result && id in named && result[id] > 0.0 && named[id] == s && regions[s] == result[id];
      var s' :| s' in run && s' in ids && ids[s'] == id;
    }
  }

  /** What is collected from a merged result is the run it was written for. */
  ghost predicate ReadsBack(rows: seq<string>, mapping: FileMapping, result: map<int, real>, run: Regions) {
    var named := SerializedTable(ResolveKeys(CsIdOf(rows), mapping));
    forall regions :: IsCollected(regions, result, named) ==> regions == run
  }

  lemma ReadsBackVia(rows: seq<string>, mapping: FileMapping, result: map<int, real>, run: Regions,
                     ids: map<string, int>, named: map<int, string>)
    requires named == SerializedTable(ResolveKeys(CsIdOf(rows), mapping))
    requires forall s :: s in run ==> run[s] > 0.0 && s in ids && ids[s] in named && named[ids[s]] == s
    requires IsMergedResult(result, run, ids)
    ensures ReadsBack(rows, mapping, result, run)
  {
    forall regions | IsCollected(regions, result, named) ensures regions == run {
      CollectingUndoesWriting(run, ids, named, result, regions);
    }
  }

  ghost predicate IsListOf(named: map<int, string>, names: seq<string>) {
    && (forall id :: id in named <==> 1 <= id <= |names|)
    && (forall id :: id in named ==> named[id] == names[id - 1])
  }

  lemma TableNames(keys: seq<RegionKey>, table: map<int, RegionKey>)
    requires IsTableOf(table, keys)
    ensures IsListOf(SerializedTable(table), Names(keys))
  {}

  /** The names a reader finds under the merged ids. */
  lemma MergedNames(keys: seq<RegionKey>, mapping: FileMapping, inverted: map<string, int>)
    ensures IsListOf(SerializedTable(ResolveKeys(CsIdOf(CsRows(keys, inverted)), mapping)), Names(RereadKeys(keys, mapping, inverted)))
  {
    MergedTableComesBack(keys, mapping, inverted);
    TableNames(RereadKeys(keys, mapping, inverted), ResolveKeys(CsIdOf(CsRows(keys, inverted)), mapping));
  }

  /** The key parsed from the name prints as that name, both before and after it is written and
      read back. */
  ghost predicate Stands(s: string, mapping: FileMapping, inverted: map<string, int>) {
    match Deserialize(s)
    case None => false
    case Some(k) => Serialize(k) == s && Serialize(Reread(k, mapping, inverted)) == s
  }

  ghost predicate StandingRun(run: Regions, mapping: FileMapping, inverted: map<string, int>) {
    forall s :: s in run ==> run[s] > 0.0 && Stands(s, mapping, inverted)
  }

  lemma ProperStands(s: string, mapping: FileMapping, inverted: map<string, int>)
    requires ProperName(s, mapping) && Inverts(inverted, mapping)
    ensures Stands(s, mapping, inverted)
  {
    var k :| Proper(k, mapping) && s == Serialize(k);
    RoundTripExactly(k);
    ProperIsReread(k, mapping, inverted);
  }

  /** A name that stands and was measured is that of a key, and is read back under the same position. */
  lemma StandingNameHasKey(runs: seq<Regions>, run: Regions, s: string, keys: seq<RegionKey>, mapping: FileMapping,
                           inverted: map<string, int>) returns (i: nat)
    requires run in runs && s in run && Canonical(keys, runs) && Stands(s, mapping, inverted)
    ensures i < |keys| && Names(keys)[i] == s && Names(RereadKeys(keys, mapping, inverted))[i] == s
  {
    var k := Deserialize(s).value;
    assert k in keys;
    i :| i < |keys| && keys[i] == k;
    NameAt(keys, i);
    NameAt(RereadKeys(keys, mapping, inverted), i);
  }

  lemma IdOfName(ids: map<string, int>, names: seq<string>, i: nat, named: map<int, string>, reread: seq<string>)
    requires Numbers(ids, names) && IsListOf(named, reread) && |names| == |reread| && i < |names| && reread[i] == names[i]
    ensures var s := names[i]; s in ids && ids[s] in named && named[ids[s]] == s
  {}

  /** Merging loses nothing of a run whose names stand: what is re-read from the merged files with
      the same mapping is its exact map from regions to runtimes. */
  lemma RunComesBack(runs: seq<Regions>, run: Regions, keys: seq<RegionKey>, mapping: FileMapping, inverted: map<string, int>,
                     result: map<int, real>)
    requires run in runs && Canonical(keys, runs)
    requires IsMergedResult(result, run, IdsOf(Names(keys))) && StandingRun(run, mapping, inverted)
    ensures ReadsBack(CsRows(keys, inverted), mapping, result, run)
  {
    var ids, named := IdsOf(Names(keys)), SerializedTable(ResolveKeys(CsIdOf(CsRows(keys, inverted)), mapping));
    CanonicalNames(keys, runs);
    MergedNames(keys, mapping, inverted);
    forall s | s in run ensures run[s] > 0.0 && s in ids && ids[s] in named && named[ids[s]] == s {
      var i := StandingNameHasKey(runs, run, s, keys, mapping, inverted);
      IdOfName(ids, Names(keys), i, named, Names(RereadKeys(keys, mapping, inverted)));
    }
    ReadsBackVia(CsRows(keys, inverted), mapping, result, run, ids, named);
  }

  lemma NameAt(keys: seq<RegionKey>, i: int)
    requires 0 <= i < |keys|
    ensures |Names(keys)| == |keys| && Names(keys)[i] == Serialize(keys[i])
  {}

  lemma PrintedIsProperName(k: RegionKey, mapping: FileMapping)
    requires Proper(k, mapping)
    ensures ProperName(Serialize(k), mapping)
  {}

  lemma RereadNameIsProper(keys: seq<RegionKey>, mapping: FileMapping, inverted: map<string, int>, id: int)
    requires NotMisleading(mapping) && 1 <= id <= |keys|
    ensures ProperName(Names(RereadKeys(keys, mapping, inverted))[id - 1], mapping)
  {
    var k := Reread(keys[id - 1], mapping, inverted);
    RereadIsProper(keys[id - 1], mapping, inverted);
    NameAt(RereadKeys(keys, mapping, inverted), id - 1);
    PrintedIsProperName(k, mapping);
  }

  /** And of no other run, where no path of the mapping is misleading. */
  lemma OnlyProperRunsComeBack(run: Regions, keys: seq<RegionKey>, mapping: FileMapping, inverted: map<string, int>,
                               result: map<int, real>)
    requires NotMisleading(mapping) && ReadsBack(CsRows(keys, inverted), mapping, result, run)
    ensures ProperRun(run, mapping)
  {
    var named := SerializedTable(ResolveKeys(CsIdOf(CsRows(keys, inverted)), mapping));
    MergedNames(keys, mapping, inverted);
    var regions := SomethingIsCollected(result, named);
    assert regions == run;
    forall s | s in run ensures run[s] > 0.0 && ProperName(s, mapping) {
      CollectedIsMeasured(regions, result, named, s);
      var id :| Measured(result, named, id) && named[id] == s;
      RereadNameIsProper(keys, mapping, inverted, id);
    }
  }

  // ----- A single region, whatever the mapping ----------------------------------------------

  /** The one id under which a run of one region is written. */
  lemma OneRegionIsWritten(s: string, time: real, ids: map<string, int>, names: seq<string>, result: map<int, real>, id: int)
    requires Numbers(ids, names) && IsMergedResult(result, map[s := time], ids) && id in result
    ensures 1 <= id <= |names| && names[id - 1] == s
  {
    var run := map[s := time];
    var s' :| s' in run && s' in ids && ids[s'] == id;
    var i :| 0 <= i < |names| && names[i] == s;
  }

  lemma StandsAt(runs: seq<Regions>, s: string, keys: seq<RegionKey>, mapping: FileMapping, inverted: map<string, int>, i: nat)
    requires Canonical(keys, runs) && i < |keys|
    requires Names(keys)[i] == s && Names(RereadKeys(keys, mapping, inverted))[i] == s
    ensures Stands(s, mapping, inverted)
  {
    CanonicalKeyComesBack(keys, runs, keys[i]);
    NameAt(keys, i);
    NameAt(RereadKeys(keys, mapping, inverted), i);
  }

  lemma OnlyStandingRegionComesBack(runs: seq<Regions>, s: string, time: real, keys: seq<RegionKey>, mapping: FileMapping,
                                    inverted: map<string, int>, result: map<int, real>, named: map<int, string>)
    requires Canonical(keys, runs) && IsMergedResult(result, map[s := time], IdsOf(Names(keys)))
    requires IsListOf(named, Names(RereadKeys(keys, mapping, inverted)))
    requires forall regions :: IsCollected(regions, result, named) ==> regions == map[s := time]
    ensures time > 0.0 && Stands(s, mapping, inverted)
  {
    var regions := SomethingIsCollected(result, named);
    var id := CollectedId(s, time, result, named);
    ListedAt(named, Names(RereadKeys(keys, mapping, inverted)), id);
    CollectedRegionIsNamed(runs, s, time, keys, mapping, inverted, result, id);
  }

  /** A run of one region comes back if and only if it was measured and its name stands, misleading
      paths or not. */
  lemma OneRegionComesBackExactly(runs: seq<Regions>, s: string, time: real, keys: seq<RegionKey>, mapping: FileMapping,
                                  inverted: map<string, int>, result: map<int, real>)
    requires map[s := time] in runs && Canonical(keys, runs)
    requires IsMergedResult(result, map[s := time], IdsOf(Names(keys)))
    ensures ReadsBack(CsRows(keys, inverted), mapping, result, map[s := time]) <==> time > 0.0 && Stands(s, mapping, inverted)
  {
    if time > 0.0 && Stands(s, mapping, inverted) {
      RunComesBack(runs, map[s := time], keys, mapping, inverted, result);
    } else if ReadsBack(CsRows(keys, inverted), mapping, result, map[s := time]) {
      MergedNames(keys, mapping, inverted);
      OnlyStandingRegionComesBack(runs, s, time, keys, mapping, inverted, result,
                                  SerializedTable(ResolveKeys(CsIdOf(CsRows(keys, inverted)), mapping)));
    }
  }

  lemma CollectedId(s: string, time: real, result: map<int, real>, named: map<int, string>) returns (id: int)
    requires IsCollected(map[s := time], result, named)
    ensures time > 0.0 && id in result && id in named && named[id] == s
  {
    assert s in map[s := time];
    CollectedIsMeasured(map[s := time], result, named, s);
    id :| Measured(result, named, id) && named[id] == s;
  }

  lemma ListedAt(named: map<int, string>, names: seq<string>, id: int)
    requires IsListOf(named, names) && id in named
    ensures 1 <= id <= |names| && named[id] == names[id - 1]
  {}

  /** A region that is collected again is found under its own id. */
  lemma CollectedRegionIsNamed(runs: seq<Regions>, s: string, time: real, keys: seq<RegionKey>, mapping: FileMapping,
                               inverted: map<string, int>, result: map<int, real>, id: int)
    requires Canonical(keys, runs) && IsMergedResult(result, map[s := time], IdsOf(Names(keys))) && id in result
    requires 1 <= id <= |keys| && Names(RereadKeys(keys, mapping, inverted))[id - 1] == s
    ensures Stands(s, mapping, inverted)
  {
    CanonicalNames(keys, runs);
    OneRegionIsWritten(s, time, IdsOf(Names(keys)), Names(keys), result, id);
    StandsAt(runs, s, keys, mapping, inverted, id - 1);
  }

  ghost predicate AreMergedResults(results: seq<map<int, real>>, runs: seq<Regions>, ids: map<string, int>) {
    |results| == |runs| && forall i :: 0 <= i < |runs| ==> IsMergedResult(results[i], runs[i], ids)
  }

  /** A run is re-read if it is proper, and only then where no mapped path is misleading. */
  ghost predicate ProperRunReadsBack(rows: seq<string>, mapping: FileMapping, result: map<int, real>, run: Regions) {
    && (ProperRun(run, mapping) ==> ReadsBack(rows, mapping, result, run))
    && (NotMisleading(mapping) && ReadsBack(rows, mapping, result, run) ==> ProperRun(run, mapping))
  }

  ghost predicate ProperRunsReadBack(rows: seq<string>, mapping: FileMapping, results: seq<map<int, real>>, runs: seq<Regions>) {
    |results| == |runs| && forall i :: 0 <= i < |runs| ==> ProperRunReadsBack(rows, mapping, results[i], runs[i])
  }

  lemma RunsComeBackExactly(runs: seq<Regions>, keys: seq<RegionKey>, mapping: FileMapping, inverted: map<string, int>,
                            results: seq<map<int, real>>)
    requires Canonical(keys, runs) && Inverts(inverted, mapping) && AreMergedResults(results, runs, IdsOf(Names(keys)))
    ensures ProperRunsReadBack(CsRows(keys, inverted), mapping, results, runs)
  {
    forall i | 0 <= i < |runs|
      ensures ProperRunReadsBack(CsRows(keys, inverted), mapping, results[i], runs[i])
    {
      RunComesBackExactly(runs, runs[i], keys, mapping, inverted, results[i]);
    }
  }

  /** A run, each of any runs, comes back from the merged files if it is proper. That is necessary
      too where no path of the mapping is misleading. */
  lemma RunComesBackExactly(runs: seq<Regions>, run: Regions, keys: seq<RegionKey>, mapping: FileMapping, inverted: map<string, int>,
                            result: map<int, real>)
    requires run in runs && Canonical(keys, runs) && Inverts(inverted, mapping)
    requires IsMergedResult(result, run, IdsOf(Names(keys)))
    ensures ProperRunReadsBack(CsRows(keys, inverted), mapping, result, run)
  {
    if ProperRun(run, mapping) {
      forall s | s in run ensures Stands(s, mapping, inverted) {
        ProperStands(s, mapping, inverted);
      }
      RunComesBack(runs, run, keys, mapping, inverted, result);
    } else if NotMisleading(mapping) && ReadsBack(CsRows(keys, inverted), mapping, result, run) {
      OnlyProperRunsComeBack(run, keys, mapping, inverted, result);
    }
  }

  /** One result file per run. */
  method WriteRuns(runs: seq<Regions>, ids: map<string, int>) returns (results: seq<map<int, real>>)
    requires Injective(ids)
    ensures AreMergedResults(results, runs, ids)
  {
    results := [];
    for i := 0 to |runs|
      invariant AreMergedResults(results, runs[..i], ids)
    {
      var result := WriteRun(runs[i], ids);
      results := results + [result];
    }
    assert runs[..|runs|] == runs;
  }

  /** The rows number the keys, each with the lowest id of its path. */
  ghost predicate IsTableFor(rows: seq<string>, keys: seq<RegionKey>, mapping: FileMapping) {
    exists inverted :: Inverts(inverted, mapping) && rows == CsRows(keys, inverted)
  }

  /** Numbers every measured region, writes the table and one result per run. */
  method WriteMergedAnalysisInput(runs: seq<Regions>, mapping: FileMapping)
    returns (keys: seq<RegionKey>, rows: seq<string>, results: seq<map<int, real>>)
    ensures Canonical(keys, runs) && IsTableFor(rows, keys, mapping)
    ensures AreMergedResults(results, runs, IdsOf(Names(keys)))
    ensures ProperRunsReadBack(rows, mapping, results, runs)
  {
    keys := CanonicalRegionKeys(runs);
    var inverted := InvertFileMapping(mapping);
    CanonicalNames(keys, runs);
    var ids := IdsOf(Names(keys));
    rows := CsRows(keys, inverted);
    NumbersAreInjective(ids, Names(keys));
    results := WriteRuns(runs, ids);
    RunsComeBackExactly(runs, keys, mapping, inverted, results);
  }

  /** The union of the keys measured by the runs; strings that are no keys are left out. */
  method CanonicalRegionKeys(runs: seq<Regions>) returns (keys: seq<RegionKey>)
    ensures Canonical(keys, runs)
  {
    keys := [];
    for i := 0 to |runs|
      invariant forall m, n :: 0 <= m < n < |keys| ==> keys[m] != keys[n]
      invariant forall k :: k in keys <==> exists j, s :: 0 <= j < i && s in runs[j] && Deserialize(s) == Some(k)
    {
      var todo := runs[i].Keys;
      while todo != {}
        invariant todo <= runs[i].Keys
        invariant forall m, n :: 0 <= m < n < |keys| ==> keys[m] != keys[n]
        invariant forall k :: k in keys <==> exists j, s :: 0 <= j <= i && s in runs[j] && (j < i || s !in todo) && Deserialize(s) == Some(k)
        decreases |todo|
      {
        var s :| s in todo;
        todo := todo - {s};
        match Deserialize(s)
        case None =>
        case Some(k) =>
          if k !in keys {
            keys := keys + [k];
          }
      }
    }
  }

  // ----- From the files of the builds to the merged ones ------------------------------------

  /** The runs that measured anything. */
  function NonEmpty(all: seq<Regions>): seq<Regions> {
    if all == [] then []
    else
      var before, last := NonEmpty(all[..|all| - 1]), all[|all| - 1];
      if last == map[] then before else before + [last]
  }

  lemma {:induction false} NonEmptyKept(all: seq<Regions>)
    ensures forall run :: run in NonEmpty(all) <==> run in all && run != map[]
  {
    if all == [] {
    } else {
      NonEmptyKept(all[..|all| - 1]);
      assert all == all[..|all| - 1] + [all[|all| - 1]];
    }
  }

  /** One map of regions for each result file. */
  ghost predicate AreCollected(all: seq<Regions>, files: seq<map<int, real>>, named: map<int, string>) {
    |all| == |files| && forall i :: 0 <= i < |all| ==> IsCollected(all[i], files[i], named)
  }

  lemma OneMoreCollected(all: seq<Regions>, files: seq<map<int, real>>, named: map<int, string>, i: nat, regions: Regions)
    requires i < |files| && AreCollected(all, files[..i], named) && IsCollected(regions, files[i], named)
    ensures AreCollected(all + [regions], files[..i + 1], named)
    ensures NonEmpty(all + [regions]) == if regions == map[] then NonEmpty(all) else NonEmpty(all) + [regions]
  {
    assert (all + [regions])[..|all|] == all;
    assert forall j :: 0 <= j < i ==> files[..i + 1][j] == files[..i][j];
  }

  /** What the files measure, in order, without those that measure nothing. */
  ghost predicate AreRunsOf(runs: seq<Regions>, files: seq<map<int, real>>, named: map<int, string>) {
    exists all :: AreCollected(all, files, named) && runs == NonEmpty(all)
  }

  /** Every run comes from a file, and every file that measures anything gives a run. */
  lemma RunsAreCollected(runs: seq<Regions>, files: seq<map<int, real>>, named: map<int, string>)
    requires AreRunsOf(runs, files, named)
    ensures forall run :: run in runs ==> run != map[] && exists file :: file in files && IsCollected(run, file, named)
    ensures forall file :: file in files ==> IsCollected(map[], file, named) || exists run :: run in runs && IsCollected(run, file, named)
  {
    var all :| AreCollected(all, files, named) && runs == NonEmpty(all);
    NonEmptyKept(all);
    forall run | run in runs ensures run != map[] && exists file :: file in files && IsCollected(run, file, named) {
      var i :| 0 <= i < |all| && all[i] == run;
      assert files[i] in files;
    }
    forall file | file in files
      ensures IsCollected(map[], file, named) || exists run :: run in runs && IsCollected(run, file, named)
    {
      var i :| 0 <= i < |files| && files[i] == file;
      assert all[i] in all;
    }
  }

  method CollectRuns(files: seq<map<int, real>>, keys: map<int, RegionKey>) returns (runs: seq<Regions>)
    ensures AreRunsOf(runs, files, SerializedTable(keys))
  {
    runs := [];
    ghost var all: seq<Regions> := [];
    ghost var named := SerializedTable(keys);
    for i := 0 to |files|
      invariant AreCollected(all, files[..i], named) && runs == NonEmpty(all)
    {
      var regions := CollectRun(files[i], keys);
      OneMoreCollected(all, files, named, i, regions);
      all := all + [regions];
      if regions != map[] {
        runs := runs + [regions];
      }
    }
    assert files[..|files|] == files;
  }

  /** A run comes back if and only if no loop that its file measures has a name. */
  lemma RenderedRunComesBackExactly(lines: seq<string>, mapping: FileMapping, file: map<int, real>, run: Regions,
                                    rows: seq<string>, result: map<int, real>)
    requires NotMisleading(mapping) && IsCollected(run, file, SerializedTable(ResolveKeys(CsIdOf(lines), mapping)))
    requires ProperRunReadsBack(rows, mapping, result, run)
    ensures ReadsBack(rows, mapping, result, run) <==> LoopsNameless(CsIdOf(lines), file)
  {
    CollectedIsProperExactly(lines, mapping, file, run);
  }

  /** `run` is what `file` measures, and it comes back exactly if the loops measured are nameless. */
  ghost predicate NamelessComesBack(lines: seq<string>, mapping: FileMapping, file: map<int, real>, run: Regions,
                                    rows: seq<string>, result: map<int, real>)
  {
    && IsCollected(run, file, SerializedTable(ResolveKeys(CsIdOf(lines), mapping)))
    && (ReadsBack(rows, mapping, result, run) <==> LoopsNameless(CsIdOf(lines), file))
  }

  ghost predicate ComesFromFile(lines: seq<string>, mapping: FileMapping, files: seq<map<int, real>>, run: Regions,
                                rows: seq<string>, result: map<int, real>)
  {
    exists file :: file in files && NamelessComesBack(lines, mapping, file, run, rows, result)
  }

  lemma RenderedRunsComeBackExactly(lines: seq<string>, mapping: FileMapping, files: seq<map<int, real>>, runs: seq<Regions>,
                                    rows: seq<string>, results: seq<map<int, real>>, j: nat)
    requires NotMisleading(mapping) && j < |runs| && AreRunsOf(runs, files, SerializedTable(ResolveKeys(CsIdOf(lines), mapping)))
    requires ProperRunsReadBack(rows, mapping, results, runs)
    ensures ComesFromFile(lines, mapping, files, runs[j], rows, results[j])
  {
    var named := SerializedTable(ResolveKeys(CsIdOf(lines), mapping));
    RunsAreCollected(runs, files, named);
    assert runs[j] in runs;
    var file :| file in files && IsCollected(runs[j], file, named);
    RenderedRunComesBackExactly(lines, mapping, file, runs[j], rows, results[j]);
    assert NamelessComesBack(lines, mapping, file, runs[j], rows, results[j]);
  }

  /** Collects the result files with the table of the builds and renders the runs. None where
      there is nothing to merge. From end to end: a run comes back from the merged files if it is
      proper; and where no mapped path is misleading, every run comes from a file, and comes back if
      and only if no loop that the file measures has a name. */
  method RenderMergedAnalysisInput(lines: seq<string>, mapping: FileMapping, files: seq<map<int, real>>)
    returns (runs: seq<Regions>, merged: Option<(seq<string>, seq<map<int, real>>)>)
    ensures AreRunsOf(runs, files, SerializedTable(ResolveKeys(CsIdOf(lines), mapping)))
    ensures merged == None <==> CsIdOf(lines) == map[] || runs == []
    ensures merged.Some? ==> ProperRunsReadBack(merged.value.0, mapping, merged.value.1, runs)
    ensures merged.Some? && NotMisleading(mapping) ==>
              forall j :: 0 <= j < |runs| ==> ComesFromFile(lines, mapping, files, runs[j], merged.value.0, merged.value.1[j])
  {
    merged := None;
    var csId := ParseCsId(lines);
    runs := CollectRuns(files, ResolveKeys(csId, mapping));
    if csId == map[] || runs == [] {
      return;
    }
    var _, rows, results := WriteMergedAnalysisInput(runs, mapping);
    merged := Some((rows, results));
    if NotMisleading(mapping) {
      forall j | 0 <= j < |runs|
        ensures ComesFromFile(lines, mapping, files, runs[j], rows, results[j])
      {
        RenderedRunsComeBackExactly(lines, mapping, files, runs, rows, results, j);
      }
    }
  }
}
