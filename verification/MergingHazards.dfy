/** Measurements that merging loses: of loops with a name, and of loops in files whose path reads
    like a region key. */
module MergingHazards {
  import opened Collections
  import opened Text
  import opened RegionKeys
  import opened CsIdTable
  import opened RunMerging

  // ----- Loops with a name ----------------------------------------------------------------

  /** A loop row with five fields, which the parser accepts. */
  function NamedLoopRow(id: int, line: int, fid: int, name: string): string {
    IntToString(id) + " " + "loop" + " " + IntToString(line) + " " + IntToString(fid) + " " + name
  }

  lemma NamedLoopRowParses(id: int, line: int, fid: int, name: string)
    requires Solid(name) && name != ""
    ensures ParseRow(NamedLoopRow(id, line, fid, name)) == Some((id, CodeSection(LOOP, line, fid, name)))
  {
    IntegersAreSolid(id);
    IntegersAreSolid(line);
    IntegersAreSolid(fid);
    WordOfSolid("loop");
    WordOfSolid(name);
    FourFields(IntToString(id), "loop", IntToString(line), IntToString(fid));
    FieldsConcat(IntToString(id) + " " + "loop" + " " + IntToString(line) + " " + IntToString(fid), ' ', name);
    FieldsParse(id, LOOP, line, fid, [name]);
  }

  lemma OneRow(row: string, id: int, section: CodeSection)
    requires ParseRow(row) == Some((id, section))
    ensures CsIdOf([row]) == map[id := section]
  {
    var rows := ParsedRows([row]);
    assert rows[0] == Some((id, section)) && rows[..0] == [];
    assert TableOf(rows[..0]) == map[];
  }

  /** The name is not written, so the measurements of such a loop do not come back. */
  method NamedLoopIsLost(id: int, line: int, fid: int, name: string, mapping: FileMapping, time: real)
    returns (runs: seq<Regions>, rows: seq<string>, results: seq<map<int, real>>)
    requires Solid(name) && name != "" && NotMisleading(mapping) && time > 0.0
    ensures |runs| == |results| && runs != [] && forall j :: 0 <= j < |runs| ==> !ReadsBack(rows, mapping, results[j], runs[j])
  {
    var lines, file := [NamedLoopRow(id, line, fid, name)], map[id := time];
    NamedLoopRowParses(id, line, fid, name);
    OneRow(lines[0], id, CodeSection(LOOP, line, fid, name));
    var merged;
    runs, merged := RenderMergedAnalysisInput(lines, mapping, [file]);
    SomethingIsMeasured(runs, file, SerializedTable(ResolveKeys(CsIdOf(lines), mapping)), id);
    rows, results := merged.value.0, merged.value.1;
    forall j | 0 <= j < |runs| ensures !ReadsBack(rows, mapping, results[j], runs[j]) {
      NamedLoopDoesNotComeBack(lines, mapping, file, runs[j], rows, results[j], id);
    }
  }

  lemma NamedLoopDoesNotComeBack(lines: seq<string>, mapping: FileMapping, file: map<int, real>, run: Regions,
                                 rows: seq<string>, result: map<int, real>, id: int)
    requires ComesFromFile(lines, mapping, [file], run, rows, result)
    requires id in CsIdOf(lines) && CsIdOf(lines)[id].kind == LOOP && CsIdOf(lines)[id].name != "" && id in file && file[id] > 0.0
    ensures !ReadsBack(rows, mapping, result, run)
  {
    var f :| f in [file] && NamelessComesBack(lines, mapping, f, run, rows, result);
  }

  lemma SomethingIsMeasured(runs: seq<Regions>, file: map<int, real>, named: map<int, string>, id: int)
    requires AreRunsOf(runs, [file], named) && id in file && id in named && file[id] > 0.0
    ensures runs != []
  {
    RunsAreCollected(runs, [file], named);
    assert file in [file];
  }

  // ----- Paths that read like a region key ---------------------------------------------------

  /** What follows the path in the printed form. */
  function Tail(k: RegionKey): string {
    IntToString(k.line) + ":" + KindText(k.kind) + if k.name != "" then ":" + k.name else ""
  }

  lemma PathThenTail(k: RegionKey)
    ensures Serialize(k) == k.path + ":" + Tail(k)
  {
    var line, kind := IntToString(k.line), KindText(k.kind);
    assert k.path + ":" + line + ":" + kind == k.path + ":" + (line + ":" + kind);
    if k.name != "" {
      Regrouped(k.path + ":", line + ":" + kind, ":" + k.name);
    }
  }

  /** A key whose path is the printed form of another key. */
  function Inside(outer: RegionKey, k: RegionKey): RegionKey {
    outer.(name := outer.name + ":" + Tail(k))
  }

  lemma NameInside(prefix: string, name: string, tail: string)
    ensures prefix + ":" + name + ":" + tail == prefix + ":" + (name + ":" + tail)
  {}

  lemma NamedTail(k: RegionKey, more: string)
    requires k.name != ""
    ensures Tail(k.(name := k.name + ":" + more)) == Tail(k) + ":" + more
  {
    NameInside(IntToString(k.line) + ":" + KindText(k.kind), k.name, more);
  }

  /** It prints like a key of the other file, and is read as that. */
  lemma TakenForAnother(outer: RegionKey, k: RegionKey)
    requires outer.name != "" && !Misleading(outer.path) && k.path == Serialize(outer)
    ensures Serialize(k) == Serialize(Inside(outer, k))
    ensures Deserialize(Serialize(k)) == Some(Inside(outer, k))
    ensures Misleading(k.path)
  {
    PathThenTail(k);
    PathThenTail(outer);
    PathThenTail(Inside(outer, k));
    NamedTail(outer, Tail(k));
    NameInside(outer.path, Tail(outer), Tail(k));
    RoundTripExactly(Inside(outer, k));
    RoundTripExactly(k);
    assert |k.path| > |outer.path|;
  }

  lemma OneMergedId(runs: seq<Regions>, s: string, time: real, k: RegionKey, keys: seq<RegionKey>, result: map<int, real>)
      returns (i: nat)
    requires Canonical(keys, runs) && map[s := time] in runs && Deserialize(s) == Some(k) && s == Serialize(k)
    requires IsMergedResult(result, map[s := time], IdsOf(Names(keys)))
    ensures i < |keys| && keys[i] == k && forall id :: id in result ==> id == i + 1
  {
    assert s in map[s := time] && k in keys;
    i :| i < |keys| && keys[i] == k;
    NameAt(keys, i);
    CanonicalNames(keys, runs);
  }

  /** What is taken for a loop with a name does not come back, unless the file found for the other
      path has a misleading path as well. */
  lemma TakenForNamedLoopIsLost(runs: seq<Regions>, s: string, time: real, k: RegionKey, keys: seq<RegionKey>,
                                mapping: FileMapping, inverted: map<string, int>, result: map<int, real>)
    requires Deserialize(s) == Some(k) && s == Serialize(k) && k.kind == LOOP && k.name != ""
    requires !Misleading(PathOf(mapping, FidForPath(k.path, inverted)))
    requires Canonical(keys, runs) && map[s := time] in runs
    requires IsMergedResult(result, map[s := time], IdsOf(Names(keys)))
    ensures !ReadsBack(CsRows(keys, inverted), mapping, result, map[s := time])
  {
    var i := OneMergedId(runs, s, time, k, keys, result);
    if ReadsBack(CsRows(keys, inverted), mapping, result, map[s := time]) {
      var named := SerializedTable(ResolveKeys(CsIdOf(CsRows(keys, inverted)), mapping));
      MergedNames(keys, mapping, inverted);
      var regions := SomethingIsCollected(result, named);
      assert regions == map[s := time];
      CollectedIsMeasured(regions, result, named, s);
      NameAt(RereadKeys(keys, mapping, inverted), i);
      RoundTripExactly(Reread(k, mapping, inverted));
    }
  }

  /** So a region in a file that reads like a loop, say `a:5:LOOP:b`, is lost. */
  lemma MisleadingPathIsLost(outer: RegionKey, k: RegionKey, time: real, runs: seq<Regions>, keys: seq<RegionKey>,
                             mapping: FileMapping, inverted: map<string, int>, result: map<int, real>)
    requires outer.kind == LOOP && outer.name != "" && !Misleading(outer.path) && k.path == Serialize(outer)
    requires !Misleading(PathOf(mapping, FidForPath(outer.path, inverted)))
    requires Canonical(keys, runs) && map[Serialize(k) := time] in runs
    requires IsMergedResult(result, map[Serialize(k) := time], IdsOf(Names(keys)))
    ensures !ReadsBack(CsRows(keys, inverted), mapping, result, map[Serialize(k) := time])
  {
    TakenForAnother(outer, k);
    TakenForNamedLoopIsLost(runs, Serialize(k), time, Inside(outer, k), keys, mapping, inverted, result);
  }

  /** Not every misleading path does harm: in a file that reads like a function of another mapped
      file, say `a:5:FUNCTION:b`, a region without white space in its name comes back. */
  lemma MisleadingPathMayComeBack(outer: RegionKey, k: RegionKey, time: real, mapping: FileMapping, fid: int,
                                  runs: seq<Regions>, keys: seq<RegionKey>, inverted: map<string, int>, result: map<int, real>)
    requires outer.kind == FUNCTION && outer.name != "" && !Misleading(outer.path) && k.path == Serialize(outer)
    requires Solid(outer.name) && Solid(k.name) && outer.path == PathOf(mapping, fid) && time > 0.0
    requires map[Serialize(k) := time] in runs && Canonical(keys, runs) && Inverts(inverted, mapping)
    requires IsMergedResult(result, map[Serialize(k) := time], IdsOf(Names(keys)))
    ensures Misleading(k.path) && ReadsBack(CsRows(keys, inverted), mapping, result, map[Serialize(k) := time])
  {
    TakenForAnother(outer, k);
    InsideIsProper(outer, k, mapping, fid);
    PrintedIsProperName(Inside(outer, k), mapping);
    ProperStands(Serialize(k), mapping, inverted);
    RunComesBack(runs, map[Serialize(k) := time], keys, mapping, inverted, result);
  }

  lemma InsideIsProper(outer: RegionKey, k: RegionKey, mapping: FileMapping, fid: int)
    requires outer.kind == FUNCTION && !Misleading(outer.path) && Solid(outer.name) && Solid(k.name)
    requires outer.path == PathOf(mapping, fid)
    ensures Proper(Inside(outer, k), mapping)
  {
    SolidTail(k);
  }

  lemma SolidTail(k: RegionKey)
    requires Solid(k.name)
    ensures Solid(Tail(k))
  {
    IntegersComeBack(k.line);
    forall c | c in KindText(k.kind) ensures !IsSpace(c) {}
  }
}
