/** The steps of data gathering over a project directory, and the call that runs them. */
module GatherData {
  import opened Collections
  import opened BuildProtocol

  type Time = int

  /** What the steps look at: which files exist, and when results were written. */
  datatype Files = Files(
    configurations: set<string>,             // configs/<name>/
    compileScripts: set<string>,             // names whose compile script, own or shared, exists
    executeScripts: set<string>,             // configs/<name>/execute.sh
    settings: set<Settings>,                 // hd_settings.json, dp_settings.json
    plainSettings: bool,                     // par_settings.json or seq_settings.json
    results: Option<map<string, Time>>,      // hotspot_detection/private/ and its result files
    profiled: seq<string>,                   // configurations recorded as profiled
    hotspots: Option<Time>,                  // Hotspots.json
    dataXml: Option<Time>,
    dynamicDependencies: Option<Time>,
    patterns: Option<Time>,
    applied: seq<string>)                    // suggestions recorded as applied

  datatype StepResult = StepResult(status: Status, compiledInPlace: bool)

  /** What the tests at the head of a step decide. */
  datatype Check = Refused | Current | Due

  function Names(names: seq<string>): set<string> {
    set name | name in names
  }

  lemma SameNames(a: seq<string>, b: seq<string>)
    ensures Names(a) == Names(b) <==> forall name :: name in a <==> name in b
  {
    if Names(a) == Names(b) {
      forall name ensures name in a <==> name in b {
        assert name in a <==> name in Names(a);
        assert name in b <==> name in Names(b);
      }
    }
  }

  predicate UpToDate(source: Option<Time>, result: Time) {
    source.None? || source.value <= result
  }

  predicate ResultsUpToDate(results: map<string, Time>, source: Option<Time>) {
    exists f :: f in results && UpToDate(source, results[f])
  }

  function HotspotInstrumentationCheck(files: Files, config: string, hotspotConfigs: seq<string>, force: bool, source: Option<Time>): Check {
    if config !in files.configurations || config !in files.compileScripts || Hotspot !in files.settings then Refused
    else if !force && files.results.Some? && Names(files.profiled) == Names(hotspotConfigs) &&
            ResultsUpToDate(files.results.value, source) then Current
    else Due
  }

  function HotspotProfilingCheck(files: Files, config: string, force: bool, source: Option<Time>): Check {
    if config !in files.executeScripts || Hotspot !in files.settings then Refused
    else if !force && files.results.Some? && config in files.profiled &&
            ResultsUpToDate(files.results.value, source) then Current
    else Due
  }

  function HotspotAnalysisCheck(files: Files, force: bool, source: Option<Time>): Check {
    if files.results.None? || files.results.value == map[] then Refused
    else if !force && files.hotspots.Some? && UpToDate(source, files.hotspots.value) then Current
    else Due
  }

  function InstrumentationCheck(files: Files, config: string, force: bool, source: Option<Time>): Check {
    if config !in files.configurations || config !in files.compileScripts || Discovery !in files.settings then Refused
    else if !force && files.dataXml.Some? && files.dynamicDependencies.Some? &&
            UpToDate(source, if files.dataXml.value <= files.dynamicDependencies.value
                             then files.dataXml.value else files.dynamicDependencies.value) then Current
    else Due
  }

  function ProfilingCheck(files: Files, config: string, force: bool, source: Option<Time>): Check {
    if config !in files.executeScripts || files.dataXml.None? || Discovery !in files.settings then Refused
    else if !force && files.dynamicDependencies.Some? && UpToDate(source, files.dynamicDependencies.value) then Current
    else Due
  }

  function DetectionCheck(files: Files, force: bool, source: Option<Time>): Check {
    if files.dataXml.None? || files.dynamicDependencies.None? then Refused
    else if !force && files.patterns.Some? && UpToDate(source, files.patterns.value) then Current
    else Due
  }

  /** A skipped instrumentation leaves no profiling to do: the build it would need was restored
      by an earlier call. */
  lemma SkippedInstrumentationLeavesNothingDue(files: Files, config: string, force: bool, source: Option<Time>)
    ensures InstrumentationCheck(files, config, force, source) == Current ==>
            ProfilingCheck(files, config, force, source) == (if config in files.executeScripts then Current else Refused)
  {
  }

  /** The same for hotspots, for each of the requested configurations. */
  lemma SkippedHotspotInstrumentationLeavesNothingDue(
    files: Files, config: string, hotspotConfigs: seq<string>, force: bool, source: Option<Time>, requested: string)
    requires requested in hotspotConfigs
    ensures HotspotInstrumentationCheck(files, config, hotspotConfigs, force, source) == Current ==>
            HotspotProfilingCheck(files, requested, force, source) ==
            (if requested in files.executeScripts then Current else Refused)
  {
    assert requested in Names(hotspotConfigs);
    if HotspotInstrumentationCheck(files, config, hotspotConfigs, force, source) == Current {
      assert requested in Names(files.profiled);
    }
  }

  /** What the result of a call lists about its steps; a step that was not reached has none. */
  datatype Steps = Steps(
    hotspotInstrumentation: Option<StepResult>,
    hotspotProfiling: seq<StepResult>,
    hotspotAnalysis: Option<StepResult>,
    instrumentation: Option<StepResult>,
    profiling: Option<StepResult>,
    detection: Option<StepResult>)

  datatype Outcome = Outcome(status: Status, cancelled: bool, steps: Steps, restore: Option<Status>)

  predicate Done(r: Option<StepResult>) {
    r.Some? && r.value.status != Error
  }

  predicate Marked(r: Option<StepResult>) {
    r.Some? && r.value.compiledInPlace
  }

  /** The pipeline's answer before any rebuild: a success has run or skipped every required
      step, and a cancelled call is none. */
  predicate Reported(o: Outcome) {
    o.restore.None? && o.status != Skipped && (o.cancelled ==> o.status == Error) &&
    (o.status == Success ==> Done(o.steps.instrumentation) && Done(o.steps.profiling) && Done(o.steps.detection))
  }

  predicate CompiledInPlace(steps: Steps) {
    Marked(steps.hotspotInstrumentation) || Marked(steps.instrumentation)
  }

  /** The steps that succeeded did their work, and with `force` none was skipped. */
  ghost predicate Worked(steps: Steps, config: string, hotspotConfigs: seq<string>, force: bool, events: seq<Event>) {
    && Did(steps.hotspotInstrumentation, Compile(Hotspot, true), force, events)
    && Ran(steps.hotspotProfiling, hotspotConfigs, force, events)
    && Did(steps.hotspotAnalysis, RunTool, force, events)
    && Did(steps.instrumentation, Compile(Discovery, true), force, events)
    && Did(steps.profiling, Execute(Discovery, config), force, events)
    && Did(steps.detection, RunTool, force, events)
  }

  ghost predicate Did(step: Option<StepResult>, work: Event, force: bool, events: seq<Event>) {
    step.Some? ==>
      (step.value.status == Success ==> work in events) && (step.value.status == Skipped ==> !force)
  }

  /** Each run is that of its configuration. */
  ghost predicate Ran(runs: seq<StepResult>, hotspotConfigs: seq<string>, force: bool, events: seq<Event>) {
    |runs| <= |hotspotConfigs| &&
    forall n :: 0 <= n < |runs| ==> Did(Some(runs[n]), Execute(Hotspot, hotspotConfigs[n]), force, events)
  }

  lemma StillDid(step: Option<StepResult>, work: Event, force: bool, events: seq<Event>, more: seq<Event>)
    requires Did(step, work, force, events) && events <= more
    ensures Did(step, work, force, more)
  {
    if work in events {
      var k :| 0 <= k < |events| && events[k] == work;
      assert more[k] == work;
    }
  }

  lemma StillRan(runs: seq<StepResult>, hotspotConfigs: seq<string>, force: bool, events: seq<Event>, more: seq<Event>)
    requires Ran(runs, hotspotConfigs, force, events) && events <= more
    ensures Ran(runs, hotspotConfigs, force, more)
  {
    forall n | 0 <= n < |runs| ensures Did(Some(runs[n]), Execute(Hotspot, hotspotConfigs[n]), force, more) {
      StillDid(Some(runs[n]), Execute(Hotspot, hotspotConfigs[n]), force, events, more);
    }
  }

  lemma OneMoreRan(runs: seq<StepResult>, run: StepResult, hotspotConfigs: seq<string>, force: bool, events: seq<Event>, more: seq<Event>)
    requires Ran(runs, hotspotConfigs, force, events) && events <= more && |runs| < |hotspotConfigs|
    requires Did(Some(run), Execute(Hotspot, hotspotConfigs[|runs|]), force, more)
    ensures Ran(runs + [run], hotspotConfigs, force, more)
  {
    StillRan(runs, hotspotConfigs, force, events, more);
  }

  lemma StillWorked(steps: Steps, config: string, hotspotConfigs: seq<string>, force: bool, events: seq<Event>, more: seq<Event>)
    requires Worked(steps, config, hotspotConfigs, force, events) && events <= more
    ensures Worked(steps, config, hotspotConfigs, force, more)
  {
    StillDid(steps.hotspotInstrumentation, Compile(Hotspot, true), force, events, more);
    StillRan(steps.hotspotProfiling, hotspotConfigs, force, events, more);
    StillDid(steps.hotspotAnalysis, RunTool, force, events, more);
    StillDid(steps.instrumentation, Compile(Discovery, true), force, events, more);
    StillDid(steps.profiling, Execute(Discovery, config), force, events, more);
    StillDid(steps.detection, RunTool, force, events, more);
  }

  /** Unless it is cancelled, each half goes on as long as its steps do not fail. */
  ghost predicate HotspotsComplete(steps: Steps, hotspotConfigs: seq<string>) {
    && (steps.hotspotInstrumentation.Some? <==> hotspotConfigs != [])
    && |steps.hotspotProfiling| == (if Done(steps.hotspotInstrumentation) then |hotspotConfigs| else 0)
    && (steps.hotspotAnalysis.Some? <==>
        Done(steps.hotspotInstrumentation) && forall r :: r in steps.hotspotProfiling ==> r.status != Error)
  }

  ghost predicate RequiredComplete(o: Outcome) {
    && o.steps.instrumentation.Some?
    && (o.steps.profiling.Some? <==> Done(o.steps.instrumentation))
    && (o.steps.detection.Some? <==> Done(o.steps.profiling))
    && (o.status == Success <==> Done(o.steps.detection))
  }

  /** The instrumentation was skipped where what it saw was current, and compiled where not. */
  ghost predicate InstrumentedIfDue(seen: Files, config: string, force: bool, source: Option<Time>, status: Status, events: seq<Event>) {
    if config !in seen.configurations || config !in seen.compileScripts || Discovery !in seen.settings then status == Error
    else
      && (status == Skipped <==>
          && !force && seen.dataXml.Some? && seen.dynamicDependencies.Some?
          && (source.None? || (source.value <= seen.dataXml.value && source.value <= seen.dynamicDependencies.value)))
      && (status != Skipped ==> exists ok :: Compile(Discovery, ok) in events)
  }

  lemma StillInstrumented(seen: Files, config: string, force: bool, source: Option<Time>, status: Status, events: seq<Event>, more: seq<Event>)
    requires InstrumentedIfDue(seen, config, force, source, status, events) && events <= more
    ensures InstrumentedIfDue(seen, config, force, source, status, more)
  {
    if ok :| Compile(Discovery, ok) in events {
      var k :| 0 <= k < |events| && events[k] == Compile(Discovery, ok);
      assert more[k] == Compile(Discovery, ok);
    }
  }

  /** Something run from outside: what it began with, and what it returned. */
  datatype Run = Run(began: Files, returned: Option<int>)

  class Workspace {
    var files: Files
    /** What was run last, if anything was. */
    ghost var last: Option<Run>
    /** What the present call has done so far. */
    var events: seq<Event>
    /** What each finished call did. */
    var calls: seq<seq<Event>>
    /** Whether the client has cancelled the present call. */
    var cancelled: bool

    constructor ()
      ensures events == [] && calls == []
    {
      files := *;
      events := [];
      calls := [];
      cancelled := false;
      last := None;
    }

    ghost predicate Valid()
      reads this
    {
      forall c :: 0 <= c < |calls| ==> Protocol(calls[c])
    }

    /** Whether the client has cancelled by now; that cannot be taken back. */
    method Cancelled() returns (c: bool)
      modifies this`cancelled
      ensures c == cancelled && (old(cancelled) ==> cancelled)
    {
      c := *;
      cancelled := cancelled || c;
      c := cancelled;
    }

    /** Something run from outside: it may change any file. */
    method RunCompile(s: Settings) returns (returncode: Option<int>)
      modifies this`files, this`events, this`last
      ensures events == old(events) + [Compile(s, returncode == Some(0))] && last == Some(Run(old(files), returncode))
    {
      returncode := *;
      last := Some(Run(files, returncode));
      files := *;
      events := events + [Compile(s, returncode == Some(0))];
    }

    method RunProgram(s: Settings, config: string) returns (returncode: Option<int>)
      modifies this`files, this`events, this`last
      ensures events == old(events) + [Execute(s, config)] && last == Some(Run(old(files), returncode))
    {
      returncode := *;
      last := Some(Run(files, returncode));
      files := *;
      events := events + [Execute(s, config)];
    }

    /** Runs an analysis tool; it may be missing or run out of time. */
    method Analyze() returns (found: bool, ok: bool)
      modifies this`files, this`events, this`last
      ensures if found then events == old(events) + [RunTool] && last.Some? && last.value.began == old(files)
              else events == old(events) && files == old(files)
      ensures found ==> (ok <==> last.value.returned == Some(0))
    {
      found := *;
      ok := false;
      if found {
        var returncode: Option<int> := *;
        last := Some(Run(files, returncode));
        ok := returncode == Some(0);
        files := *;
        events := events + [RunTool];
      }
    }

    method InstrumentHotspots(config: string, hotspotConfigs: seq<string>, force: bool, source: Option<Time>) returns (r: StepResult)
      modifies this`files, this`events, this`last
      ensures match HotspotInstrumentationCheck(old(files), config, hotspotConfigs, force, source)
              case Refused => r == StepResult(Error, false) && events == old(events) && files == old(files)
              case Current => r == StepResult(Skipped, false) && events == old(events) && files == old(files)
              case Due =>
                r.status != Skipped && r.compiledInPlace &&
                events == old(events) + [Compile(Hotspot, r.status == Success)]
      ensures (var f := old(files);
               var ready := config in f.configurations && config in f.compileScripts && Hotspot in f.settings;
               var current :=
                 && !force && f.results.Some? && (forall name :: name in f.profiled <==> name in hotspotConfigs)
                 && exists file :: file in f.results.value && (source.None? || source.value <= f.results.value[file]);
               && (r.status == Skipped <==> ready && current)
               && events == old(events) + if ready && !current then [Compile(Hotspot, r.status == Success)] else [])
      ensures events != old(events) ==>
                && last.Some? && last.value.began == old(files).(results := None, profiled := [], hotspots := None)
                && (r.status == Success <==> last.value.returned == Some(0))
    {
      SameNames(files.profiled, hotspotConfigs);
      match HotspotInstrumentationCheck(files, config, hotspotConfigs, force, source)
      case Refused => return StepResult(Error, false);
      case Current => return StepResult(Skipped, false);
      case Due =>
        files := files.(results := None, profiled := [], hotspots := None);
        var returncode := RunCompile(Hotspot);
        if returncode.None? || returncode.value != 0 {
          return StepResult(Error, true);
        }
        return StepResult(Success, true);
    }

    method ProfileHotspots(config: string, force: bool, source: Option<Time>) returns (r: StepResult)
      modifies this`files, this`events, this`last
      ensures !r.compiledInPlace
      ensures match HotspotProfilingCheck(old(files), config, force, source)
              case Refused => r.status == Error && events == old(events) && files == old(files)
              case Current => r.status == Skipped && events == old(events) && files == old(files)
              case Due => r.status != Skipped && events == old(events) + [Execute(Hotspot, config)]
      ensures r.status == Success ==> files.results.Some? && files.results.value != map[] && config in files.profiled
      ensures (var f := old(files);
               var ready := config in f.executeScripts && Hotspot in f.settings;
               var current :=
                 && !force && f.results.Some? && config in f.profiled
                 && exists file :: file in f.results.value && (source.None? || source.value <= f.results.value[file]);
               && (r.status == Skipped <==> ready && current)
               && events == old(events) + if ready && !current then [Execute(Hotspot, config)] else [])
      ensures events != old(events) ==> (
                var measured := files.results.Some? && exists file :: file in files.results.value;
                && last.Some? && (r.status == Success <==> last.value.returned == Some(0) && measured)
                && (last.value.returned != Some(0) && last.value.returned != None ==>
                    forall file :: measured && file in files.results.value ==> old(files).results.Some? && file in old(files).results.value))
    {
      match HotspotProfilingCheck(files, config, force, source)
      case Refused => return StepResult(Error, false);
      case Current => return StepResult(Skipped, false);
      case Due =>
        var before := if files.results.Some? then files.results.value.Keys else {};
        var returncode := RunProgram(Hotspot, config);
        if returncode.None? {
          return StepResult(Error, false);
        }
        if returncode.value != 0 {
          if files.results.Some? {
            files := files.(results := Some(map f | f in files.results.value && f in before :: files.results.value[f]));
          }
          return StepResult(Error, false);
        }
        if files.results.None? || files.results.value == map[] {
          return StepResult(Error, false);
        }
        if config !in files.profiled {
          files := files.(profiled := files.profiled + [config]);
        }
        return StepResult(Success, false);
    }

    method AnalyzeHotspots(force: bool, source: Option<Time>) returns (r: StepResult)
      modifies this`files, this`events, this`last
      ensures !r.compiledInPlace
      ensures match HotspotAnalysisCheck(old(files), force, source)
              case Refused => r.status == Error && events == old(events) && files == old(files)
              case Current => r.status == Skipped && events == old(events) && files == old(files)
              case Due => r.status != Skipped && (events == old(events) || events == old(events) + [RunTool])
      ensures r.status == Success ==> events == old(events) + [RunTool]
      ensures (var f := old(files);
               var ready := f.results.Some? && exists file :: file in f.results.value;
               var current := !force && f.hotspots.Some? && (source.None? || source.value <= f.hotspots.value);
               && (r.status == Skipped <==> ready && current)
               && (!ready ==> r.status == Error)
               && (events != old(events) ==> ready && !current))
      ensures events != old(events) ==>
                && last.Some? && (r.status == Success <==> last.value.returned == Some(0))
                && (r.status == Error ==> files.hotspots.None?)
    {
      match HotspotAnalysisCheck(files, force, source)
      case Refused => return StepResult(Error, false);
      case Current => return StepResult(Skipped, false);
      case Due =>
        var found, ok := Analyze();
        if found && !ok {
          files := files.(hotspots := None);
        }
        return StepResult(if found && ok then Success else Error, false);
    }

    method Instrument(config: string, force: bool, source: Option<Time>) returns (r: StepResult)
      modifies this`files, this`events, this`last
      ensures match InstrumentationCheck(old(files), config, force, source)
              case Refused => r == StepResult(Error, false) && events == old(events) && files == old(files)
              case Current => r == StepResult(Skipped, false) && events == old(events) && files == old(files)
              case Due =>
                r.compiledInPlace &&
                ((r.status == Error && events == old(events) + [Compile(Discovery, false)]) ||
                 (r.status == (if files.dataXml.Some? then Success else Error) &&
                  events == old(events) + [Compile(Discovery, true)]))
      ensures (var f := old(files);
               var ready := config in f.configurations && config in f.compileScripts && Discovery in f.settings;
               var due :=
                 force || f.dataXml.None? || f.dynamicDependencies.None? ||
                 (source.Some? && (source.value > f.dataXml.value || source.value > f.dynamicDependencies.value));
               && (r.status == Skipped <==> ready && !due)
               && (events == old(events) <==> !ready || !due)
               && (ready && due ==> exists ok :: events == old(events) + [Compile(Discovery, ok)]))
      ensures events != old(events) ==>
                && last.Some? && last.value.began == old(files).(dataXml := None, dynamicDependencies := None)
                && (r.status == Success <==> last.value.returned == Some(0) && files.dataXml.Some?)
    {
      match InstrumentationCheck(files, config, force, source)
      case Refused => return StepResult(Error, false);
      case Current => return StepResult(Skipped, false);
      case Due =>
        files := files.(dataXml := None, dynamicDependencies := None);
        var returncode := RunCompile(Discovery);
        if returncode.None? || returncode.value != 0 {
          return StepResult(Error, true);
        }
        return StepResult(if files.dataXml.None? then Error else Success, true);
    }

    method Profile(config: string, force: bool, source: Option<Time>) returns (r: StepResult)
      modifies this`files, this`events, this`last
      ensures !r.compiledInPlace
      ensures match ProfilingCheck(old(files), config, force, source)
              case Refused => r.status == Error && events == old(events) && files == old(files)
              case Current => r.status == Skipped && events == old(events) && files == old(files)
              case Due => r.status != Skipped && events == old(events) + [Execute(Discovery, config)]
      ensures r.status == Success ==> files.dynamicDependencies.Some?
      ensures (var f := old(files);
               var ready := config in f.executeScripts && f.dataXml.Some? && Discovery in f.settings;
               var due :=
                 force || f.dynamicDependencies.None? || (source.Some? && source.value > f.dynamicDependencies.value);
               && (r.status == Skipped <==> ready && !due)
               && events == old(events) + if ready && due then [Execute(Discovery, config)] else [])
      ensures events != old(events) ==>
                && last.Some? && (r.status == Success <==> last.value.returned == Some(0) && files.dynamicDependencies.Some?)
                && (r.status == Error && last.value.returned != None ==> files.dynamicDependencies.None?)
    {
      match ProfilingCheck(files, config, force, source)
      case Refused => return StepResult(Error, false);
      case Current => return StepResult(Skipped, false);
      case Due =>
        var returncode := RunProgram(Discovery, config);
        if returncode.None? {
          return StepResult(Error, false);
        }
        if returncode.value != 0 {
          files := files.(dynamicDependencies := None);
          return StepResult(Error, false);
        }
        return StepResult(if files.dynamicDependencies.None? then Error else Success, false);
    }

    method DetectPatterns(force: bool, source: Option<Time>) returns (r: StepResult)
      modifies this`files, this`events, this`last
      ensures !r.compiledInPlace
      ensures match DetectionCheck(old(files), force, source)
              case Refused => r.status == Error && events == old(events) && files == old(files)
              case Current => r.status == Skipped && events == old(events) && files == old(files)
              case Due => r.status != Skipped && (events == old(events) || events == old(events) + [RunTool])
      ensures r.status == Success ==> events == old(events) + [RunTool]
      ensures (var f := old(files);
               var ready := f.dataXml.Some? && f.dynamicDependencies.Some?;
               var due := force || f.patterns.None? || (source.Some? && source.value > f.patterns.value);
               && (r.status == Skipped <==> ready && !due)
               && (!ready ==> r.status == Error)
               && (events != old(events) ==> ready && due))
      ensures events != old(events) ==>
                && last.Some? && (r.status == Success <==> last.value.returned == Some(0))
                && (r.status == Error ==> files.patterns.None?)
    {
      match DetectionCheck(files, force, source)
      case Refused => return StepResult(Error, false);
      case Current => return StepResult(Skipped, false);
      case Due =>
        var found, ok := Analyze();
        if found && !ok {
          files := files.(patterns := None);
        }
        return StepResult(if found && ok then Success else Error, false);
    }

    /** What the pipeline keeps between its steps. */
    ghost predicate Underway(steps: Steps)
      reads this
    {
      Legal(events) && !HasRestore(events) && (HasCompile(events) <==> CompiledInPlace(steps))
    }

    /** Runs each of the configurations, until the client cancels. */
    method ProfileAll(config: string, hotspotConfigs: seq<string>, force: bool, source: Option<Time>, ghost steps: Steps)
      returns (runs: seq<StepResult>)
      requires Underway(steps) && steps.hotspotInstrumentation.Some?
      requires BuildAfter(events) == Ready(Hotspot) ||
               (events == [] && HotspotInstrumentationCheck(files, config, hotspotConfigs, force, source) == Current)
      modifies this
      ensures calls == old(calls) && Underway(steps)
      ensures old(events) == [] ==> events == []
      ensures old(events) <= events && Ran(runs, hotspotConfigs, force, events)
      ensures (old(cancelled) ==> cancelled) && (cancelled || |runs| == |hotspotConfigs|)
    {
      runs := [];
      for n := 0 to |hotspotConfigs|
        invariant calls == old(calls) && Underway(steps)
        invariant BuildAfter(events) == Ready(Hotspot) ||
                  (events == [] && HotspotInstrumentationCheck(files, config, hotspotConfigs, force, source) == Current)
        invariant old(events) == [] ==> events == []
        invariant old(events) <= events && |runs| == n && Ran(runs, hotspotConfigs, force, events)
        invariant old(cancelled) ==> cancelled
      {
        var stop := Cancelled();
        if stop {
          break;
        }
        ghost var before := events;
        var run := ProfileOne(config, hotspotConfigs, n, force, source, steps);
        OneMoreRan(runs, run, hotspotConfigs, force, before, events);
        runs := runs + [run];
      }
    }

    /** Runs one of the configurations. */
    method ProfileOne(ghost config: string, hotspotConfigs: seq<string>, n: nat, force: bool, source: Option<Time>, ghost steps: Steps)
      returns (run: StepResult)
      requires Underway(steps) && n < |hotspotConfigs|
      requires BuildAfter(events) == Ready(Hotspot) ||
               (events == [] && HotspotInstrumentationCheck(files, config, hotspotConfigs, force, source) == Current)
      modifies this`files, this`events, this`last
      ensures Underway(steps) && old(events) <= events
      ensures if old(events) == [] then events == [] && files == old(files) else BuildAfter(events) == Ready(Hotspot)
      ensures Did(Some(run), Execute(Hotspot, hotspotConfigs[n]), force, events)
    {
      if BuildAfter(events) != Ready(Hotspot) {
        SkippedHotspotInstrumentationLeavesNothingDue(files, config, hotspotConfigs, force, source, hotspotConfigs[n]);
      }
      Appended(events, Execute(Hotspot, hotspotConfigs[n]));
      run := ProfileHotspots(hotspotConfigs[n], force, source);
    }

    /** The hotspot half: compile, run once per configuration, analyze. */
    method HotspotPipeline(config: string, hotspotConfigs: seq<string>, force: bool, source: Option<Time>) returns (steps: Steps)
      requires events == [] && hotspotConfigs != []
      modifies this
      ensures calls == old(calls) && Underway(steps) && (old(cancelled) ==> cancelled)
      ensures steps.instrumentation.None? && steps.profiling.None? && steps.detection.None?
      ensures steps.hotspotInstrumentation.Some? && Worked(steps, config, hotspotConfigs, force, events)
      ensures !cancelled ==> HotspotsComplete(steps, hotspotConfigs)
      ensures steps.hotspotInstrumentation.value.status == Skipped ==> events == [] || events == [RunTool]
    {
      var instrumented := StartHotspots(config, hotspotConfigs, force, source);
      steps := Started(instrumented);
      var stop := Cancelled();
      if instrumented.status == Error || stop {
        return;
      }
      ghost var started := events;
      var runs := ProfileAll(config, hotspotConfigs, force, source, steps);
      StillDid(steps.hotspotInstrumentation, Compile(Hotspot, true), force, started, events);
      ghost var before := events;
      steps := AnalyzeProfiled(runs, config, hotspotConfigs, force, source, steps);
      assert before == [] ==> before + [RunTool] == [RunTool];
    }

    function Started(r: StepResult): Steps {
      Steps(Some(r), [], None, None, None, None)
    }

    method StartHotspots(config: string, hotspotConfigs: seq<string>, force: bool, source: Option<Time>) returns (r: StepResult)
      requires Legal(events) && !HasCompile(events) && !HasRestore(events)
      modifies this`files, this`events, this`last
      ensures Underway(Started(r)) && Did(Some(r), Compile(Hotspot, true), force, events)
      ensures r.status == Success ==> BuildAfter(events) == Ready(Hotspot)
      ensures r.status == Skipped ==>
                events == old(events) && HotspotInstrumentationCheck(files, config, hotspotConfigs, force, source) == Current
    {
      Appended(events, Compile(Hotspot, true));
      Appended(events, Compile(Hotspot, false));
      r := InstrumentHotspots(config, hotspotConfigs, force, source);
    }

    /** Analyzes once every run has succeeded or was skipped. */
    method AnalyzeProfiled(runs: seq<StepResult>, config: string, hotspotConfigs: seq<string>, force: bool, source: Option<Time>, before: Steps)
      returns (steps: Steps)
      requires Underway(before) && before.hotspotInstrumentation.Some? && before == Started(before.hotspotInstrumentation.value)
      requires Did(before.hotspotInstrumentation, Compile(Hotspot, true), force, events) && Ran(runs, hotspotConfigs, force, events)
      modifies this
      ensures calls == old(calls) && Underway(steps) && Worked(steps, config, hotspotConfigs, force, events)
      ensures steps == before.(hotspotProfiling := runs, hotspotAnalysis := steps.hotspotAnalysis)
      ensures (old(cancelled) ==> cancelled) &&
              (!cancelled ==> (steps.hotspotAnalysis.Some? <==> forall r :: r in runs ==> r.status != Error))
      ensures events == old(events) || events == old(events) + [RunTool]
    {
      steps := before.(hotspotProfiling := runs);
      var stop := Cancelled();
      if !stop && forall r :: r in runs ==> r.status != Error {
        Appended(events, RunTool);
        var analyzed := AnalyzeHotspots(force, source);
        StillWorked(steps, config, hotspotConfigs, force, old(events), events);
        steps := steps.(hotspotAnalysis := Some(analyzed));
      }
    }

    /** Compiles for the dependency profiler where that is due. */
    method StartProfiler(config: string, hotspotConfigs: seq<string>, force: bool, source: Option<Time>, before: Steps)
      returns (steps: Steps, r: StepResult)
      requires Underway(before) && before.instrumentation.None? && Worked(before, config, hotspotConfigs, force, events)
      modifies this`files, this`events, this`last
      ensures Underway(steps) && steps == before.(instrumentation := Some(r))
      ensures InstrumentedIfDue(old(files), config, force, source, r.status, events)
      ensures Worked(steps, config, hotspotConfigs, force, events)
      ensures r.status == Success ==> BuildAfter(events) == Ready(Discovery)
      ensures r.status == Skipped ==> InstrumentationCheck(files, config, force, source) == Current
    {
      Appended(events, Compile(Discovery, true));
      Appended(events, Compile(Discovery, false));
      r := Instrument(config, force, source);
      StillWorked(before, config, hotspotConfigs, force, old(events), events);
      steps := before.(instrumentation := Some(r));
    }

    /** The required half: compile, run, detect patterns. `before` holds the hotspot steps. */
    method RequiredPipeline(config: string, hotspotConfigs: seq<string>, force: bool, source: Option<Time>, before: Steps)
      returns (outcome: Outcome)
      requires Underway(before) && !cancelled && Worked(before, config, hotspotConfigs, force, events)
      requires before.instrumentation.None? && before.profiling.None? && before.detection.None?
      modifies this
      ensures calls == old(calls) && Underway(outcome.steps) && Reported(outcome) && outcome.cancelled == cancelled
      ensures Worked(outcome.steps, config, hotspotConfigs, force, events) && outcome.steps.instrumentation.Some?
      ensures !cancelled ==> RequiredComplete(outcome)
      ensures HotspotSteps(outcome.steps) == HotspotSteps(before)
      ensures InstrumentedIfDue(old(files), config, force, source, outcome.steps.instrumentation.value.status, events)
    {
      var steps, instrumented := StartProfiler(config, hotspotConfigs, force, source, before);
      var stop := Cancelled();
      if stop {
        return Outcome(Error, true, steps, None);
      }
      if instrumented.status == Error {
        return Outcome(Error, false, steps, None);
      }
      stop := Cancelled();
      if stop {
        return Outcome(Error, true, steps, None);
      }
      if instrumented.status == Skipped {
        SkippedInstrumentationLeavesNothingDue(files, config, force, source);
      }
      ghost var done := events;
      outcome := RunAndDetect(config, hotspotConfigs, force, source, steps);
      StillInstrumented(old(files), config, force, source, instrumented.status, done, events);
    }

    /** The hotspot half of the steps. */
    function HotspotSteps(steps: Steps): Steps {
      steps.(instrumentation := None, profiling := None, detection := None)
    }

    method RunAndDetect(config: string, hotspotConfigs: seq<string>, force: bool, source: Option<Time>, before: Steps)
      returns (outcome: Outcome)
      requires Underway(before) && !cancelled && Worked(before, config, hotspotConfigs, force, events)
      requires Done(before.instrumentation) && before.profiling.None? && before.detection.None?
      requires ProfilingCheck(files, config, force, source) == Due ==> BuildAfter(events) == Ready(Discovery)
      modifies this
      ensures calls == old(calls) && Underway(outcome.steps) && Reported(outcome) && outcome.cancelled == cancelled
      ensures Worked(outcome.steps, config, hotspotConfigs, force, events) && (!cancelled ==> RequiredComplete(outcome))
      ensures outcome.steps == before.(profiling := outcome.steps.profiling, detection := outcome.steps.detection)
      ensures old(events) <= events
    {
      var steps := before;
      Appended(events, Execute(Discovery, config));
      var profiled := Profile(config, force, source);
      StillWorked(before, config, hotspotConfigs, force, old(events), events);
      steps := steps.(profiling := Some(profiled));
      var stop := Cancelled();
      if stop {
        return Outcome(Error, true, steps, None);
      }
      if profiled.status == Error {
        return Outcome(Error, false, steps, None);
      }

      stop := Cancelled();
      if stop {
        return Outcome(Error, true, steps, None);
      }
      outcome := Detect(config, hotspotConfigs, force, source, steps);
    }

    /** The last step; `before` holds the others. */
    method Detect(config: string, hotspotConfigs: seq<string>, force: bool, source: Option<Time>, before: Steps)
      returns (outcome: Outcome)
      requires Underway(before) && !cancelled && Worked(before, config, hotspotConfigs, force, events)
      requires Done(before.instrumentation) && Done(before.profiling) && before.detection.None?
      modifies this
      ensures calls == old(calls) && Underway(outcome.steps) && Reported(outcome) && outcome.cancelled == cancelled
      ensures Worked(outcome.steps, config, hotspotConfigs, force, events) && (!cancelled ==> RequiredComplete(outcome))
      ensures outcome.steps == before.(detection := outcome.steps.detection)
      ensures old(events) <= events
    {
      Appended(events, RunTool);
      var detected := DetectPatterns(force, source);
      StillWorked(before, config, hotspotConfigs, force, old(events), events);
      var steps := before.(detection := Some(detected));
      var stop := Cancelled();
      if stop {
        return Outcome(Error, true, steps, None);
      }
      return Outcome(if detected.status == Error then Error else Success, false, steps, None);
    }

    /** The pipeline. Whether the hotspot half went well only words a warning and is left out.
        `seen` is what the instrumentation looks at. */
    method Pipeline(config: string, hotspotConfigs: seq<string>, force: bool, source: Option<Time>)
      returns (outcome: Outcome, ghost seen: Files)
      requires events == [] && !cancelled
      modifies this
      ensures calls == old(calls) && Underway(outcome.steps) && Reported(outcome) && outcome.cancelled == cancelled
      ensures Worked(outcome.steps, config, hotspotConfigs, force, events)
      ensures !cancelled ==> HotspotsComplete(outcome.steps, hotspotConfigs) && RequiredComplete(outcome)
      ensures hotspotConfigs == [] ==> seen == old(files)
      ensures outcome.steps.instrumentation.Some? ==>
                InstrumentedIfDue(seen, config, force, source, outcome.steps.instrumentation.value.status, events)
    {
      var steps := Steps(None, [], None, None, None, None);
      if hotspotConfigs != [] {
        steps := HotspotPipeline(config, hotspotConfigs, force, source);
      }
      seen := files;
      var stop := Cancelled();
      if stop {
        return Outcome(Error, true, steps, None), seen;
      }
      ghost var hotspots := HotspotSteps(steps);
      outcome := RequiredPipeline(config, hotspotConfigs, force, source, steps);
      assert HotspotSteps(outcome.steps) == hotspots;
    }

    method RestorePlainBuild(config: string) returns (status: Status)
      modifies this`files, this`events, this`last
      ensures events == old(events) + [Restore(status)]
      ensures status == Skipped <==>
              !old(files).plainSettings || config !in old(files).compileScripts || config !in old(files).configurations
      ensures status == Skipped ==> files == old(files)
      ensures status != Skipped ==> last.Some? && (status == Success <==> last.value.returned == Some(0))
    {
      if !files.plainSettings || config !in files.compileScripts || config !in files.configurations {
        status := Skipped;
      } else {
        // a rebuild that raises, returns nothing or fails is reported as an error
        var returncode: Option<int> := *;
        last := Some(Run(files, returncode));
        files := *;
        status := if returncode == Some(0) then Success else Error;
      }
      events := events + [Restore(status)];
    }

    /** One call. `validName` says which names can name a configuration, `source` when the sources
        were changed last. `seen` is what the instrumentation looks at: without hotspot
        configurations, the files as they are at the beginning. */
    method Handle(config: string, hotspotConfigs: seq<string>, force: bool, source: Option<Time>, validName: string -> bool)
      returns (outcome: Outcome, ghost seen: Files)
      requires Valid()
      modifies this
      ensures Valid() && calls == old(calls) + [events]
      ensures Protocol(events)
      ensures HasCompile(events) <==> CompiledInPlace(outcome.steps)
      ensures outcome.restore.Some? <==> CompiledInPlace(outcome.steps)
      ensures outcome.restore.Some? ==> events != [] && events[|events| - 1] == Restore(outcome.restore.value)
      ensures Reported(outcome.(restore := None)) && outcome.cancelled == cancelled
      ensures (exists name :: name in [config] + hotspotConfigs && !validName(name)) || old(files).applied != [] ==>
                outcome.status == Error && events == [] && files == old(files)
      ensures (forall name :: name in [config] + hotspotConfigs ==> validName(name)) && old(files).applied == [] && !cancelled ==>
                HotspotsComplete(outcome.steps, hotspotConfigs) && RequiredComplete(outcome)
      ensures hotspotConfigs == [] ==> seen == old(files)
      ensures outcome.steps.instrumentation.Some? ==> (
                var status := outcome.steps.instrumentation.value.status;
                if config in seen.configurations && config in seen.compileScripts && Discovery in seen.settings then
                  && (status == Skipped <==>
                      && !force && seen.dataXml.Some? && seen.dynamicDependencies.Some?
                      && (source.None? || (source.value <= seen.dataXml.value && source.value <= seen.dynamicDependencies.value)))
                  && (status != Skipped ==> exists ok :: Compile(Discovery, ok) in events)
                else status == Error)
      ensures outcome.status == Success && force ==>
                Compile(Discovery, true) in events && Execute(Discovery, config) in events && RunTool in events
      ensures Worked(outcome.steps, config, hotspotConfigs, force, events)
    {
      events, cancelled := [], false;
      seen := files;
      var none := Steps(None, [], None, None, None, None);
      if exists name :: name in [config] + hotspotConfigs && !validName(name) {
        calls := calls + [events];
        return Outcome(Error, false, none, None), seen;
      }
      if files.applied != [] {
        calls := calls + [events];
        return Outcome(Error, false, none, None), seen;
      }
      outcome, seen := RunAndRestore(config, hotspotConfigs, force, source);
      calls := calls + [events];
    }

    /** The pipeline, and the plain rebuild if it compiled anything in place. */
    method RunAndRestore(config: string, hotspotConfigs: seq<string>, force: bool, source: Option<Time>)
      returns (outcome: Outcome, ghost seen: Files)
      requires events == [] && !cancelled
      modifies this
      ensures calls == old(calls) && Protocol(events) && (HasCompile(events) <==> CompiledInPlace(outcome.steps))
      ensures outcome.restore.Some? <==> CompiledInPlace(outcome.steps)
      ensures outcome.restore.Some? ==> events != [] && events[|events| - 1] == Restore(outcome.restore.value)
      ensures Reported(outcome.(restore := None)) && outcome.cancelled == cancelled
      ensures Worked(outcome.steps, config, hotspotConfigs, force, events)
      ensures !cancelled ==> HotspotsComplete(outcome.steps, hotspotConfigs) && RequiredComplete(outcome)
      ensures hotspotConfigs == [] ==> seen == old(files)
      ensures outcome.steps.instrumentation.Some? ==>
                InstrumentedIfDue(seen, config, force, source, outcome.steps.instrumentation.value.status, events)
    {
      outcome, seen := Pipeline(config, hotspotConfigs, force, source);
      if CompiledInPlace(outcome.steps) {
        var status := RestoreAfter(config, hotspotConfigs, force, source, seen, outcome.steps);
        outcome := outcome.(restore := Some(status));
      }
    }

    /** Rebuilds plainly once the steps are done, which keeps what they did. */
    method RestoreAfter(config: string, ghost hotspotConfigs: seq<string>, ghost force: bool, ghost source: Option<Time>,
                        ghost seen: Files, ghost steps: Steps)
      returns (status: Status)
      requires Underway(steps) && CompiledInPlace(steps) && Worked(steps, config, hotspotConfigs, force, events)
      requires steps.instrumentation.Some? ==>
                 InstrumentedIfDue(seen, config, force, source, steps.instrumentation.value.status, events)
      modifies this`files, this`events, this`last
      ensures Protocol(events) && HasCompile(events)
      ensures events != [] && events[|events| - 1] == Restore(status)
      ensures Worked(steps, config, hotspotConfigs, force, events)
      ensures steps.instrumentation.Some? ==>
                InstrumentedIfDue(seen, config, force, source, steps.instrumentation.value.status, events)
    {
      ghost var before := events;
      status := RestorePlainBuild(config);
      Appended(before, Restore(status));
      StillWorked(steps, config, hotspotConfigs, force, before, events);
      if steps.instrumentation.Some? {
        StillInstrumented(seen, config, force, source, steps.instrumentation.value.status, before, events);
      }
    }
  }

  datatype Request = Request(config: string, hotspotConfigs: seq<string>, force: bool, source: Option<Time>)

  /** Any number of calls, one after the other. */
  method Serve(requests: seq<Request>, validName: string -> bool) returns (w: Workspace)
    ensures fresh(w) && |w.calls| == |requests| && w.Valid()
    ensures Legal(Flatten(w.calls))
    ensures AllRestored(w.calls) ==> !BuildAfter(Flatten(w.calls)).Ready?
  {
    w := new Workspace();
    for n := 0 to |requests|
      invariant fresh(w) && w.Valid() && |w.calls| == n
    {
      var r := requests[n];
      var _, _ := w.Handle(r.config, r.hotspotConfigs, r.force, r.source, validName);
    }
    SessionIsSafe(w.calls);
  }
}
