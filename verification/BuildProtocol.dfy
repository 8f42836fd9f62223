/** What a sequence of build and run events means for the project's own build directory. */
module BuildProtocol {

  /** Instrumentation for hotspot detection, or for the dependency profiler. */
  datatype Settings = Hotspot | Discovery

  datatype Status = Success | Error | Skipped

  /** Something done to the project from outside. `Restore` is the attempt to rebuild plainly. */
  datatype Event =
    | Compile(settings: Settings, ok: bool)
    | Execute(settings: Settings, config: string)
    | RunTool
    | Restore(outcome: Status)

  /** What the build directory is known to hold. */
  datatype Build = Unknown | Ready(settings: Settings) | Plain

  predicate Builds(e: Event) {
    e.Compile? || (e.Restore? && e.outcome != Skipped)
  }

  function BuildAfter(events: seq<Event>): Build {
    if events == [] then Unknown
    else
      match events[|events| - 1]
      case Compile(s, ok) => if ok then Ready(s) else Unknown
      case Restore(Success) => Plain
      case Restore(Error) => Unknown
      case _ => BuildAfter(events[..|events| - 1])
  }

  /** The program is run only when the build directory holds what these settings compiled. */
  predicate Legal(events: seq<Event>) {
    events == [] ||
    (var before, last := events[..|events| - 1], events[|events| - 1];
     Legal(before) && (last.Execute? ==> BuildAfter(before) == Ready(last.settings)))
  }

  predicate HasCompile(events: seq<Event>) {
    exists k :: 0 <= k < |events| && events[k].Compile?
  }

  predicate HasRestore(events: seq<Event>) {
    exists k :: 0 <= k < |events| && events[k].Restore?
  }

  /** What one call does: it runs only what it compiled itself, and it ends in an attempt to
      rebuild plainly if, and only if, it compiled anything in place. */
  ghost predicate Protocol(events: seq<Event>) {
    Legal(events) &&
    (HasCompile(events) <==> HasRestore(events)) &&
    forall k :: 0 <= k < |events| && events[k].Restore? ==> k == |events| - 1
  }

  predicate HasBuild(events: seq<Event>) {
    exists k :: 0 <= k < |events| && Builds(events[k])
  }

  lemma BuildAppended(events: seq<Event>, e: Event)
    ensures HasBuild(events + [e]) <==> HasBuild(events) || Builds(e)
  {
    var all := events + [e];
    assert all[|events|] == e && forall k :: 0 <= k < |events| ==> all[k] == events[k];
    if HasBuild(events) {
      var k :| 0 <= k < |events| && Builds(events[k]);
      assert Builds(all[k]);
    }
  }

  lemma Appended(events: seq<Event>, e: Event)
    ensures Legal(events + [e]) <==> Legal(events) && (e.Execute? ==> BuildAfter(events) == Ready(e.settings))
    ensures BuildAfter(events + [e]) == (
      match e
      case Compile(s, ok) => if ok then Ready(s) else Unknown
      case Restore(Success) => Plain
      case Restore(Error) => Unknown
      case _ => BuildAfter(events))
    ensures HasCompile(events + [e]) <==> HasCompile(events) || e.Compile?
    ensures HasRestore(events + [e]) <==> HasRestore(events) || e.Restore?
  {
    var all := events + [e];
    assert all[..|all| - 1] == events && all[|events|] == e;
    assert forall k :: 0 <= k < |events| ==> all[k] == events[k];
    if HasCompile(events) {
      var k :| 0 <= k < |events| && events[k].Compile?;
      assert all[k].Compile?;
    }
    if HasRestore(events) {
      var k :| 0 <= k < |events| && events[k].Restore?;
      assert all[k].Restore?;
    }
  }

  // ----- What it means, event by event ---------------------------------------------------

  /** A compile with these settings succeeded before `k`, and nothing was built since. */
  ghost predicate PreparedBy(events: seq<Event>, j: nat, k: nat, s: Settings) {
    j < k <= |events| && events[j] == Compile(s, true) && forall m :: j < m < k ==> !Builds(events[m])
  }

  ghost predicate Prepared(events: seq<Event>, k: nat, s: Settings) {
    exists j: nat :: PreparedBy(events, j, k, s)
  }

  lemma {:induction false} ReadyMeansPrepared(events: seq<Event>, s: Settings)
    ensures BuildAfter(events) == Ready(s) <==> Prepared(events, |events|, s)
  {
    var n := |events|;
    if n == 0 {
    } else {
      var before, last := events[..n - 1], events[n - 1];
      ReadyMeansPrepared(before, s);
      if Prepared(before, n - 1, s) && !Builds(last) {
        var j: nat :| PreparedBy(before, j, n - 1, s);
        assert PreparedBy(events, j, n, s);
      }
      if last == Compile(s, true) {
        assert PreparedBy(events, n - 1, n, s);
      }
      if Prepared(events, n, s) && last != Compile(s, true) {
        var j: nat :| PreparedBy(events, j, n, s);
        assert j < n - 1;
        assert PreparedBy(before, j, n - 1, s);
      }
    }
  }

  lemma ReadyNeedsBuild(events: seq<Event>)
    ensures BuildAfter(events).Ready? ==> HasBuild(events)
  {
    if BuildAfter(events).Ready? {
      var s := BuildAfter(events).settings;
      ReadyMeansPrepared(events, s);
      var j: nat :| PreparedBy(events, j, |events|, s);
      assert Builds(events[j]);
    }
  }

  /** Legal runs are those in which every run of the program comes after a successful compile
      with the same settings, with no other build in between. */
  lemma {:induction false} LegalMeansPrepared(events: seq<Event>)
    ensures Legal(events) <==> forall k :: 0 <= k < |events| && events[k].Execute? ==> Prepared(events[..k], k, events[k].settings)
  {
    var n := |events|;
    if n == 0 {
    } else {
      var before, last := events[..n - 1], events[n - 1];
      LegalMeansPrepared(before);
      if last.Execute? {
        ReadyMeansPrepared(before, last.settings);
      }
      assert forall k :: 0 <= k < n - 1 ==> before[k] == events[k] && before[..k] == events[..k];
    }
  }

  /** Without a compile there is no run of the program. */
  lemma {:induction false} NothingCompiledNothingRun(events: seq<Event>)
    requires Legal(events) && !HasCompile(events)
    ensures !BuildAfter(events).Ready?
    ensures forall k :: 0 <= k < |events| ==> !events[k].Execute?
  {
    if events == [] {
    } else {
      var before, last := events[..|events| - 1], events[|events| - 1];
      assert before + [last] == events;
      Appended(before, last);
      NothingCompiledNothingRun(before);
    }
  }

  // ----- Over any number of calls --------------------------------------------------------

  function Flatten(calls: seq<seq<Event>>): seq<Event> {
    if calls == [] then [] else Flatten(calls[..|calls| - 1]) + calls[|calls| - 1]
  }

  lemma {:induction false} LegalConcat(a: seq<Event>, b: seq<Event>)
    requires Legal(a) && Legal(b)
    ensures Legal(a + b)
    ensures BuildAfter(a + b) == if HasBuild(b) then BuildAfter(b) else BuildAfter(a)
  {
    if b == [] {
      assert a + b == a;
    } else {
      var before, last := b[..|b| - 1], b[|b| - 1];
      assert before + [last] == b && a + b == (a + before) + [last];
      LegalConcat(a, before);
      Appended(before, last);
      Appended(a + before, last);
      BuildAppended(before, last);
      ReadyNeedsBuild(before);
    }
  }

  ghost predicate AllRestored(calls: seq<seq<Event>>) {
    forall c, k :: 0 <= c < |calls| && 0 <= k < |calls[c]| && calls[c][k].Restore? ==> calls[c][k].outcome == Success
  }

  /** What a call that keeps the protocol leaves in the build directory. */
  lemma LeftByCall(before: seq<Event>, call: seq<Event>)
    requires Legal(before) && Protocol(call)
    ensures Legal(before + call)
    ensures HasCompile(call) && call[|call| - 1].outcome == Success ==> BuildAfter(before + call) == Plain
    ensures !HasCompile(call) ==> BuildAfter(before + call) == BuildAfter(before)
  {
    LegalConcat(before, call);
    if HasCompile(call) {
      assert HasRestore(call);
      var k :| 0 <= k < |call| && call[k].Restore?;
      assert call[|call| - 1].Restore?;
      var j :| 0 <= j < |call| && call[j].Compile?;
      assert Builds(call[j]) && HasBuild(call);
    } else {
      assert !HasRestore(call);
    }
  }

  /** Calls that each keep the protocol are safe one after the other, and leave no instrumented
      build behind as long as the plain rebuilds they attempt succeed. */
  lemma {:induction false} SessionIsSafe(calls: seq<seq<Event>>)
    requires forall c :: 0 <= c < |calls| ==> Protocol(calls[c])
    ensures Legal(Flatten(calls))
    ensures AllRestored(calls) ==> !BuildAfter(Flatten(calls)).Ready?
  {
    if calls == [] {
    } else {
      var before, last := calls[..|calls| - 1], calls[|calls| - 1];
      SessionIsSafe(before);
      LeftByCall(Flatten(before), last);
      if AllRestored(calls) {
        assert forall c :: 0 <= c < |before| ==> before[c] == calls[c];
        assert AllRestored(before);
        if HasCompile(last) {
          assert HasRestore(last);
          var k :| 0 <= k < |last| && last[k].Restore?;
          assert calls[|calls| - 1][k].Restore?;
        }
      }
    }
  }
}
