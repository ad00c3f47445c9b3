/** Starting xcodebuild: log lines, the exit of the process and the status probes race.

The events come in any order. `retryInterval` of asyncbox is taken to make at most
`times` attempts, to stop at the first that does not throw, to throw if the last one
throws, and to make none at all when `times` is not positive. */
module XcodeBuildStart {
  import opened Strings
  import opened Wrappers

  // ---------- Configuration ----------

  const IGNORED_ERRORS := [
    "Error writing attachment data to file",
    "Error copying testing attachment",
    "Failed to remove screenshot at path"
  ]

  const FAILURE_MARKER := "Error Domain="

  const DEFAULT_LAUNCH_TIMEOUT := 60000

  const PROBE_TIMEOUT := 1000

  predicate IsIgnored(line: string) {
    exists e :: e in IGNORED_ERRORS && Contains(line, e)
  }

  /** Truncating division, as `Math.trunc(timeout / 500)`. */
  function Retries(launchTimeout: int): int {
    var timeout := if launchTimeout == 0 then DEFAULT_LAUNCH_TIMEOUT else launchTimeout;
    if timeout >= 0 then timeout / 500 else -(-timeout / 500)
  }

  datatype Config = Config(buildOnly: bool, logDisabled: bool, launchTimeout: int)

  // ---------- State and events ----------

  type Status = string

  datatype Outcome = Resolved(status: Option<Status>) | Rejected

  /** Where the asynchronous part of `start` is. */
  datatype Phase =
    | Spawning                          // the process is being started
    | Ready                             // before the next attempt
    | Probing(savedTimeout: int)        // a status request is under way
    | Returning                         // waitForStart returns the current status
    | Throwing                          // waitForStart throws
    | Done

  /** `didProcessExit` is what the exit handler writes, `privateDidProcessExit` stands
  for the field `_didProcessExit`, which the retry loop reads. */
  datatype State = State(
    didBuildFail: bool,
    didProcessExit: bool,
    privateDidProcessExit: bool,
    listening: bool,
    settled: Option<Outcome>,
    phase: Phase,
    tries: nat,
    currentStatus: Option<Status>,
    proxyTimeout: int)

  datatype Event =
    | Line(line: string)
    | Exit(code: Option<int>, signal: bool)
    | Spawned
    | SpawnFailed
    | Attempt
    | ProbeSucceeded(status: Status)
    | ProbeFailed
    | Continue

  /** What an earlier start of the same object, such as a prebuild, leaves behind: both
  flags are set but never reset. */
  datatype Earlier = Earlier(didBuildFail: bool, didProcessExit: bool)

  function Initial(proxyTimeout: int, earlier: Earlier): State {
    State(earlier.didBuildFail, earlier.didProcessExit, false, true, None, Spawning, 0, None, proxyTimeout)
  }

  /** A promise settles once; later calls of resolve and reject do nothing. */
  function Settle(st: State, outcome: Outcome): State {
    if st.settled.Some? then st else st.(settled := Some(outcome))
  }

  predicate Fails(st: State, code: Option<int>, signal: bool) {
    st.didBuildFail || (!signal && code != Some(0))
  }

  function OnLine(c: Config, st: State, line: string): State {
    if !st.listening || c.logDisabled || IsIgnored(line) then st
    else if Contains(line, FAILURE_MARKER) then st.(didBuildFail := true)
    else st
  }

  function OnExit(c: Config, st: State, code: Option<int>, signal: bool): State {
    if !st.listening then st
    else
      var exited := st.(listening := false, didProcessExit := true);
      if Fails(st, code, signal) then Settle(exited, Rejected)
      else if c.buildOnly then Settle(exited, Resolved(None))
      else exited
  }

  function OnSpawned(c: Config, st: State): State {
    if c.buildOnly then st.(phase := Done)
    else if Retries(c.launchTimeout) <= 0 then st.(phase := Returning)
    else st.(phase := Ready)
  }

  function OnAttempt(st: State): State {
    var tried := st.(tries := st.tries + 1);
    if st.privateDidProcessExit then tried.(phase := Returning)
    else tried.(phase := Probing(st.proxyTimeout), proxyTimeout := PROBE_TIMEOUT)
  }

  function OnProbe(c: Config, st: State, status: Option<Status>): State
    requires st.phase.Probing?
  {
    var restored := st.(proxyTimeout := st.phase.savedTimeout);
    if status.Some? then restored.(currentStatus := status, phase := Returning)
    else restored.(phase := if st.tries >= Retries(c.launchTimeout) then Throwing else Ready)
  }

  /** One event. An event that cannot happen in the current phase is passed over. */
  function Step(c: Config, st: State, ev: Event): State {
    match ev
    case Line(line) => OnLine(c, st, line)
    case Exit(code, signal) => OnExit(c, st, code, signal)
    case Spawned => if st.phase.Spawning? then OnSpawned(c, st) else st
    case SpawnFailed => if st.phase.Spawning? then Settle(st.(phase := Done), Rejected) else st
    case Attempt => if st.phase.Ready? then OnAttempt(st) else st
    case ProbeSucceeded(status) => if st.phase.Probing? then OnProbe(c, st, Some(status)) else st
    case ProbeFailed => if st.phase.Probing? then OnProbe(c, st, None) else st
    case Continue =>
      if st.phase.Returning? then Settle(st.(phase := Done), Resolved(st.currentStatus))
      else if st.phase.Throwing? then Settle(st.(phase := Done), Rejected)
      else st
  }

  function Run(c: Config, st: State, evs: seq<Event>): State {
    if evs == [] then st else Step(c, Run(c, st, evs[..|evs| - 1]), evs[|evs| - 1])
  }

  /** The state before the i-th event. */
  function Before(c: Config, st: State, evs: seq<Event>, i: nat): State
    requires i <= |evs|
  {
    Run(c, st, evs[..i])
  }

  // ---------- Invariants of every run ----------

  /** Has a status probe been answered? */
  predicate Probed(st: State) {
    st.currentStatus.Some?
  }

  ghost predicate Invariant(c: Config, proxyTimeout: int, st: State) {
    && !st.privateDidProcessExit
    && (!st.listening ==> st.didProcessExit)
    && st.proxyTimeout == (if st.phase.Probing? then PROBE_TIMEOUT else proxyTimeout)
    && (st.phase.Probing? ==> st.phase.savedTimeout == proxyTimeout)
    && (st.tries == 0 || st.tries <= Retries(c.launchTimeout))
    && (st.phase.Spawning? ==> st.tries == 0)
    && (st.phase.Ready? ==> st.tries < Retries(c.launchTimeout))
    && (st.phase.Probing? ==> 0 < st.tries)
    && (c.buildOnly ==> (st.phase.Spawning? || st.phase.Done?) && !Probed(st))
    && (st.phase.Returning? ==> Probed(st) || Retries(c.launchTimeout) <= 0)
    && (Probed(st) ==> st.phase.Returning? || st.phase.Done?)
    && (st.phase.Throwing? ==> !Probed(st))
    && (st.settled.Some? && st.settled.value.Resolved? ==>
          if c.buildOnly then !st.listening
          else (Probed(st) || Retries(c.launchTimeout) <= 0) && st.settled.value.status == st.currentStatus)
  }

  lemma StepKeepsInvariant(c: Config, proxyTimeout: int, st: State, ev: Event)
    requires Invariant(c, proxyTimeout, st)
    ensures Invariant(c, proxyTimeout, Step(c, st, ev))
  {
  }

  lemma {:induction false} RunKeepsInvariant(c: Config, proxyTimeout: int, earlier: Earlier, evs: seq<Event>)
    ensures Invariant(c, proxyTimeout, Run(c, Initial(proxyTimeout, earlier), evs))
  {
    if evs != [] {
      var front, last := evs[..|evs| - 1], evs[|evs| - 1];
      RunKeepsInvariant(c, proxyTimeout, earlier, front);
      StepKeepsInvariant(c, proxyTimeout, Run(c, Initial(proxyTimeout, earlier), front), last);
    }
  }

  /** Whatever happens, at most `Retries` probes are made, and the proxy timeout is a
  second while a probe is under way and the original one otherwise. */
  lemma ProbesAreBounded(c: Config, proxyTimeout: int, earlier: Earlier, evs: seq<Event>)
    ensures var st := Run(c, Initial(proxyTimeout, earlier), evs);
      && st.tries <= (if Retries(c.launchTimeout) > 0 then Retries(c.launchTimeout) else 0)
      && st.proxyTimeout == if st.phase.Probing? then 1000 else proxyTimeout
  {
    RunKeepsInvariant(c, proxyTimeout, earlier, evs);
  }

  // ---------- The outcome ----------

  lemma SettledStays(c: Config, st: State, ev: Event)
    requires st.settled.Some?
    ensures Step(c, st, ev).settled == st.settled
  {
  }

  lemma {:induction false} OutcomeIsFinal(c: Config, st: State, evs: seq<Event>, i: nat)
    requires i <= |evs| && Before(c, st, evs, i).settled.Some?
    ensures Run(c, st, evs).settled == Before(c, st, evs, i).settled
    decreases |evs|
  {
    if i == |evs| {
      assert evs[..i] == evs;
    } else {
      var front := evs[..|evs| - 1];
      assert front[..i] == evs[..i];
      OutcomeIsFinal(c, st, front, i);
      SettledStays(c, Run(c, st, front), evs[|evs| - 1]);
    }
  }

  /** Is event `i` the exit of the process, seen by the handler, and a failing one? */
  predicate FailingExitAt(c: Config, st: State, evs: seq<Event>, i: nat)
    requires i < |evs|
  {
    evs[i].Exit? && Before(c, st, evs, i).listening && Fails(Before(c, st, evs, i), evs[i].code, evs[i].signal)
  }

  predicate GoodExitAt(c: Config, st: State, evs: seq<Event>, i: nat)
    requires i < |evs|
  {
    evs[i].Exit? && Before(c, st, evs, i).listening && !Fails(Before(c, st, evs, i), evs[i].code, evs[i].signal)
  }

  /** Where an attempt is allowed at all, a failing exit before any answered probe
  rejects the start, whatever comes after it. */
  lemma FailingExitRejects(c: Config, proxyTimeout: int, earlier: Earlier, evs: seq<Event>, i: nat)
    requires i < |evs| && (c.buildOnly || Retries(c.launchTimeout) >= 1)
    requires FailingExitAt(c, Initial(proxyTimeout, earlier), evs, i)
    requires !Probed(Before(c, Initial(proxyTimeout, earlier), evs, i))
    ensures Run(c, Initial(proxyTimeout, earlier), evs).settled == Some(Rejected)
  {
    var st := Initial(proxyTimeout, earlier);
    RunKeepsInvariant(c, proxyTimeout, earlier, evs[..i]);
    assert evs[..i + 1][..i] == evs[..i];
    assert Before(c, st, evs, i + 1) == Step(c, Before(c, st, evs, i), evs[i]);
    OutcomeIsFinal(c, st, evs, i + 1);
  }

  /** Does every failing exit before an answered probe reject the start, in every run? */
  ghost predicate FailingExitsReject(c: Config, st: State) {
    forall evs, i: nat :: i < |evs| && FailingExitAt(c, st, evs, i) && !Probed(Before(c, st, evs, i)) ==>
      Run(c, st, evs).settled == Some(Rejected)
  }

  /** A failing exit before any answered probe rejects the start, in every run, exactly
  when the start is build-only or at least one attempt is allowed for. */
  lemma FailingExitRejectsIff(c: Config, proxyTimeout: int, earlier: Earlier)
    ensures FailingExitsReject(c, Initial(proxyTimeout, earlier))
       <==> c.buildOnly || c.launchTimeout == 0 || c.launchTimeout >= 500
  {
    var st := Initial(proxyTimeout, earlier);
    if c.buildOnly || c.launchTimeout == 0 || c.launchTimeout >= 500 {
      forall evs, i: nat | i < |evs| && FailingExitAt(c, st, evs, i) && !Probed(Before(c, st, evs, i))
        ensures Run(c, st, evs).settled == Some(Rejected)
      {
        FailingExitRejects(c, proxyTimeout, earlier, evs, i);
      }
    } else {
      ExitTooLate(c, st);
    }
  }

  /** Without an attempt the start has resolved by the time the process fails. */
  lemma ExitTooLate(c: Config, st: State)
    requires !c.buildOnly && Retries(c.launchTimeout) <= 0
    requires st.listening && st.settled.None? && st.phase.Spawning? && !Probed(st)
    ensures !FailingExitsReject(c, st)
  {
    var evs := [Spawned, Continue, Exit(Some(1), false)];
    assert evs[..2] == [Spawned, Continue] && evs[..2][..1] == [Spawned] && [Spawned][..0] == [];
    assert Run(c, st, [Spawned]) == Step(c, st, Spawned);
    assert Before(c, st, evs, 2) == Step(c, Step(c, st, Spawned), Continue);
    assert FailingExitAt(c, st, evs, 2) && !Probed(Before(c, st, evs, 2));
    assert Run(c, st, evs).settled == Some(Resolved(None));
  }

  predicate IsResolved(st: State) {
    st.settled.Some? && st.settled.value.Resolved?
  }

  /** Is event `i` an exit that does not fail and finds the start unsettled? */
  predicate ResolvingExitAt(c: Config, st: State, evs: seq<Event>, i: nat)
    requires i < |evs|
  {
    GoodExitAt(c, st, evs, i) && Before(c, st, evs, i).settled.None?
  }

  ghost predicate HasResolvingExit(c: Config, st: State, evs: seq<Event>) {
    exists i: nat :: i < |evs| && ResolvingExitAt(c, st, evs, i)
  }

  lemma ResolvingExitAppend(c: Config, st: State, front: seq<Event>, ev: Event)
    ensures HasResolvingExit(c, st, front + [ev])
       <==> HasResolvingExit(c, st, front) || ResolvingExitAt(c, st, front + [ev], |front|)
  {
    var evs := front + [ev];
    forall i: nat | i < |front| ensures ResolvingExitAt(c, st, evs, i) <==> ResolvingExitAt(c, st, front, i) {
      assert evs[..i] == front[..i];
    }
  }

  /** A build-only start resolves exactly through an exit that does not fail and finds it unsettled. */
  lemma {:induction false} BuildOnlyResolvesIff(c: Config, proxyTimeout: int, earlier: Earlier, evs: seq<Event>)
    requires c.buildOnly
    ensures var st := Initial(proxyTimeout, earlier);
      IsResolved(Run(c, st, evs)) <==> HasResolvingExit(c, st, evs)
    decreases |evs|
  {
    if evs != [] {
      var st, front, last := Initial(proxyTimeout, earlier), evs[..|evs| - 1], evs[|evs| - 1];
      BuildOnlyResolvesIff(c, proxyTimeout, earlier, front);
      RunKeepsInvariant(c, proxyTimeout, earlier, front);
      ResolvingExitAppend(c, st, front, last);
      assert front + [last] == evs && evs[..|front|] == front;
    }
  }

  /** Does every run that resolves resolve with the answer of a probe? */
  ghost predicate ResolvesOnlyWithAnswer(c: Config, proxyTimeout: int, earlier: Earlier) {
    forall evs :: IsResolved(Run(c, Initial(proxyTimeout, earlier), evs)) ==>
      Run(c, Initial(proxyTimeout, earlier), evs).settled.value.status.Some?
  }

  /** A start resolves only with an answered probe exactly when at least one attempt
  is allowed for, that is, unless the launch timeout is set below 500 ms. */
  lemma ResolvesWithAnswerIff(c: Config, proxyTimeout: int, earlier: Earlier)
    requires !c.buildOnly
    ensures ResolvesOnlyWithAnswer(c, proxyTimeout, earlier) <==> c.launchTimeout == 0 || c.launchTimeout >= 500
  {
    var st := Initial(proxyTimeout, earlier);
    if c.launchTimeout == 0 || c.launchTimeout >= 500 {
      assert Retries(c.launchTimeout) >= 1;
      forall evs | IsResolved(Run(c, st, evs)) ensures Run(c, st, evs).settled.value.status.Some? {
        RunKeepsInvariant(c, proxyTimeout, earlier, evs);
      }
    } else {
      assert Retries(c.launchTimeout) <= 0;
      var evs := [Spawned, Continue];
      assert evs[..1] == [Spawned] && evs[..1][..0] == [];
      assert Run(c, st, evs[..1]) == Step(c, st, Spawned);
      assert IsResolved(Run(c, st, evs)) && Run(c, st, evs).settled.value.status.None?;
    }
  }

  // ---------- The failure flag ----------

  predicate ReportsFailure(c: Config, ev: Event) {
    ev.Line? && !c.logDisabled && !IsIgnored(ev.line) && Contains(ev.line, FAILURE_MARKER)
  }

  predicate NoExit(evs: seq<Event>) {
    forall i :: 0 <= i < |evs| ==> !evs[i].Exit?
  }

  lemma StepBuildFail(c: Config, st: State, ev: Event)
    ensures Step(c, st, ev).listening <==> st.listening && !ev.Exit?
    ensures Step(c, st, ev).didBuildFail <==> st.didBuildFail || (st.listening && ReportsFailure(c, ev))
  {
  }

  ghost predicate ReportedBeforeExit(c: Config, evs: seq<Event>) {
    exists i: nat :: i < |evs| && ReportsFailure(c, evs[i]) && NoExit(evs[..i])
  }

  lemma ReportedAppend(c: Config, evs: seq<Event>, ev: Event)
    ensures ReportedBeforeExit(c, evs + [ev]) <==> ReportedBeforeExit(c, evs) || (NoExit(evs) && ReportsFailure(c, ev))
  {
    var all := evs + [ev];
    assert forall i: nat :: i < |evs| ==> all[..i] == evs[..i];
    assert all[..|evs|] == evs;
    if NoExit(evs) && ReportsFailure(c, ev) {
      assert ReportsFailure(c, all[|evs|]) && NoExit(all[..|evs|]);
    }
    if i: nat :| i < |evs| && ReportsFailure(c, evs[i]) && NoExit(evs[..i]) {
      assert ReportsFailure(c, all[i]) && NoExit(all[..i]);
    }
  }

  /** The build counts as failed exactly when an earlier one did, or a line that is not
  ignored reported an error before the process exited and logging is not switched off. */
  lemma {:induction false} BuildFailIff(c: Config, proxyTimeout: int, earlier: Earlier, evs: seq<Event>)
    ensures var st := Run(c, Initial(proxyTimeout, earlier), evs);
      && (st.listening <==> NoExit(evs))
      && (st.didBuildFail <==> earlier.didBuildFail || ReportedBeforeExit(c, evs))
    decreases |evs|
  {
    if evs != [] {
      var front, last := evs[..|evs| - 1], evs[|evs| - 1];
      BuildFailIff(c, proxyTimeout, earlier, front);
      StepBuildFail(c, Run(c, Initial(proxyTimeout, earlier), front), last);
      ReportedAppend(c, front, last);
      assert front + [last] == evs;
    }
  }

  // ---------- What an exit does, in terms of events ----------

  /** Is event `i` the first exit? */
  predicate FirstExitAt(evs: seq<Event>, i: nat) {
    i < |evs| && evs[i].Exit? && forall j :: 0 <= j < i ==> !evs[j].Exit?
  }

  lemma FlagBeforeFirstExit(c: Config, proxyTimeout: int, earlier: Earlier, evs: seq<Event>, i: nat)
    requires FirstExitAt(evs, i)
    ensures var st := Before(c, Initial(proxyTimeout, earlier), evs, i);
      && st.listening
      && (st.didBuildFail <==> earlier.didBuildFail || exists j: nat :: j < i && ReportsFailure(c, evs[j]))
  {
    BuildFailIff(c, proxyTimeout, earlier, evs[..i]);
    if j: nat :| j < i && ReportsFailure(c, evs[j]) {
      assert evs[..i][j] == evs[j] && NoExit(evs[..i][..j]);
    }
  }

  /** A line reports a failure if logging is on and it contains the marker but none of the ignored texts. */
  lemma ReportsFailureIff(c: Config, ev: Event)
    ensures ReportsFailure(c, ev) <==>
      && ev.Line? && !c.logDisabled && Contains(ev.line, "Error Domain=")
      && !Contains(ev.line, "Error writing attachment data to file")
      && !Contains(ev.line, "Error copying testing attachment")
      && !Contains(ev.line, "Failed to remove screenshot at path")
  {
    if ev.Line? {
      assert IGNORED_ERRORS[0] in IGNORED_ERRORS && IGNORED_ERRORS[1] in IGNORED_ERRORS;
      assert IGNORED_ERRORS[2] in IGNORED_ERRORS;
    }
  }

  /** The first exit settles a start that is unsettled: it rejects after a reported
  failure, or without a signal and with a code other than 0; if it does not, it
  resolves a build-only start and leaves any other as it was. A settled start stays so. */
  lemma FirstExitSettles(c: Config, proxyTimeout: int, earlier: Earlier, evs: seq<Event>, i: nat)
    requires FirstExitAt(evs, i)
    ensures var st := Initial(proxyTimeout, earlier);
      Before(c, st, evs, i + 1).settled ==
        if Before(c, st, evs, i).settled.Some? then Before(c, st, evs, i).settled
        else if || earlier.didBuildFail || (exists j: nat :: j < i && ReportsFailure(c, evs[j]))
                || (!evs[i].signal && evs[i].code != Some(0)) then Some(Rejected)
        else if c.buildOnly then Some(Resolved(None))
        else None
  {
    FlagBeforeFirstExit(c, proxyTimeout, earlier, evs, i);
    BeforeNext(c, Initial(proxyTimeout, earlier), evs, i);
  }

  lemma BeforeNext(c: Config, st: State, evs: seq<Event>, i: nat)
    requires i < |evs|
    ensures Before(c, st, evs, i + 1) == Step(c, Before(c, st, evs, i), evs[i])
  {
    assert evs[..i + 1][..i] == evs[..i];
  }

  lemma OnlyAnswersProbe(c: Config, st: State, ev: Event)
    requires !ev.ProbeSucceeded?
    ensures Probed(Step(c, st, ev)) <==> Probed(st)
  {
  }

  lemma {:induction false} UnansweredIsUnprobed(c: Config, proxyTimeout: int, earlier: Earlier, evs: seq<Event>)
    requires forall j :: 0 <= j < |evs| ==> !evs[j].ProbeSucceeded?
    ensures !Probed(Run(c, Initial(proxyTimeout, earlier), evs))
    decreases |evs|
  {
    if evs != [] {
      var front := evs[..|evs| - 1];
      UnansweredIsUnprobed(c, proxyTimeout, earlier, front);
      OnlyAnswersProbe(c, Run(c, Initial(proxyTimeout, earlier), front), evs[|evs| - 1]);
    }
  }

  /** Where an attempt is allowed, a first exit before any answered probe rejects an
  unsettled start exactly when a failure was reported before it, or it comes without a
  signal and with a code other than 0; and then the start stays rejected. */
  lemma FirstExitRejectsIff(c: Config, proxyTimeout: int, earlier: Earlier, evs: seq<Event>, i: nat)
    requires FirstExitAt(evs, i) && forall j :: 0 <= j < i ==> !evs[j].ProbeSucceeded?
    requires c.buildOnly || c.launchTimeout == 0 || c.launchTimeout >= 500
    ensures var st := Initial(proxyTimeout, earlier);
      var fails := || earlier.didBuildFail || (exists j: nat :: j < i && ReportsFailure(c, evs[j]))
                   || (!evs[i].signal && evs[i].code != Some(0));
      && (fails ==> Run(c, st, evs).settled == Some(Rejected))
      && (Before(c, st, evs, i).settled.None? ==> (Before(c, st, evs, i + 1).settled == Some(Rejected) <==> fails))
  {
    FlagBeforeFirstExit(c, proxyTimeout, earlier, evs, i);
    FirstExitSettles(c, proxyTimeout, earlier, evs, i);
    UnansweredIsUnprobed(c, proxyTimeout, earlier, evs[..i]);
    if Fails(Before(c, Initial(proxyTimeout, earlier), evs, i), evs[i].code, evs[i].signal) {
      FailingExitRejects(c, proxyTimeout, earlier, evs, i);
    }
  }

  /** Did starting the process fail: was that reported before its start was? */
  ghost predicate SpawnFails(evs: seq<Event>) {
    exists j: nat :: j < |evs| && evs[j].SpawnFailed? && forall k :: 0 <= k < j ==> !evs[k].Spawned?
  }

  lemma SpawnFailsAppend(evs: seq<Event>, ev: Event)
    ensures SpawnFails(evs + [ev])
       <==> SpawnFails(evs) || (ev.SpawnFailed? && forall k :: 0 <= k < |evs| ==> !evs[k].Spawned?)
  {
    var all := evs + [ev];
    assert all[|evs|] == ev && forall k :: 0 <= k < |evs| ==> all[k] == evs[k];
    if j: nat :| j < |evs| && evs[j].SpawnFailed? && forall k :: 0 <= k < j ==> !evs[k].Spawned? {
      assert all[j].SpawnFailed?;
    }
    if ev.SpawnFailed? && forall k :: 0 <= k < |evs| ==> !evs[k].Spawned? {
      assert all[|evs|].SpawnFailed?;
    }
  }

  /** Before its first exit a build-only start settles only if the process cannot be started. */
  lemma {:induction false} UnsettledBeforeExit(c: Config, proxyTimeout: int, earlier: Earlier, evs: seq<Event>)
    requires c.buildOnly && NoExit(evs)
    ensures var st := Run(c, Initial(proxyTimeout, earlier), evs);
      && (st.phase.Spawning? <==> forall k :: 0 <= k < |evs| ==> !evs[k].Spawned? && !evs[k].SpawnFailed?)
      && (st.phase.Spawning? || st.phase.Done?)
      && st.settled == if SpawnFails(evs) then Some(Rejected) else None
    decreases |evs|
  {
    if evs != [] {
      var front, last := evs[..|evs| - 1], evs[|evs| - 1];
      UnsettledBeforeExit(c, proxyTimeout, earlier, front);
      SpawnFailsAppend(front, last);
      assert front + [last] == evs;
      if !SpawnFails(front) && forall k :: 0 <= k < |front| ==> !front[k].Spawned? {
        forall k | 0 <= k < |front| ensures !front[k].SpawnFailed? {
          assert forall m :: 0 <= m < k ==> !front[m].Spawned?;
        }
      }
    }
  }

  /** Is event `i` a first exit that builds: the process was started, no failure was
  reported, and it ended with code 0 or by a signal? */
  ghost predicate BuildsAt(c: Config, earlier: Earlier, evs: seq<Event>, i: nat) {
    && FirstExitAt(evs, i) && !SpawnFails(evs[..i])
    && !earlier.didBuildFail && (forall j: nat :: j < i ==> !ReportsFailure(c, evs[j]))
    && (evs[i].signal || evs[i].code == Some(0))
  }

  /** A build-only start resolves exactly through such an exit. */
  lemma BuildOnlyResolvesByEventsIff(c: Config, proxyTimeout: int, earlier: Earlier, evs: seq<Event>)
    requires c.buildOnly
    ensures IsResolved(Run(c, Initial(proxyTimeout, earlier), evs)) <==> exists i: nat :: BuildsAt(c, earlier, evs, i)
  {
    var st := Initial(proxyTimeout, earlier);
    BuildOnlyResolvesIff(c, proxyTimeout, earlier, evs);
    forall i: nat | i < |evs| && evs[i].Exit?
      ensures ResolvingExitAt(c, st, evs, i) <==> BuildsAt(c, earlier, evs, i)
    {
      BuildFailIff(c, proxyTimeout, earlier, evs[..i]);
      if NoExit(evs[..i]) {
        assert FirstExitAt(evs, i) by { assert forall j :: 0 <= j < i ==> evs[..i][j] == evs[j]; }
        FlagBeforeFirstExit(c, proxyTimeout, earlier, evs, i);
        UnsettledBeforeExit(c, proxyTimeout, earlier, evs[..i]);
      }
    }
  }

  /** Half a second per attempt, and a minute in all by default. */
  lemma RetriesMeaning(launchTimeout: int)
    ensures launchTimeout == 0 ==> Retries(launchTimeout) == 120
    ensures launchTimeout > 0 ==> 500 * Retries(launchTimeout) <= launchTimeout < 500 * Retries(launchTimeout) + 500
    ensures launchTimeout < 0 ==> Retries(launchTimeout) <= 0
  {
  }

  // ---------- An exit does not cut the polling short ----------

  /** The part of the state that the polling depends on and changes. */
  datatype Polling = Polling(phase: Phase, tries: nat, currentStatus: Option<Status>, proxyTimeout: int)

  function PollingOf(st: State): Polling {
    Polling(st.phase, st.tries, st.currentStatus, st.proxyTimeout)
  }

  function WithoutProcessEvents(evs: seq<Event>): seq<Event> {
    if evs == [] then []
    else
      WithoutProcessEvents(evs[..|evs| - 1])
      + (if evs[|evs| - 1].Exit? || evs[|evs| - 1].Line? then [] else [evs[|evs| - 1]])
  }

  /** The polling goes on as if the process had never exited: the exit handler sets
  one field, the retry loop reads another. */
  lemma {:induction false} ExitDoesNotStopPolling(c: Config, proxyTimeout: int, earlier: Earlier, evs: seq<Event>)
    ensures var st := Initial(proxyTimeout, earlier);
      PollingOf(Run(c, st, evs)) == PollingOf(Run(c, st, WithoutProcessEvents(evs)))
    decreases |evs|
  {
    if evs != [] {
      var st := Initial(proxyTimeout, earlier);
      var front, last := evs[..|evs| - 1], evs[|evs| - 1];
      ExitDoesNotStopPolling(c, proxyTimeout, earlier, front);
      RunKeepsInvariant(c, proxyTimeout, earlier, front);
      RunKeepsInvariant(c, proxyTimeout, earlier, WithoutProcessEvents(front));
      PollingStep(c, Run(c, st, front), Run(c, st, WithoutProcessEvents(front)), last);
      if !last.Exit? && !last.Line? {
        var kept := WithoutProcessEvents(evs);
        assert kept == WithoutProcessEvents(front) + [last];
        assert kept[..|kept| - 1] == WithoutProcessEvents(front);
      } else {
        assert WithoutProcessEvents(evs) == WithoutProcessEvents(front);
      }
    }
  }

  lemma PollingStep(c: Config, st: State, other: State, ev: Event)
    requires PollingOf(st) == PollingOf(other) && !st.privateDidProcessExit && !other.privateDidProcessExit
    ensures ev.Exit? || ev.Line? ==> PollingOf(Step(c, st, ev)) == PollingOf(st)
    ensures !ev.Exit? && !ev.Line? ==> PollingOf(Step(c, st, ev)) == PollingOf(Step(c, other, ev))
  {
  }

  // ---------- The object ----------

  datatype WaitError = StatusTimeout

  ghost predicate NoneAnswered(probe: nat -> Option<Status>, n: nat) {
    forall j: nat :: j < n ==> probe(j).None?
  }

  ghost predicate FirstAnswered(probe: nat -> Option<Status>, i: nat) {
    probe(i).Some? && NoneAnswered(probe, i)
  }

  function ProbeEvent(answer: Option<Status>): Event {
    if answer.Some? then ProbeSucceeded(answer.value) else ProbeFailed
  }

  lemma AttemptOnce(c: Config, st: State, answer: Option<Status>)
    requires st.phase.Ready? && !st.privateDidProcessExit && st.currentStatus.None?
    ensures Step(c, Step(c, st, Attempt), ProbeEvent(answer)) == st.(
      tries := st.tries + 1,
      currentStatus := answer,
      phase := if answer.Some? then Returning else if st.tries + 1 >= Retries(c.launchTimeout) then Throwing else Ready)
  {
  }

  /** The events of `n` attempts one after another. */
  function Attempts(probe: nat -> Option<Status>, n: nat): seq<Event> {
    if n == 0 then []
    else
      Attempts(probe, n - 1) + [Attempt] + [ProbeEvent(probe(n - 1))]
  }

  lemma RunTwo(c: Config, st: State, evs: seq<Event>, a: Event, b: Event)
    ensures Run(c, st, evs + [a] + [b]) == Step(c, Step(c, Run(c, st, evs), a), b)
  {
    var all := evs + [a] + [b];
    assert all[..|all| - 1] == evs + [a];
    assert (evs + [a])[..|evs|] == evs;
  }

  /** Where `waitForStart` is after `n` attempts that found no process exit. */
  function AfterAttempts(c: Config, st: State, probe: nat -> Option<Status>, n: nat): State {
    if n == 0 then st
    else
      st.(tries := n,
          currentStatus := probe(n - 1),
          phase := if probe(n - 1).Some? then Returning else if n == Retries(c.launchTimeout) then Throwing else Ready)
  }

  lemma AfterOneMore(c: Config, st: State, probe: nat -> Option<Status>, n: nat)
    requires st.phase.Ready? && st.tries == 0 && !st.privateDidProcessExit && st.currentStatus.None?
    requires 0 < n <= Retries(c.launchTimeout) && NoneAnswered(probe, n - 1)
    ensures var before := AfterAttempts(c, st, probe, n - 1);
      && before.phase.Ready? && !before.privateDidProcessExit && before.currentStatus.None?
      && Step(c, Step(c, before, Attempt), ProbeEvent(probe(n - 1))) == AfterAttempts(c, st, probe, n)
  {
    AttemptOnce(c, AfterAttempts(c, st, probe, n - 1), probe(n - 1));
  }

  /** Undisturbed attempts reach the states in which `waitForStart` goes on, throws or
  returns, as the loop below computes. */
  lemma {:induction false} AttemptsRun(c: Config, st: State, probe: nat -> Option<Status>, n: nat)
    requires st.phase.Ready? && st.tries == 0 && !st.privateDidProcessExit && st.currentStatus.None?
    requires n <= Retries(c.launchTimeout)
    requires NoneAnswered(probe, n) || (n > 0 && FirstAnswered(probe, n - 1))
    ensures Run(c, st, Attempts(probe, n)) == AfterAttempts(c, st, probe, n)
  {
    if n > 0 {
      AttemptsRun(c, st, probe, n - 1);
      RunTwo(c, st, Attempts(probe, n - 1), Attempt, ProbeEvent(probe(n - 1)));
      AfterOneMore(c, st, probe, n);
    }
  }

  lemma {:induction false} RunAppend(c: Config, st: State, a: seq<Event>, b: seq<Event>)
    ensures Run(c, st, a + b) == Run(c, Run(c, st, a), b)
    decreases |b|
  {
    if b == [] {
      assert a + b == a;
    } else {
      var front := b[..|b| - 1];
      assert (a + b)[..|a + b| - 1] == a + front;
      RunAppend(c, st, a, front);
    }
  }

  lemma RunOne(c: Config, st: State, ev: Event)
    ensures Run(c, st, [ev]) == Step(c, st, ev)
  {
    assert [ev][..0] == [];
  }

  /** A start whose process cannot be started is rejected. */
  lemma FailedSpawnRejects(c: Config, proxyTimeout: int, earlier: Earlier)
    ensures Run(c, Initial(proxyTimeout, earlier), [SpawnFailed]).settled == Some(Rejected)
  {
    RunOne(c, Initial(proxyTimeout, earlier), SpawnFailed);
  }

  /** How a start settles if no exit comes in between: with the first answer within the
  allowed attempts, and with a rejection when all of them go unanswered. */
  lemma UndisturbedStart(c: Config, proxyTimeout: int, earlier: Earlier, probe: nat -> Option<Status>, n: nat)
    requires !c.buildOnly && 0 < n <= Retries(c.launchTimeout)
    requires FirstAnswered(probe, n - 1) || (n == Retries(c.launchTimeout) && NoneAnswered(probe, n))
    ensures var end := Run(c, Initial(proxyTimeout, earlier), [Spawned] + Attempts(probe, n) + [Continue]);
      && end.settled == Some(if probe(n - 1).Some? then Resolved(probe(n - 1)) else Rejected)
      && end.phase == Done && end.tries == n && end.proxyTimeout == proxyTimeout
  {
    var st := Initial(proxyTimeout, earlier);
    var ready := Step(c, st, Spawned);
    RunOne(c, st, Spawned);
    RunAppend(c, st, [Spawned], Attempts(probe, n));
    AttemptsRun(c, ready, probe, n);
    RunAppend(c, st, [Spawned] + Attempts(probe, n), [Continue]);
    RunOne(c, AfterAttempts(c, ready, probe, n), Continue);
  }

  class XcodeBuild {
    const config: Config
    var didBuildFail: bool
    var didProcessExit: bool
    var privateDidProcessExit: bool
    var listening: bool
    var settled: Option<Outcome>
    var phase: Phase
    var tries: nat
    var currentStatus: Option<Status>
    var proxyTimeout: int

    constructor (config: Config, proxyTimeout: int)
      ensures this.config == config && View() == Initial(proxyTimeout, Earlier(false, false))
    {
      this.config := config;
      didBuildFail, didProcessExit, privateDidProcessExit, listening := false, false, false, true;
      settled, phase, tries, currentStatus := None, Spawning, 0, None;
      this.proxyTimeout := proxyTimeout;
    }

    function View(): State
      reads this
    {
      State(
        didBuildFail, didProcessExit, privateDidProcessExit, listening, settled, phase, tries, currentStatus,
        proxyTimeout)
    }

    method OnStreamLine(line: string)
      modifies this
      ensures View() == Step(config, old(View()), Line(line))
    {
      if !listening || config.logDisabled || IsIgnored(line) {
        return;
      }
      if Contains(line, FAILURE_MARKER) {
        didBuildFail := true;
      }
    }

    method SettleWith(outcome: Outcome)
      modifies this`settled
      ensures View() == Settle(old(View()), outcome)
    {
      if settled.None? { settled := Some(outcome); }
    }

    method OnProcessExit(code: Option<int>, signal: bool)
      modifies this
      ensures View() == Step(config, old(View()), Exit(code, signal))
    {
      if !listening {
        return;
      }
      listening := false;
      didProcessExit := true;
      if didBuildFail || (!signal && code != Some(0)) {
        SettleWith(Rejected);
        return;
      }
      if config.buildOnly {
        SettleWith(Resolved(None));
      }
    }

    /** Waits for the status, `probe(i)` being the answer to the i-th request, or none. */
    method WaitForStart(probe: nat -> Option<Status>) returns (r: Result<Option<Status>, WaitError>)
      requires !privateDidProcessExit && tries == 0 && currentStatus.None?
      modifies this`tries, this`currentStatus, this`proxyTimeout
      ensures proxyTimeout == old(proxyTimeout)
      ensures Retries(config.launchTimeout) <= 0 ==> r == Success(None) && tries == 0
      ensures Retries(config.launchTimeout) > 0 && NoneAnswered(probe, Retries(config.launchTimeout)) ==>
        r == Failure(StatusTimeout) && tries == Retries(config.launchTimeout)
      ensures forall i: nat :: FirstAnswered(probe, i) && i < Retries(config.launchTimeout) ==>
        r == Success(probe(i)) && tries == i + 1
    {
      var retries := Retries(config.launchTimeout);
      var done := false;
      while !done && tries < retries
        invariant !done ==> currentStatus.None? && NoneAnswered(probe, tries)
        invariant done ==> 0 < tries <= retries && FirstAnswered(probe, tries - 1) && currentStatus == probe(tries - 1)
        invariant !done && retries > 0 ==> tries < retries
        invariant retries <= 0 ==> tries == 0 && !done
        invariant proxyTimeout == old(proxyTimeout)
        decreases retries - tries, !done
      {
        tries := tries + 1;
        if privateDidProcessExit {
          return Success(currentStatus);
        }
        var savedTimeout := proxyTimeout;
        proxyTimeout := PROBE_TIMEOUT;
        var status := probe(tries - 1);
        proxyTimeout := savedTimeout;
        if status.Some? {
          currentStatus := status;
          done := true;
        } else if tries >= retries {
          return Failure(StatusTimeout);
        }
      }
      return Success(currentStatus);
    }

    /** The asynchronous part of `start`, when nothing comes in between. */
    method SpawnAndWait(spawnFails: bool, probe: nat -> Option<Status>)
      requires !privateDidProcessExit && tries == 0 && currentStatus.None? && settled.None?
      modifies this
      ensures proxyTimeout == old(proxyTimeout)
      ensures didBuildFail == old(didBuildFail) && didProcessExit == old(didProcessExit)
      ensures spawnFails ==> settled == Some(Rejected)
      ensures !spawnFails && config.buildOnly ==> settled.None?
      ensures !spawnFails && !config.buildOnly && Retries(config.launchTimeout) <= 0 ==> settled == Some(Resolved(None))
      ensures !spawnFails && !config.buildOnly && Retries(config.launchTimeout) > 0 ==>
        var retries := Retries(config.launchTimeout);
        if NoneAnswered(probe, retries) then settled == Some(Rejected)
        else exists i: nat :: FirstAnswered(probe, i) && i < retries && settled == Some(Resolved(probe(i)))
    {
      if spawnFails {
        SettleWith(Rejected);
        return;
      }
      if !config.buildOnly {
        var status := WaitForStart(probe);
        if Retries(config.launchTimeout) > 0 && !NoneAnswered(probe, Retries(config.launchTimeout)) {
          var i := SomeFirstAnswered(probe, Retries(config.launchTimeout));
        }
        if status.Success? {
          SettleWith(Resolved(status.value));
        } else {
          SettleWith(Rejected);
        }
      }
    }
  }

  lemma {:induction false} SomeFirstAnswered(probe: nat -> Option<Status>, n: nat) returns (i: nat)
    requires !NoneAnswered(probe, n)
    ensures i < n && FirstAnswered(probe, i)
  {
    if NoneAnswered(probe, n - 1) {
      i := n - 1;
    } else {
      i := SomeFirstAnswered(probe, n - 1);
    }
  }
}
