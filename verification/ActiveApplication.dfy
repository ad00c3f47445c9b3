/** Choosing the active application.

The accessibility services are foreign: what they answer during the call is an
`Environment`. An accessibility element of an application is its process id. */
module ActiveApplication {
  import opened Wrappers

  const UNKNOWN_BUNDLE_ID := "unknown"

  type Pid = int

  datatype App = App(pid: Pid, bundleId: string)

  /** `bundleIds` answers one id request per active process, `None` being no answer in time.
  The on-screen element may be asked for twice, with different answers. */
  datatype Environment = Environment(
    active: seq<Pid>,
    bundleIds: seq<Option<string>>,
    onScreen: Option<Pid>,
    onScreenBundleId: Option<string>,
    onScreenLater: Option<Pid>,
    applications: map<Pid, App>,
    systemPid: Pid)
  {
    ghost predicate Valid() {
      |bundleIds| == |active|
    }

    /** `fb_applicationWithPID:` */
    function ApplicationWithPid(pid: Pid): Option<App> {
      if pid in applications then Some(applications[pid]) else None
    }

    function SystemApplication(): Option<App> {
      ApplicationWithPid(systemPid)
    }
  }

  function IdOrUnknown(answer: Option<string>): string {
    if answer.Some? then answer.value else UNKNOWN_BUNDLE_ID
  }

  method AppsInfo(answers: seq<Option<string>>) returns (ids: seq<string>)
    ensures |ids| == |answers| && forall i :: 0 <= i < |ids| ==> ids[i] == IdOrUnknown(answers[i])
  {
    ids := [];
    for i := 0 to |answers|
      invariant |ids| == i && forall j :: 0 <= j < i ==> ids[j] == IdOrUnknown(answers[j])
    {
      ids := ids + [if answers[i].Some? then answers[i].value else UNKNOWN_BUNDLE_ID];
    }
  }

  predicate OnScreenIs(env: Environment, bundleId: Option<string>) {
    bundleId.Some? && env.onScreen.Some? && IdOrUnknown(env.onScreenBundleId) == bundleId.value
  }

  predicate ActiveIs(env: Environment, i: nat, bundleId: string)
    requires env.Valid() && i < |env.active|
  {
    IdOrUnknown(env.bundleIds[i]) == bundleId
  }

  /** The element on screen as the later steps see it: it is asked for again when nothing was known before. */
  function Current(env: Environment, bundleId: Option<string>): Option<Pid> {
    if bundleId.Some? && env.onScreen.Some? then env.onScreen else env.onScreenLater
  }

  /** The process that is selected before any translation, by the rank of the reason. */
  ghost predicate Selects(env: Environment, bundleId: Option<string>, selected: Option<Pid>)
    requires env.Valid()
  {
    if OnScreenIs(env, bundleId) then selected == env.onScreen
    else if |env.active| <= 1 then selected == None
    else if bundleId.Some? && exists i: nat :: i < |env.active| && ActiveIs(env, i, bundleId.value) then
      exists i: nat :: i < |env.active| && ActiveIs(env, i, bundleId.value) && selected == Some(env.active[i])
        && forall j: nat :: j < i ==> !ActiveIs(env, j, bundleId.value)
    else if Current(env, bundleId).Some? && Current(env, bundleId).value in env.active then
      selected == Current(env, bundleId)
    else selected == None
  }

  /** `r` is the application of the first active process that has one. */
  ghost predicate IsFirstTranslated(env: Environment, r: Option<App>) {
    exists i: nat :: i < |env.active| && env.active[i] in env.applications && r == Some(env.applications[env.active[i]])
      && forall j: nat :: j < i ==> env.active[j] !in env.applications
  }

  ghost predicate NoneTranslates(env: Environment) {
    forall p :: p in env.active ==> p !in env.applications
  }

  /** What the selected process comes to: its application, else that of the first
  active process that has one, else the system application. */
  ghost predicate Resolves(env: Environment, selected: Option<Pid>, r: Option<App>) {
    if selected.Some? && selected.value in env.applications then r == Some(env.applications[selected.value])
    else if NoneTranslates(env) then r == env.SystemApplication()
    else IsFirstTranslated(env, r)
  }

  ghost predicate Chooses(env: Environment, bundleId: Option<string>, r: Option<App>)
    requires env.Valid()
  {
    exists selected :: Selects(env, bundleId, selected) && Resolves(env, selected, r)
  }

  method ActiveApplicationWithDefaultBundleId(env: Environment, bundleId: Option<string>) returns (r: Option<App>)
    requires env.Valid()
    ensures Chooses(env, bundleId, r)
  {
    var activeApplicationElement: Option<Pid> := None;
    var currentElement: Option<Pid> := None;
    if bundleId.Some? {
      currentElement := env.onScreen;
      if currentElement.Some? {
        var appInfos := AppsInfo([env.onScreenBundleId]);
        if appInfos[0] == bundleId.value {
          activeApplicationElement := currentElement;
        }
      }
    }
    if activeApplicationElement.None? && |env.active| > 1 {
      if bundleId.Some? {
        var appInfos := AppsInfo(env.bundleIds);
        var appIdx := 0;
        while appIdx < |appInfos|
          invariant 0 <= appIdx <= |appInfos|
          invariant activeApplicationElement.None?
          invariant forall j: nat :: j < appIdx ==> !ActiveIs(env, j, bundleId.value)
        {
          if appInfos[appIdx] == bundleId.value {
            activeApplicationElement := Some(env.active[appIdx]);
            assert ActiveIs(env, appIdx, bundleId.value);
            break;
          }
          appIdx := appIdx + 1;
        }
      }
      if activeApplicationElement.None? {
        if currentElement.None? {
          currentElement := env.onScreenLater;
        }
        if currentElement.Some? {
          for i := 0 to |env.active|
            invariant activeApplicationElement.None?
            invariant forall j :: 0 <= j < i ==> env.active[j] != currentElement.value
          {
            if env.active[i] == currentElement.value {
              activeApplicationElement := Some(env.active[i]);
              break;
            }
          }
        }
      }
    }
    assert Selects(env, bundleId, activeApplicationElement);
    if activeApplicationElement.Some? {
      var application := env.ApplicationWithPid(activeApplicationElement.value);
      if application.Some? {
        return application;
      }
    }
    for i := 0 to |env.active|
      invariant forall j :: 0 <= j < i ==> env.active[j] !in env.applications
    {
      var application := env.ApplicationWithPid(env.active[i]);
      if application.Some? {
        assert !NoneTranslates(env) by { assert env.active[i] in env.active; }
        assert IsFirstTranslated(env, application);
        return application;
      }
    }
    return env.SystemApplication();
  }

  // ---------- What the choice guarantees ----------

  /** The choice is always the on-screen application, an active one, or the system
  one, and the system one only when no active process translates. */
  lemma ChoiceIsKnown(env: Environment, bundleId: Option<string>, selected: Option<Pid>, r: Option<App>)
    requires env.Valid() && Selects(env, bundleId, selected) && Resolves(env, selected, r)
    ensures (exists p :: (p in env.active || env.onScreen == Some(p)) && env.ApplicationWithPid(p) == r && r.Some?)
         || (NoneTranslates(env) && r == env.SystemApplication())
  {
    if selected.Some? && selected.value in env.applications {
      assert env.ApplicationWithPid(selected.value) == r;
    } else if !NoneTranslates(env) {
      var i: nat :| i < |env.active| && env.active[i] in env.applications && r == Some(env.applications[env.active[i]]);
      assert env.active[i] in env.active && env.ApplicationWithPid(env.active[i]) == r;
    }
  }

  /** Is `p` a process that answers to the bundle id? */
  ghost predicate HasId(env: Environment, p: Pid, bundleId: string)
    requires env.Valid()
  {
    (OnScreenIs(env, Some(bundleId)) && env.onScreen == Some(p))
    || exists i: nat :: i < |env.active| && env.active[i] == p && ActiveIs(env, i, bundleId)
  }

  /** A requested application that is active is chosen, if all processes with its id translate. */
  lemma RequestedIsChosen(env: Environment, bundleId: string, i: nat, selected: Option<Pid>, r: Option<App>)
    requires env.Valid() && Selects(env, Some(bundleId), selected) && Resolves(env, selected, r)
    requires i < |env.active| && ActiveIs(env, i, bundleId)
    requires forall p :: HasId(env, p, bundleId) ==> p in env.applications
    ensures exists p :: HasId(env, p, bundleId) && env.ApplicationWithPid(p) == r && r.Some?
  {
    assert HasId(env, env.active[i], bundleId);
    if OnScreenIs(env, Some(bundleId)) {
      assert HasId(env, env.onScreen.value, bundleId);
    } else if |env.active| == 1 {
      assert env.active[i] in env.active;
      assert env.ApplicationWithPid(env.active[0]) == r;
    } else {
      assert HasId(env, selected.value, bundleId);
      assert env.ApplicationWithPid(selected.value) == r;
    }
  }

  /** The selection and the application are determined by the environment. */
  lemma ChoiceIsUnique(
    env: Environment, bundleId: Option<string>, s1: Option<Pid>, r1: Option<App>, s2: Option<Pid>, r2: Option<App>)
    requires env.Valid()
    requires Selects(env, bundleId, s1) && Resolves(env, s1, r1)
    requires Selects(env, bundleId, s2) && Resolves(env, s2, r2)
    ensures s1 == s2 && r1 == r2
  {
    if !OnScreenIs(env, bundleId) && |env.active| > 1 && bundleId.Some?
      && exists i: nat :: i < |env.active| && ActiveIs(env, i, bundleId.value)
    {
      var i: nat :| i < |env.active| && ActiveIs(env, i, bundleId.value) && s1 == Some(env.active[i])
        && forall j: nat :: j < i ==> !ActiveIs(env, j, bundleId.value);
      var k: nat :| k < |env.active| && ActiveIs(env, k, bundleId.value) && s2 == Some(env.active[k])
        && forall j: nat :: j < k ==> !ActiveIs(env, j, bundleId.value);
      assert i == k;
    }
  }

  // ---------- What comes out, in terms of the answers of the services ----------

  /** A missing answer to an id request reads as the unknown id. */
  lemma AnswersTo(answer: Option<string>, bundleId: string)
    ensures IdOrUnknown(answer) == bundleId <==> answer == Some(bundleId) || (answer.None? && bundleId == "unknown")
  {
  }

  lemma NobodyIsAnswering(env: Environment, bundleId: Option<string>)
    requires env.Valid()
    requires bundleId.Some? ==>
      && (env.onScreen.Some? ==> IdOrUnknown(env.onScreenBundleId) != bundleId.value)
      && (forall i :: 0 <= i < |env.active| ==> IdOrUnknown(env.bundleIds[i]) != bundleId.value)
    ensures !OnScreenIs(env, bundleId)
    ensures bundleId.Some? ==> forall i: nat :: i < |env.active| ==> !ActiveIs(env, i, bundleId.value)
  {
  }

  /** What is selected for no reason, or does not translate, gives way to the first
  active process that translates, and without one to the system application. */
  lemma GivesWay(env: Environment, selected: Option<Pid>, r: Option<App>)
    requires Resolves(env, selected, r) && (selected.Some? ==> selected.value !in env.applications)
    ensures forall i: nat ::
      && i < |env.active| && env.active[i] in env.applications
      && (forall j: nat :: j < i ==> env.active[j] !in env.applications)
      ==> r == Some(env.applications[env.active[i]])
    ensures (forall p :: p in env.active ==> p !in env.applications) ==>
      r == if env.systemPid in env.applications then Some(env.applications[env.systemPid]) else None
  {
    forall i: nat
      | && i < |env.active| && env.active[i] in env.applications
        && (forall j: nat :: j < i ==> env.active[j] !in env.applications)
      ensures r == Some(env.applications[env.active[i]])
    {
      var first := env.active[i];
      assert first in env.active && first in env.applications;
      assert IsFirstTranslated(env, r);
      var k: nat :| k < |env.active| && env.active[k] in env.applications
        && r == Some(env.applications[env.active[k]]) && forall j: nat :: j < k ==> env.active[j] !in env.applications;
      assert k == i;
    }
  }

  /** Among several active processes, when no bundle id is asked for or neither the
  on-screen nor any active process answers to it, the active process on screen is
  chosen if it translates. What was on screen when the id was compared counts; without
  an id, or with nothing on screen then, the screen is looked at again. */
  lemma OnScreenIsChosen(env: Environment, bundleId: Option<string>, p: Pid, r: Option<App>)
    requires env.Valid() && Chooses(env, bundleId, r)
    requires bundleId.Some? ==>
      && (env.onScreen.Some? ==> IdOrUnknown(env.onScreenBundleId) != bundleId.value)
      && (forall i :: 0 <= i < |env.active| ==> IdOrUnknown(env.bundleIds[i]) != bundleId.value)
    requires |env.active| > 1 && p in env.active && p in env.applications
    requires if bundleId.Some? && env.onScreen.Some? then env.onScreen == Some(p) else env.onScreenLater == Some(p)
    ensures r == Some(env.applications[p])
  {
    NobodyIsAnswering(env, bundleId);
  }

  /** Where no process answers to the bundle id and the one on screen is not active or
  does not translate, or where there is only one, the first active process that
  translates is chosen, and without one the system application. */
  lemma MostRecentIsChosen(env: Environment, bundleId: Option<string>, r: Option<App>)
    requires env.Valid() && Chooses(env, bundleId, r)
    requires bundleId.Some? ==>
      && (env.onScreen.Some? ==> IdOrUnknown(env.onScreenBundleId) != bundleId.value)
      && (forall i :: 0 <= i < |env.active| ==> IdOrUnknown(env.bundleIds[i]) != bundleId.value)
    requires |env.active| > 1 ==>
      var current := if bundleId.Some? && env.onScreen.Some? then env.onScreen else env.onScreenLater;
      current.None? || current.value !in env.active || current.value !in env.applications
    ensures forall i: nat ::
      && i < |env.active| && env.active[i] in env.applications
      && (forall j: nat :: j < i ==> env.active[j] !in env.applications)
      ==> r == Some(env.applications[env.active[i]])
    ensures (forall p :: p in env.active ==> p !in env.applications) ==>
      r == if env.systemPid in env.applications then Some(env.applications[env.systemPid]) else None
  {
    NobodyIsAnswering(env, bundleId);
    var selected :| Selects(env, bundleId, selected) && Resolves(env, selected, r);
    GivesWay(env, selected, r);
  }

  /** The on-screen application comes before all others when it answers to the bundle id. */
  lemma RequestedOnScreenIsChosen(env: Environment, bundleId: string, p: Pid, r: Option<App>)
    requires env.Valid() && Chooses(env, Some(bundleId), r)
    requires env.onScreen == Some(p) && IdOrUnknown(env.onScreenBundleId) == bundleId && p in env.applications
    ensures r == Some(env.applications[p])
  {
  }

  /** Otherwise, of several active processes, the first that answers to it is chosen,
  unless it does not translate. */
  lemma FirstAnsweringIsChosen(env: Environment, bundleId: string, i: nat, r: Option<App>)
    requires env.Valid() && Chooses(env, Some(bundleId), r)
    requires env.onScreen.Some? ==> IdOrUnknown(env.onScreenBundleId) != bundleId
    requires 1 < |env.active| && i < |env.active| && IdOrUnknown(env.bundleIds[i]) == bundleId
    requires forall j: nat :: j < i ==> IdOrUnknown(env.bundleIds[j]) != bundleId
    ensures env.active[i] in env.applications ==> r == Some(env.applications[env.active[i]])
    ensures env.active[i] !in env.applications ==> forall m: nat ::
      && m < |env.active| && env.active[m] in env.applications
      && (forall j: nat :: j < m ==> env.active[j] !in env.applications)
      ==> r == Some(env.applications[env.active[m]])
  {
    var selected :| Selects(env, Some(bundleId), selected) && Resolves(env, selected, r);
    assert ActiveIs(env, i, bundleId) && forall j: nat :: j < i ==> !ActiveIs(env, j, bundleId);
    var k: nat :| k < |env.active| && ActiveIs(env, k, bundleId) && selected == Some(env.active[k])
      && forall j: nat :: j < k ==> !ActiveIs(env, j, bundleId);
    assert k == i;
    if env.active[i] !in env.applications { GivesWay(env, selected, r); }
  }
}
