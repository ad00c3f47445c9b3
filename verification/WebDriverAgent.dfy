/** The agent object: caching, launching and quitting.

A URL that is not set is the empty string. `Builder` stands for the XcodeBuild
object, reduced to what the agent calls on it. */
module WebDriverAgent {
  import opened Wrappers
  import opened ProjectFile
  import C = ProjectCleanup

  datatype Args = Args(
    webDriverAgentUrl: string, usePreinstalledWDA: bool, useXctestrunFile: bool, usePrebuiltWDA: bool, idb: bool,
    prebuildWDA: bool, realDevice: bool, updatedWDABundleId: Option<string>)
  {
    predicate CanSkipXcodebuild() {
      usePreinstalledWDA || webDriverAgentUrl != ""
    }

    /** The bundle id as the build sees it; absent and empty are alike. */
    function Session(): ProjectFile.Session {
      var bundleId := if updatedWDABundleId.Some? then updatedWDABundleId.value else "";
      ProjectFile.Session(realDevice, useXctestrunFile, bundleId)
    }
  }

  /** The build works on the project only for real devices without an xctestrun file, and
  updates it only to a bundle id that is given and not empty. */
  lemma SessionIs(args: Args)
    ensures TouchesProject(args.Session()) <==> args.realDevice && !args.useXctestrunFile
    ensures args.Session().realDevice == args.realDevice
    ensures args.updatedWDABundleId.Some? ==> args.Session().updatedWDABundleId == args.updatedWDABundleId.value
    ensures args.updatedWDABundleId.None? ==> args.Session().updatedWDABundleId == ""
  {
  }

  // ---------- The url over whole histories ----------

  datatype BuildInfo = BuildInfo(productBundleIdentifier: Option<string>, upgradeDiffers: bool)

  /** Is the running agent one to reuse? Its bundle id, if it tells one, must be the
  expected one, and its version the current one. */
  predicate Reusable(args: Args, build: BuildInfo) {
    var expected := if args.updatedWDABundleId.Some? then args.updatedWDABundleId.value else WDA_RUNNER_BUNDLE_ID;
    (build.productBundleIdentifier.None? || build.productBundleIdentifier.value == expected) && !build.upgradeDiffers
  }

  datatype Operation =
    | SetupCaching(build: Option<BuildInfo>, href: string)
    | Launch
    | Quit(throws: bool)

  function UrlAfter(args: Args, url: string, op: Operation): string {
    match op
    case SetupCaching(build, href) => if build.Some? && Reusable(args, build.value) then href else url
    case Launch => url
    case Quit(throws) => if !throws && args.webDriverAgentUrl == "" then "" else url
  }

  function UrlRun(args: Args, ops: seq<Operation>): string {
    if ops == [] then args.webDriverAgentUrl
    else UrlAfter(args, UrlRun(args, ops[..|ops| - 1]), ops[|ops| - 1])
  }

  /** The hrefs of parsed urls are not empty. */
  predicate HrefsGiven(ops: seq<Operation>) {
    forall i :: 0 <= i < |ops| && ops[i].SetupCaching? ==> ops[i].href != ""
  }

  predicate CachesAt(args: Args, ops: seq<Operation>, i: nat)
    requires i < |ops|
  {
    ops[i].SetupCaching? && ops[i].build.Some? && Reusable(args, ops[i].build.value)
  }

  predicate NoQuitAfter(ops: seq<Operation>, i: int) {
    forall j :: i < j < |ops| && 0 <= j ==> !(ops[j].Quit? && !ops[j].throws)
  }

  ghost predicate CachedSinceQuit(args: Args, ops: seq<Operation>) {
    exists i: nat :: i < |ops| && CachesAt(args, ops, i) && NoQuitAfter(ops, i)
  }

  /** Over every history the url is set exactly when the user gave one or a running
  agent was cached and not quit since. */
  lemma {:induction false} UrlIsSetIff(args: Args, ops: seq<Operation>)
    requires HrefsGiven(ops)
    ensures UrlRun(args, ops) != "" <==> args.webDriverAgentUrl != "" || CachedSinceQuit(args, ops)
  {
    if ops != [] {
      var front, last := ops[..|ops| - 1], |ops| - 1;
      UrlIsSetIff(args, front);
      if CachesAt(args, ops, last) {
        assert CachedSinceQuit(args, ops);
      } else if !(ops[last].Quit? && !ops[last].throws) {
        if CachedSinceQuit(args, front) {
          var i: nat :| i < |front| && CachesAt(args, front, i) && NoQuitAfter(front, i);
          assert CachesAt(args, ops, i) && NoQuitAfter(ops, i);
        }
        if CachedSinceQuit(args, ops) {
          var i: nat :| i < |ops| && CachesAt(args, ops, i) && NoQuitAfter(ops, i);
          assert CachesAt(args, front, i) && NoQuitAfter(front, i);
        }
      }
    }
  }

  /** A running agent is reused exactly when its version is the current one and the bundle
  id that it tells, if any, is the given one or, without one, the default. */
  lemma ReusableIff(args: Args, build: BuildInfo)
    ensures build.upgradeDiffers ==> !Reusable(args, build)
    ensures !build.upgradeDiffers ==> (Reusable(args, build) <==>
      || build.productBundleIdentifier.None?
      || build.productBundleIdentifier == args.updatedWDABundleId
      || (args.updatedWDABundleId.None? && build.productBundleIdentifier == Some("com.facebook.WebDriverAgentRunner")))
  {
  }

  lemma CachesInFront(args: Args, ops: seq<Operation>, i: nat)
    requires i < |ops| - 1
    ensures CachesAt(args, ops[..|ops| - 1], i) <==> CachesAt(args, ops, i)
  {
  }

  /** As long as no reusable agent is cached the url is the user's own. */
  lemma {:induction false} UrlBeforeCaching(args: Args, ops: seq<Operation>)
    requires forall i: nat :: i < |ops| ==> !CachesAt(args, ops, i)
    ensures UrlRun(args, ops) == args.webDriverAgentUrl
    decreases |ops|
  {
    if ops != [] {
      var front, last := ops[..|ops| - 1], |ops| - 1;
      forall i: nat | i < |front| ensures !CachesAt(args, front, i) { CachesInFront(args, ops, i); }
      UrlBeforeCaching(args, front);
      assert !CachesAt(args, ops, last);
    }
  }

  /** Once one was cached, the url is that of the last one cached, unless it was quit
  since and the user gave none. */
  lemma {:induction false} UrlAfterCaching(args: Args, ops: seq<Operation>, i: nat)
    requires i < |ops| && CachesAt(args, ops, i) && forall j: nat :: i < j < |ops| ==> !CachesAt(args, ops, j)
    ensures UrlRun(args, ops) ==
      if args.webDriverAgentUrl == "" && (exists j: nat :: i < j < |ops| && ops[j].Quit? && !ops[j].throws) then ""
      else ops[i].href
    decreases |ops|
  {
    var front, last := ops[..|ops| - 1], |ops| - 1;
    if i < last {
      CachesInFront(args, ops, i);
      forall j: nat | i < j < |front| ensures !CachesAt(args, front, j) { CachesInFront(args, ops, j); }
      UrlAfterCaching(args, front, i);
      assert !CachesAt(args, ops, last);
      if j: nat :| i < j < |front| && front[j].Quit? && !front[j].throws {
        assert ops[j].Quit? && !ops[j].throws;
      }
      if j: nat :| i < j < |ops| && ops[j].Quit? && !ops[j].throws {
        assert j < last ==> front[j].Quit? && !front[j].throws;
      }
    }
  }

  /** A launch comes to xcodebuild only when neither a url nor a preinstalled agent is used. */
  predicate LaunchUsesXcodebuild(args: Args, url: string) {
    url == "" && !args.usePreinstalledWDA
  }

  /** After any history, a launch that uses xcodebuild belongs to an agent that has one. */
  lemma XcodebuildIsThereWhenUsed(args: Args, ops: seq<Operation>)
    requires HrefsGiven(ops) && LaunchUsesXcodebuild(args, UrlRun(args, ops))
    ensures !args.CanSkipXcodebuild()
  {
    UrlIsSetIff(args, ops);
  }

  // ---------- The objects ----------

  class Builder {
    const project: Project
    const session: Session
    var running: bool

    constructor (project: Project, session: Session)
      ensures this.project == project && this.session == session && !running
    {
      this.project := project;
      this.session := session;
      running := false;
    }

    method Start(fails: bool) returns (ok: bool)
      modifies this`running
      ensures ok == !fails && running == (ok || old(running))
    {
      ok := !fails;
      running := ok || running;
    }

    method QuitProcess(throws: bool) returns (ok: bool)
      modifies this`running
      ensures ok == (!throws || !old(running)) && running == (old(running) && !ok)
    {
      if !running {
        return true;
      }
      ok := !throws;
      running := !ok;
    }
  }

  datatype LaunchError = StatusFailed | ProjectMissing | CleanupFailed | StartFailed

  datatype Started = Provided(url: string) | Preinstalled | WithIdb | WithXcodebuild

  /** What the foreign calls of one launch come to. */
  datatype LaunchFaults = LaunchFaults(
    projectMissing: bool, statusFails: bool, cleanup: C.Launch, idbFails: bool, moveFails: bool, update: Fault,
    prebuildFails: bool, startFails: bool)

  class Agent {
    const args: Args
    const box: C.VersionBox
    const project: Project
    var webDriverAgentUrl: string
    var started: bool
    var xcodebuild: Builder?

    /** The url given by the user is never lost, and there is an xcodebuild object exactly when it cannot be skipped. */
    ghost predicate Valid()
      reads this
    {
      && (args.webDriverAgentUrl != "" ==> webDriverAgentUrl != "")
      && (xcodebuild == null <==> args.CanSkipXcodebuild())
      && (xcodebuild != null ==> xcodebuild.project == project && xcodebuild.session == args.Session())
    }

    constructor (args: Args, project: Project, box: C.VersionBox)
      ensures Valid() && this.args == args && this.project == project && this.box == box
      ensures webDriverAgentUrl == UrlRun(args, []) && !started
      ensures xcodebuild != null ==> fresh(xcodebuild)
      ensures xcodebuild != null <==> !args.usePreinstalledWDA && args.webDriverAgentUrl == ""
    {
      this.args := args;
      this.project := project;
      this.box := box;
      webDriverAgentUrl := args.webDriverAgentUrl;
      started := false;
      xcodebuild := null;
      new;
      if !args.CanSkipXcodebuild() {
        xcodebuild := new Builder(project, args.Session());
      }
    }

    /** `build` is what a running agent tells about itself, `href` the href of the current url. */
    method Cache(build: Option<BuildInfo>, href: string) returns (uninstalls: bool)
      requires Valid() && href != ""
      modifies this`webDriverAgentUrl
      ensures Valid()
      ensures webDriverAgentUrl == UrlAfter(args, old(webDriverAgentUrl), SetupCaching(build, href))
      ensures uninstalls <==> build.Some? && !Reusable(args, build.value)
    {
      uninstalls := false;
      if build.None? {
        return;
      }
      var product := build.value.productBundleIdentifier;
      if product.Some? && args.updatedWDABundleId.Some? && args.updatedWDABundleId.value != product.value {
        return true;
      }
      if product.Some? && args.updatedWDABundleId.None? && WDA_RUNNER_BUNDLE_ID != product.value {
        return true;
      }
      if build.value.upgradeDiffers {
        return true;
      }
      webDriverAgentUrl := href;
    }

    /** A fresh start of the project check of `C.VersionBox`, skipped without xcodebuild. */
    method CleanupProjectIfFresh(l: C.Launch) returns (threw: bool)
      requires Valid()
      modifies box
      ensures box.View() == if args.CanSkipXcodebuild() then old(box.View()) else C.Check(old(box.View()), l)
      ensures threw <==> !args.CanSkipXcodebuild() && old(box.stored).Damaged? && l.writeFails
    {
      if args.CanSkipXcodebuild() {
        return false;
      }
      var cleaned;
      cleaned, threw := box.CleanupProjectIfFresh(l);
    }

    /** Launches the agent. That `xcodebuild` is used without a check for null is the point of `Valid`. */
    method LaunchAgent(f: LaunchFaults) returns (r: Result<Started, LaunchError>)
      requires Valid()
      modifies this`started, box, project, if xcodebuild == null then {} else {xcodebuild}
      ensures Valid()
      ensures webDriverAgentUrl != "" ==> r == Success(Provided(webDriverAgentUrl))
      ensures webDriverAgentUrl == "" && args.usePreinstalledWDA ==>
        if f.statusFails then r == Failure(StatusFailed) else r == Success(Preinstalled) && started
      ensures r == Success(WithIdb) || r == Success(WithXcodebuild) ==> LaunchUsesXcodebuild(args, webDriverAgentUrl)
      ensures r == Success(WithXcodebuild) <==>
        && webDriverAgentUrl == "" && !args.usePreinstalledWDA && !args.idb
        && (args.useXctestrunFile || !f.projectMissing)
        && (args.useXctestrunFile || args.usePrebuiltWDA || !old(box.stored).Damaged? || !f.cleanup.writeFails)
        && (!args.prebuildWDA || !f.prebuildFails) && !f.startFails
      ensures r == Success(WithIdb) <==>
        && webDriverAgentUrl == "" && !args.usePreinstalledWDA && args.idb
        && (args.useXctestrunFile || !f.projectMissing) && !f.idbFails
      ensures r == Success(WithXcodebuild) ==>
        && !args.idb && xcodebuild != null && xcodebuild.running
        && project.OnDisk() == InitResult(old(project.OnDisk()), args.Session(), f.moveFails, f.update)
      ensures !LaunchUsesXcodebuild(args, webDriverAgentUrl) || args.idb ==> project.OnDisk() == old(project.OnDisk())
      ensures box.View() ==
        if LaunchUsesXcodebuild(args, webDriverAgentUrl) && !(!args.useXctestrunFile && f.projectMissing)
          && !args.idb && !args.useXctestrunFile && !args.usePrebuiltWDA
        then C.Check(old(box.View()), f.cleanup) else old(box.View())
    {
      if webDriverAgentUrl != "" {
        return Success(Provided(webDriverAgentUrl));
      }
      if args.usePreinstalledWDA {
        if f.statusFails {
          return Failure(StatusFailed);
        }
        started := true;
        return Success(Preinstalled);
      }
      if !args.useXctestrunFile && f.projectMissing {
        return Failure(ProjectMissing);
      }
      if !(args.idb || args.useXctestrunFile || args.usePrebuiltWDA) {
        var threw := CleanupProjectIfFresh(f.cleanup);
        if threw {
          return Failure(CleanupFailed);
        }
      }
      if args.idb {
        return if f.idbFails then Failure(StartFailed) else Success(WithIdb);
      }
      xcodebuild.project.InitBuild(xcodebuild.session, f.moveFails, f.update);
      if args.prebuildWDA {
        var prebuilt := xcodebuild.Start(f.prebuildFails);
        if !prebuilt {
          return Failure(StartFailed);
        }
      }
      var ok := xcodebuild.Start(f.startFails);
      r := if ok then Success(WithXcodebuild) else Failure(StartFailed);
    }

    /** Quits. `throws` is the process refusing to end, in which case nothing else is done. */
    method QuitAgent(throws: bool, moveFails: bool) returns (ok: bool)
      requires Valid()
      modifies this`started, this`webDriverAgentUrl, project, if xcodebuild == null then {} else {xcodebuild}
      ensures Valid()
      ensures webDriverAgentUrl == UrlAfter(args, old(webDriverAgentUrl), Quit(!ok))
      ensures ok ==> !started
      ensures args.CanSkipXcodebuild() ==> ok && project.OnDisk() == old(project.OnDisk())
      ensures ok && xcodebuild != null ==>
        && !xcodebuild.running
        && project.OnDisk() == if args.realDevice && args.Session().updatedWDABundleId != ""
                               then Restored(old(project.OnDisk()), moveFails) else old(project.OnDisk())
    {
      if !args.usePreinstalledWDA && args.webDriverAgentUrl == "" && xcodebuild != null {
        var stopped := xcodebuild.QuitProcess(throws);
        if !stopped {
          return false;
        }
        xcodebuild.project.ResetBuild(xcodebuild.session, moveFails);
      }
      started := false;
      if args.webDriverAgentUrl == "" {
        webDriverAgentUrl := "";
      }
      return true;
    }
  }
}
