/** The Xcode project file and its `.old` backup over sessions that may crash.

Sessions use one project one after another. Each file operation is one atomic
step; between two steps the process may crash, and an operation may fail. */
module ProjectFile {
  import opened Strings
  import opened Wrappers

  const WDA_RUNNER_BUNDLE_ID := "com.facebook.WebDriverAgentRunner"

  // ---------- Replacing text ----------

  /** Replaces every occurrence, scanning from left to right. */
  function ReplaceAll(text: string, find: string, replace: string): string
    requires find != ""
  {
    if text == "" then ""
    else if find <= text then replace + ReplaceAll(text[|find|..], find, replace)
    else [text[0]] + ReplaceAll(text[1..], find, replace)
  }

  function Join(parts: seq<string>, separator: string): string {
    if parts == [] then ""
    else if |parts| == 1 then parts[0]
    else parts[0] + separator + Join(parts[1..], separator)
  }

  /** The text between the occurrences. */
  function Split(text: string, find: string): (parts: seq<string>)
    requires find != ""
    ensures parts != []
  {
    if text == "" then [""]
    else if find <= text then [""] + Split(text[|find|..], find)
    else
      var rest := Split(text[1..], find);
      [[text[0]] + rest[0]] + rest[1..]
  }

  lemma {:induction false} JoinFirst(first: string, rest: seq<string>, separator: string)
    requires rest != []
    ensures Join([first + rest[0]] + rest[1..], separator) == first + Join(rest, separator)
  {
    if |rest| > 1 {
      assert ([first + rest[0]] + rest[1..])[1..] == rest[1..];
      assert first + rest[0] + separator + Join(rest[1..], separator)
          == first + (rest[0] + separator + Join(rest[1..], separator));
    }
  }

  lemma JoinAfterEmpty(rest: seq<string>, separator: string)
    requires rest != []
    ensures Join([""] + rest, separator) == separator + Join(rest, separator)
  {
    assert ([""] + rest)[1..] == rest;
    assert "" + separator + Join(rest, separator) == separator + Join(rest, separator);
  }

  /** Replacement keeps the text between the occurrences and puts the new text for each of them. */
  lemma {:induction false} ReplaceAllSplits(text: string, find: string, replace: string)
    requires find != ""
    ensures Join(Split(text, find), find) == text
    ensures Join(Split(text, find), replace) == ReplaceAll(text, find, replace)
    ensures forall part :: part in Split(text, find) ==> !Contains(part, find)
  {
    if text == "" {
    } else if find <= text {
      ReplaceAllSplits(text[|find|..], find, replace);
      JoinAfterEmpty(Split(text[|find|..], find), find);
      JoinAfterEmpty(Split(text[|find|..], find), replace);
      assert text == find + text[|find|..];
    } else {
      var rest := Split(text[1..], find);
      ReplaceAllSplits(text[1..], find, replace);
      JoinFirst([text[0]], rest, find);
      JoinFirst([text[0]], rest, replace);
      NoneInFirst(text, find, rest);
    }
  }

  lemma NoneInFirst(text: string, find: string, rest: seq<string>)
    requires text != "" && find != "" && !(find <= text)
    requires rest != [] && rest[0] <= text[1..] && !Contains(rest[0], find)
    ensures !Contains([text[0]] + rest[0], find)
  {
    var part := [text[0]] + rest[0];
    assert part <= text;
    forall i | 0 <= i <= |part| ensures !(find <= part[i..]) {
      if i > 0 { assert part[i..] == rest[0][i - 1..]; }
    }
  }

  // ---------- File steps ----------

  datatype Disk = Disk(project: string, backup: Option<string>)

  /** What a session is configured with; an absent or empty bundle id counts as none. */
  datatype Session = Session(realDevice: bool, useXctestrunFile: bool, updatedWDABundleId: string)

  /** The next file operation of a session, with what it still needs. */
  datatype Pc =
    | Idle
    | OldExists(bundleId: string)
    | MoveOld(bundleId: string)
    | CopyToOld(bundleId: string)
    | ReadProject(bundleId: string)
    | WriteProject(newContents: string)

  datatype State = State(disk: Disk, pc: Pc)

  /** `Fail` makes the pending operation throw; the code logs that and gives up what it was doing. */
  datatype Event = Init(session: Session) | Reset(session: Session) | Proceed | Fail | Crash

  function Updated(contents: string, bundleId: string): string {
    ReplaceAll(contents, WDA_RUNNER_BUNDLE_ID, bundleId)
  }

  predicate TouchesProject(s: Session) {
    s.realDevice && !s.useXctestrunFile
  }

  /** After restoring: go on with the update, if a bundle id asks for one. */
  function AfterRestore(bundleId: string): Pc {
    if bundleId == "" then Idle else CopyToOld(bundleId)
  }

  function Start(pc: Pc, ev: Event): Pc {
    if pc != Idle then pc
    else
      match ev
      case Init(s) => if TouchesProject(s) then OldExists(s.updatedWDABundleId) else Idle
      case Reset(s) => if s.realDevice && s.updatedWDABundleId != "" then OldExists("") else Idle
      case _ => Idle
  }

  function Succeed(st: State): State {
    var Disk(project, backup) := st.disk;
    match st.pc
    case Idle => st
    case OldExists(id) => State(st.disk, if backup.None? then AfterRestore(id) else MoveOld(id))
    case MoveOld(id) => State(if backup.Some? then Disk(backup.value, None) else st.disk, AfterRestore(id))
    case CopyToOld(id) => State(Disk(project, Some(project)), ReadProject(id))
    case ReadProject(id) =>
      State(st.disk, if Updated(project, id) != project then WriteProject(Updated(project, id)) else Idle)
    case WriteProject(newContents) => State(Disk(newContents, backup), Idle)
  }

  function Step(st: State, ev: Event): State {
    match ev
    case Init(_) => State(st.disk, Start(st.pc, ev))
    case Reset(_) => State(st.disk, Start(st.pc, ev))
    case Proceed => Succeed(st)
    case Fail => State(st.disk, if Restoring(st.pc) then AfterRestore(st.pc.bundleId) else Idle)
    case Crash => State(st.disk, Idle)
  }

  predicate Restoring(pc: Pc) {
    pc.OldExists? || pc.MoveOld?
  }

  function Run(st: State, evs: seq<Event>): State
    decreases |evs|
  {
    if evs == [] then st else Run(Step(st, evs[0]), evs[1..])
  }

  predicate NoFailedRestore(st: State, evs: seq<Event>)
    decreases |evs|
  {
    evs == [] || (!(evs[0].Fail? && Restoring(st.pc)) && NoFailedRestore(Step(st, evs[0]), evs[1..]))
  }

  /** The pristine text is in the backup if there is one, and otherwise in the project file. */
  predicate Keeps(disk: Disk, pristine: string) {
    (if disk.backup.Some? then disk.backup.value else disk.project) == pristine
  }

  predicate Invariant(st: State, pristine: string) {
    Keeps(st.disk, pristine) &&
    match st.pc
    case CopyToOld(_) => st.disk.backup.None?
    case ReadProject(_) => st.disk == Disk(pristine, Some(pristine))
    case WriteProject(_) => st.disk == Disk(pristine, Some(pristine))
    case MoveOld(_) => st.disk.backup.Some?
    case _ => true
  }

  lemma StepKeepsPristine(st: State, ev: Event, pristine: string)
    requires Invariant(st, pristine) && !(ev.Fail? && Restoring(st.pc))
    ensures Invariant(Step(st, ev), pristine)
  {
  }

  /** Whatever the sessions, crashes and other failures, the pristine text is never
  lost as long as no restore fails. */
  lemma {:induction false} PristineIsNeverLost(st: State, evs: seq<Event>, pristine: string)
    requires Invariant(st, pristine) && NoFailedRestore(st, evs)
    ensures Invariant(Run(st, evs), pristine)
    decreases |evs|
  {
    if evs != [] {
      StepKeepsPristine(st, evs[0], pristine);
      PristineIsNeverLost(Step(st, evs[0]), evs[1..], pristine);
    }
  }

  lemma {:induction false} RunAppend(st: State, a: seq<Event>, b: seq<Event>)
    ensures Run(st, a + b) == Run(Run(st, a), b)
    decreases |a|
  {
    if a == [] {
      assert a + b == b;
    } else {
      assert (a + b)[1..] == a[1..] + b;
      RunAppend(Step(st, a[0]), a[1..], b);
    }
  }

  lemma RunOne(st: State, ev: Event)
    ensures Run(st, [ev]) == Step(st, ev)
  {
    assert [ev][1..] == [];
  }

  lemma RunTwo(st: State, a: Event, b: Event)
    ensures Run(st, [a, b]) == Step(Step(st, a), b)
  {
    assert [a, b][1..] == [b];
    RunOne(Step(st, a), b);
  }

  // ---------- When the pristine text is lost ----------

  /** A restore fails while the project file differs from its backup, and an update is to follow. */
  predicate RestoreFailsChanged(st: State, ev: Event) {
    && ev.Fail? && Restoring(st.pc) && st.pc.bundleId != ""
    && st.disk.backup.Some? && st.disk.project != st.disk.backup.value
  }

  /** A start or a reset comes while an operation is pending; it changes nothing. */
  predicate PassedOver(ev: Event) {
    ev.Init? || ev.Reset?
  }

  ghost predicate FailedAt(st: State, evs: seq<Event>, i: nat)
    requires i < |evs|
  {
    RestoreFailsChanged(Run(st, evs[..i]), evs[i]) && forall k :: i < k < |evs| ==> PassedOver(evs[k])
  }

  /** Has a restore of a changed file failed, and nothing been done since? */
  ghost predicate RestoreHasFailed(st: State, evs: seq<Event>) {
    exists i: nat :: i < |evs| && FailedAt(st, evs, i)
  }

  /** Was a backup made right after a failed restore of a changed file? */
  ghost predicate CopiedAfterFailure(st: State, evs: seq<Event>) {
    exists j: nat :: j < |evs| && evs[j].Proceed? && RestoreHasFailed(st, evs[..j])
  }

  ghost predicate EverLost(st: State, evs: seq<Event>, pristine: string) {
    exists n: nat :: n <= |evs| && !Keeps(Run(st, evs[..n]).disk, pristine)
  }

  lemma RunLast(st: State, front: seq<Event>, ev: Event)
    ensures Run(st, front + [ev]) == Step(Run(st, front), ev)
  {
    RunAppend(st, front, [ev]);
    RunOne(Run(st, front), ev);
  }

  lemma HasFailedAppend(st: State, front: seq<Event>, ev: Event)
    ensures RestoreHasFailed(st, front + [ev])
       <==> (RestoreHasFailed(st, front) && PassedOver(ev)) || RestoreFailsChanged(Run(st, front), ev)
  {
    var evs := front + [ev];
    assert evs[..|front|] == front && evs[|front|] == ev;
    forall i: nat | i < |front| ensures FailedAt(st, evs, i) <==> FailedAt(st, front, i) && PassedOver(ev) {
      assert evs[..i] == front[..i];
      assert forall k :: i < k < |front| ==> evs[k] == front[k];
    }
    assert FailedAt(st, evs, |front|) <==> RestoreFailsChanged(Run(st, front), ev);
  }

  lemma CopiedAppend(st: State, front: seq<Event>, ev: Event)
    ensures CopiedAfterFailure(st, front + [ev])
       <==> CopiedAfterFailure(st, front) || (ev.Proceed? && RestoreHasFailed(st, front))
  {
    var evs := front + [ev];
    assert evs[..|front|] == front && evs[|front|] == ev;
    assert forall j: nat :: j < |front| ==> evs[..j] == front[..j] && evs[j] == front[j];
  }

  lemma LostAppend(st: State, front: seq<Event>, ev: Event, pristine: string)
    ensures EverLost(st, front + [ev], pristine)
       <==> EverLost(st, front, pristine) || !Keeps(Step(Run(st, front), ev).disk, pristine)
    ensures !Keeps(Run(st, front).disk, pristine) ==> EverLost(st, front, pristine)
  {
    var evs := front + [ev];
    RunLast(st, front, ev);
    assert evs[..|evs|] == evs && front[..|front|] == front;
    assert forall n: nat :: n <= |front| ==> evs[..n] == front[..n];
  }

  /** Is the next copy about to overwrite the backup with a changed file? */
  predicate AboutToLose(st: State) {
    st.pc.CopyToOld? && st.disk.backup.Some? && st.disk.project != st.disk.backup.value
  }

  predicate BackedUp(st: State) {
    st.pc.ReadProject? || st.pc.WriteProject? ==> st.disk.backup.Some?
  }

  lemma StepLoses(st: State, ev: Event, pristine: string)
    requires BackedUp(st)
    ensures BackedUp(Step(st, ev))
    ensures AboutToLose(Step(st, ev)) <==> (AboutToLose(st) && PassedOver(ev)) || RestoreFailsChanged(st, ev)
    ensures Keeps(st.disk, pristine) ==>
      (Keeps(Step(st, ev).disk, pristine) <==> !(AboutToLose(st) && ev.Proceed?))
  {
  }

  lemma {:induction false} LosesAfterFailure(st: State, evs: seq<Event>)
    requires BackedUp(st) && !AboutToLose(st)
    ensures BackedUp(Run(st, evs))
    ensures AboutToLose(Run(st, evs)) <==> RestoreHasFailed(st, evs)
    decreases |evs|
  {
    if evs != [] {
      var front, last := evs[..|evs| - 1], evs[|evs| - 1];
      LosesAfterFailure(st, front);
      assert front + [last] == evs;
      RunLast(st, front, last);
      HasFailedAppend(st, front, last);
      StepLoses(Run(st, front), last, "");
    }
  }

  /** Over any history, with all crashes and failures, the pristine text is lost at
  some point exactly when a restore fails on a changed file and a backup is then made. */
  lemma {:induction false} PristineIsLostIff(pristine: string, evs: seq<Event>)
    ensures var st := State(Disk(pristine, None), Idle);
      EverLost(st, evs, pristine) <==> CopiedAfterFailure(st, evs)
    decreases |evs|
  {
    if evs != [] {
      var st := State(Disk(pristine, None), Idle);
      var front, last := evs[..|evs| - 1], evs[|evs| - 1];
      PristineIsLostIff(pristine, front);
      assert front + [last] == evs;
      LosesAfterFailure(st, front);
      StepLoses(Run(st, front), last, pristine);
      LostAppend(st, front, last, pristine);
      CopiedAppend(st, front, last);
    }
  }

  // ---------- The operations of the code ----------

  /** Which operation of an update throws, if any. */
  datatype Fault = NoFault | CopyFails | ReadFails | WriteFails

  function Restored(disk: Disk, moveFails: bool): Disk {
    if disk.backup.None? || moveFails then disk else Disk(disk.backup.value, None)
  }

  function WithBundleId(disk: Disk, bundleId: string, fault: Fault): Disk {
    match fault
    case NoFault => Disk(Updated(disk.project, bundleId), Some(disk.project))
    case CopyFails => disk
    case ReadFails => Disk(disk.project, Some(disk.project))
    case WriteFails => Disk(disk.project, Some(disk.project))
  }

  function InitResult(disk: Disk, s: Session, moveFails: bool, fault: Fault): Disk {
    if !TouchesProject(s) then disk
    else if s.updatedWDABundleId == "" then Restored(disk, moveFails)
    else WithBundleId(Restored(disk, moveFails), s.updatedWDABundleId, fault)
  }

  class Project {
    var project: string
    var backup: Option<string>

    constructor (contents: string)
      ensures OnDisk() == Disk(contents, None)
    {
      project := contents;
      backup := None;
    }

    function OnDisk(): Disk
      reads this
    {
      Disk(project, backup)
    }

    method CopyToOldFile(fails: bool) returns (ok: bool)
      modifies this`backup
      ensures ok == !fails
      ensures backup == if ok then Some(project) else old(backup)
    {
      ok := !fails;
      if ok { backup := Some(project); }
    }

    method ReplaceInFile(find: string, replace: string, readFails: bool, writeFails: bool) returns (ok: bool)
      requires find != ""
      modifies this`project
      ensures project == if readFails || writeFails then old(project) else ReplaceAll(old(project), find, replace)
      ensures !readFails && !writeFails ==> ok
    {
      if readFails {
        return false;
      }
      var contents := project;
      var newContents := ReplaceAll(contents, find, replace);
      if newContents != contents {
        if writeFails {
          return false;
        }
        project := newContents;
      }
      return true;
    }

    method UpdateProjectFile(newBundleId: string, fault: Fault)
      modifies this
      ensures OnDisk() == WithBundleId(old(OnDisk()), newBundleId, fault)
    {
      var copied := CopyToOldFile(fault.CopyFails?);
      if copied {
        var _ := ReplaceInFile(WDA_RUNNER_BUNDLE_ID, newBundleId, fault.ReadFails?, fault.WriteFails?);
      }
    }

    method ResetProjectFile(moveFails: bool)
      modifies this
      ensures OnDisk() == Restored(old(OnDisk()), moveFails)
    {
      if backup.None? {
        return;
      }
      if !moveFails {
        project := backup.value;
        backup := None;
      }
    }

    method InitBuild(s: Session, moveFails: bool, fault: Fault)
      modifies this
      ensures OnDisk() == InitResult(old(OnDisk()), s, moveFails, fault)
    {
      if s.useXctestrunFile {
        return;
      }
      if s.realDevice {
        ResetProjectFile(moveFails);
        if s.updatedWDABundleId != "" {
          UpdateProjectFile(s.updatedWDABundleId, fault);
        }
      }
    }

    method ResetBuild(s: Session, moveFails: bool)
      modifies this
      ensures OnDisk() ==
        if s.realDevice && s.updatedWDABundleId != "" then Restored(old(OnDisk()), moveFails) else old(OnDisk())
    {
      if s.realDevice && s.updatedWDABundleId != "" {
        ResetProjectFile(moveFails);
      }
    }
  }

  // ---------- The operations are runs of file steps ----------

  function RestoreEvents(disk: Disk, moveFails: bool): seq<Event> {
    if disk.backup.None? then [Proceed] else [Proceed, if moveFails then Fail else Proceed]
  }

  function UpdateEvents(project: string, bundleId: string, fault: Fault): seq<Event> {
    var writes := Updated(project, bundleId) != project;
    match fault
    case CopyFails => [Fail]
    case ReadFails => [Proceed, Fail]
    case WriteFails => [Proceed, Proceed] + if writes then [Fail] else []
    case NoFault => [Proceed, Proceed] + if writes then [Proceed] else []
  }

  function InitEvents(disk: Disk, s: Session, moveFails: bool, fault: Fault): seq<Event> {
    if !TouchesProject(s) then [Init(s)]
    else if s.updatedWDABundleId == "" then [Init(s)] + RestoreEvents(disk, moveFails)
    else
      [Init(s)] + RestoreEvents(disk, moveFails)
      + UpdateEvents(Restored(disk, moveFails).project, s.updatedWDABundleId, fault)
  }

  lemma RestoreIsRun(disk: Disk, bundleId: string, moveFails: bool)
    ensures Run(State(disk, OldExists(bundleId)), RestoreEvents(disk, moveFails))
         == State(Restored(disk, moveFails), AfterRestore(bundleId))
  {
    var st := State(disk, OldExists(bundleId));
    if disk.backup.None? {
      RunOne(st, Proceed);
    } else {
      RunTwo(st, Proceed, if moveFails then Fail else Proceed);
    }
  }

  lemma UpdateIsRun(disk: Disk, bundleId: string, fault: Fault)
    ensures Run(State(disk, CopyToOld(bundleId)), UpdateEvents(disk.project, bundleId, fault))
         == State(WithBundleId(disk, bundleId, fault), Idle)
  {
    var st := State(disk, CopyToOld(bundleId));
    RunOne(st, Fail);
    RunTwo(st, Proceed, Fail);
    RunTwo(st, Proceed, Proceed);
    var evs := UpdateEvents(disk.project, bundleId, fault);
    if |evs| == 3 {
      assert evs == [Proceed, Proceed] + [evs[2]];
      RunAppend(st, [Proceed, Proceed], [evs[2]]);
      RunOne(Run(st, [Proceed, Proceed]), evs[2]);
    }
  }

  /** Initialising a build, with any failures, is a run of the file steps: a crash may hit it at any of them. */
  lemma InitIsRun(disk: Disk, s: Session, moveFails: bool, fault: Fault)
    ensures Run(State(disk, Idle), InitEvents(disk, s, moveFails, fault))
         == State(InitResult(disk, s, moveFails, fault), Idle)
  {
    var st := State(disk, Idle);
    RunOne(st, Init(s));
    if TouchesProject(s) {
      var restore, id := RestoreEvents(disk, moveFails), s.updatedWDABundleId;
      RestoreIsRun(disk, id, moveFails);
      RunAppend(st, [Init(s)], restore);
      if id != "" {
        var update := UpdateEvents(Restored(disk, moveFails).project, id, fault);
        RunAppend(st, [Init(s)] + restore, update);
        UpdateIsRun(Restored(disk, moveFails), id, fault);
      }
    }
  }

  /** So is resetting it. */
  lemma ResetIsRun(disk: Disk, s: Session, moveFails: bool)
    ensures s.realDevice && s.updatedWDABundleId != "" ==>
      Run(State(disk, Idle), [Reset(s)] + RestoreEvents(disk, moveFails)) == State(Restored(disk, moveFails), Idle)
    ensures !s.realDevice || s.updatedWDABundleId == "" ==> Run(State(disk, Idle), [Reset(s)]) == State(disk, Idle)
  {
    var st := State(disk, Idle);
    RunOne(st, Reset(s));
    RestoreIsRun(disk, "", moveFails);
    RunAppend(st, [Reset(s)], RestoreEvents(disk, moveFails));
  }

  /** Only a build for a real device without an xctestrun file touches the project. It
  starts from the backup, if there is one that can be moved back; without a bundle id it
  stays at that, and otherwise the text before the update becomes the new backup. */
  lemma InitMeaning(disk: Disk, s: Session, moveFails: bool, fault: Fault)
    ensures !s.realDevice || s.useXctestrunFile ==> InitResult(disk, s, moveFails, fault) == disk
    ensures s.realDevice && !s.useXctestrunFile ==>
      var moved := disk.backup.Some? && !moveFails;
      var text := if moved then disk.backup.value else disk.project;
      InitResult(disk, s, moveFails, fault) ==
        if s.updatedWDABundleId == "" || fault == CopyFails then Disk(text, if moved then None else disk.backup)
        else if fault == NoFault then
          Disk(ReplaceAll(text, "com.facebook.WebDriverAgentRunner", s.updatedWDABundleId), Some(text))
        else Disk(text, Some(text))
  {
  }

  // ---------- Whole sessions ----------

  /** After any history without a failed restore, a completed start leaves the
  pristine text with exactly the default ids replaced, or untouched if no id is given. */
  lemma CompletedInit(pristine: string, history: seq<Event>, s: Session)
    requires NoFailedRestore(State(Disk(pristine, None), Idle), history)
    requires TouchesProject(s)
    ensures InitResult(Run(State(Disk(pristine, None), Idle), history).disk, s, false, NoFault)
         == if s.updatedWDABundleId == "" then Disk(pristine, None)
            else Disk(Updated(pristine, s.updatedWDABundleId), Some(pristine))
  {
    PristineIsNeverLost(State(Disk(pristine, None), Idle), history, pristine);
  }

  /** A reset undoes every start, completed or not, after any such history. */
  lemma ResetUndoesInit(pristine: string, history: seq<Event>, s: Session, fault: Fault)
    requires NoFailedRestore(State(Disk(pristine, None), Idle), history)
    ensures Restored(InitResult(Run(State(Disk(pristine, None), Idle), history).disk, s, false, fault), false)
         == Disk(pristine, None)
  {
    PristineIsNeverLost(State(Disk(pristine, None), Idle), history, pristine);
  }

  /** One session loses the pristine text exactly when the restore fails while the
  project file is changed and a new backup is then made of it. */
  lemma InitLosesPristineIff(disk: Disk, s: Session, moveFails: bool, fault: Fault, pristine: string)
    requires Keeps(disk, pristine)
    ensures !Keeps(InitResult(disk, s, moveFails, fault), pristine) <==>
      && TouchesProject(s) && s.updatedWDABundleId != ""
      && moveFails && disk.backup.Some? && disk.project != disk.backup.value && fault != CopyFails
  {
  }
}
