/** Cleaning the Xcode project after a module upgrade.

The version last seen is persisted; what `strongbox` stores is there again at the
next launch. Version strings are compared by their three numbers. */
module ProjectCleanup {
  import opened Wrappers

  datatype Version = Version(major: nat, minor: nat, patch: nat) {
    predicate AtLeast(other: Version) {
      if major != other.major then major > other.major
      else if minor != other.minor then minor > other.minor
      else patch >= other.patch
    }
  }

  function Max(v: Version, w: Version): Version {
    if v.AtLeast(w) then v else w
  }

  /** The persisted item: none yet, a version, or a string that is no version. */
  datatype Stored = Missing | Recent(version: Version) | Damaged

  /** `legacy`: the timestamp file of old installs exists. */
  datatype State = State(stored: Stored, legacy: bool)

  /** The package version at a launch, and which operations throw. */
  datatype Launch = Launch(version: Version, createFails: bool, cleanFails: bool, writeFails: bool)

  const LEGACY_VERSION := Version(5, 0, 0)

  // ---------- The check ----------

  datatype Opening = Opening(state: State, goesOn: bool)

  /** The item to compare with, created if there is none, and whether the check goes on. */
  function Opened(st: State, l: Launch): Opening {
    if !st.stored.Missing? then Opening(st, true)
    else if l.createFails then Opening(st, false)
    else if st.legacy then Opening(st.(stored := Recent(LEGACY_VERSION)), true)
    else Opening(st.(stored := Recent(l.version)), false)
  }

  predicate NeedsClean(st: State, l: Launch) {
    var Opening(item, goesOn) := Opened(st, l);
    goesOn && item.stored.Recent? && !item.stored.version.AtLeast(l.version)
  }

  predicate Cleans(st: State, l: Launch) {
    NeedsClean(st, l) && !l.cleanFails
  }

  function Check(st: State, l: Launch): State {
    var Opening(item, goesOn) := Opened(st, l);
    if !goesOn then item
    else if item.stored.Damaged? then if l.writeFails then item else item.(stored := Recent(l.version))
    else if Cleans(st, l) && !l.writeFails then item.(stored := Recent(l.version))
    else item
  }

  // ---------- Runs ----------

  function Run(st: State, ls: seq<Launch>): State {
    if ls == [] then st else Check(Run(st, ls[..|ls| - 1]), ls[|ls| - 1])
  }

  /** Does launch `i` of the run clean the project? */
  predicate CleansAt(st: State, ls: seq<Launch>, i: nat)
    requires i < |ls|
  {
    Cleans(Run(st, ls[..i]), ls[i])
  }

  predicate Commits(l: Launch) {
    !l.cleanFails && !l.writeFails
  }

  /** The greatest of a start version and the versions of the launches that did not fail. */
  function Greatest(start: Version, ls: seq<Launch>): Version {
    if ls == [] then start
    else
      var front := Greatest(start, ls[..|ls| - 1]);
      if Commits(ls[|ls| - 1]) then Max(front, ls[|ls| - 1].version) else front
  }

  /** `Greatest` is what its name says. */
  lemma {:induction false} GreatestIsMaximum(start: Version, ls: seq<Launch>)
    ensures Greatest(start, ls).AtLeast(start)
    ensures forall i :: 0 <= i < |ls| && Commits(ls[i]) ==> Greatest(start, ls).AtLeast(ls[i].version)
    ensures Greatest(start, ls) == start
         || exists i :: 0 <= i < |ls| && Commits(ls[i]) && Greatest(start, ls) == ls[i].version
  {
    if ls != [] {
      var front := ls[..|ls| - 1];
      GreatestIsMaximum(start, front);
      if i :| 0 <= i < |front| && Commits(front[i]) && Greatest(start, front) == front[i].version {
        assert Commits(ls[i]) && Greatest(start, front) == ls[i].version;
      }
      forall i | 0 <= i < |front| && Commits(ls[i]) ensures Greatest(start, ls).AtLeast(ls[i].version) {
        assert Greatest(start, front).AtLeast(front[i].version);
      }
    }
  }

  /** With any failures at any launches, the persisted version is the maximum of the
  start version and the versions of the launches that did not fail. */
  lemma {:induction false} PersistedIsGreatest(st: State, ls: seq<Launch>)
    requires st.stored.Recent?
    ensures Run(st, ls).stored == Recent(Greatest(st.stored.version, ls))
  {
    if ls != [] {
      PersistedIsGreatest(st, ls[..|ls| - 1]);
    }
  }

  /** A launch cleans exactly when its version exceeds all that were reached before
  and the cleaning works: a failed launch leaves its work to the next one. */
  lemma CleansIffRaises(st: State, ls: seq<Launch>, i: nat)
    requires st.stored.Recent? && i < |ls|
    ensures CleansAt(st, ls, i) <==>
      !ls[i].cleanFails && !Greatest(st.stored.version, ls[..i]).AtLeast(ls[i].version)
  {
    PersistedIsGreatest(st, ls[..i]);
  }

  predicate NoFaults(ls: seq<Launch>) {
    forall i :: 0 <= i < |ls| ==> !ls[i].createFails && !ls[i].cleanFails && !ls[i].writeFails
  }

  /** The version a history starts from: a new install or a damaged item takes that of its first launch. */
  function StartVersion(st: State, first: Launch): Version {
    match st.stored
    case Recent(v) => v
    case Damaged => first.version
    case Missing => if st.legacy then LEGACY_VERSION else first.version
  }

  /** From any start and without failures: the persisted version is the running
  maximum, and the project is cleaned exactly at the launches that raise it. */
  lemma {:induction false} FaultFreeHistory(st: State, ls: seq<Launch>, i: nat)
    requires NoFaults(ls) && i < |ls|
    ensures var start := StartVersion(st, ls[0]);
      && Run(st, ls[..i + 1]).stored == Recent(Greatest(start, ls[..i + 1]))
      && (CleansAt(st, ls, i) <==> !Greatest(start, ls[..i]).AtLeast(ls[i].version))
    decreases i
  {
    assert ls[..i + 1][..i] == ls[..i];
    if i == 0 {
      assert ls[..0] == [];
    } else {
      FaultFreeHistory(st, ls, i - 1);
    }
  }

  // ---------- The method ----------

  class VersionBox {
    var stored: Stored
    const legacy: bool

    constructor (stored: Stored, legacy: bool)
      ensures View() == State(stored, legacy)
    {
      this.stored := stored;
      this.legacy := legacy;
    }

    function View(): State
      reads this
    {
      State(stored, legacy)
    }

    /** `cleaned` tells whether the project was cleaned, `threw` whether the check ended with an error. */
    method CleanupProjectIfFresh(l: Launch) returns (cleaned: bool, threw: bool)
      modifies this`stored
      ensures View() == Check(old(View()), l)
      ensures cleaned == Cleans(old(View()), l)
      ensures threw <==> old(stored).Damaged? && l.writeFails
    {
      cleaned, threw := false, false;
      if stored.Missing? {
        if legacy {
          if l.createFails {
            return;
          }
          stored := Recent(LEGACY_VERSION);
        } else {
          if !l.createFails {
            stored := Recent(l.version);
          }
          return;
        }
      }
      if stored.Damaged? {
        if l.writeFails {
          threw := true;
          return;
        }
        stored := Recent(l.version);
        return;
      }
      if stored.version.AtLeast(l.version) {
        return;
      }
      if l.cleanFails {
        return;
      }
      cleaned := true;
      if !l.writeFails {
        stored := Recent(l.version);
      }
    }
  }

  // ---------- Versions and first launches, number by number ----------

  /** The first number that differs decides. */
  lemma AtLeastIff(v: Version, w: Version)
    ensures v.AtLeast(w) <==>
      || v == w
      || v.major > w.major
      || (v.major == w.major && v.minor > w.minor)
      || (v.major == w.major && v.minor == w.minor && v.patch > w.patch)
  {
  }

  /** A first launch on a new install stores its version without cleaning; after a
  legacy install it counts as an upgrade from 5.0.0. */
  lemma FirstLaunch(legacy: bool, l: Launch)
    requires !l.createFails && !l.cleanFails && !l.writeFails
    ensures var st := State(Missing, legacy);
      && (Cleans(st, l) <==> legacy && !(Version(5, 0, 0).AtLeast(l.version)))
      && Check(st, l).stored
      == Recent(if legacy && Version(5, 0, 0).AtLeast(l.version) then Version(5, 0, 0) else l.version)
  {
  }

  /** What each failure leaves behind: nothing stored is changed, and a cleaning that
  was done is done again by the next launch. */
  lemma FailuresKeepVersion(st: State, l: Launch)
    ensures st.stored.Missing? && l.createFails ==> Check(st, l) == st && !Cleans(st, l)
    ensures st.stored.Recent? && l.cleanFails ==> Check(st, l) == st && !Cleans(st, l)
    ensures st.stored.Recent? && l.writeFails ==> Check(st, l) == st
    ensures st.stored.Damaged? ==>
      !Cleans(st, l) && Check(st, l).stored == if l.writeFails then Damaged else Recent(l.version)
    ensures st.stored.Recent? && !l.cleanFails ==> (Cleans(st, l) <==> !st.stored.version.AtLeast(l.version))
  {
  }
}
