/** Ending the processes that match a pattern with ever stronger signals.

The process table changes on its own. `matches(i)` is what the i-th look for
matching processes finds; `looksDead(i, k, p)` is whether the k-th poll after the
i-th signal finds process `p` gone. A wait polls at least once. */
module ProcessKiller {

  type Pid = nat

  const SIGNALS: seq<nat> := [2, 15, 9]

  datatype Table = Table(
    matches: nat -> seq<Pid>, extraPolls: nat -> nat, looksDead: (nat, nat, Pid) -> bool)

  datatype Sent = Sent(signal: nat, pids: seq<Pid>)

  datatype End = NoMatch | AllDead | Killed

  /** Did poll `k` after signal `i` find all the signalled processes gone? */
  predicate DeadAt(t: Table, i: nat, k: nat) {
    forall p :: p in t.matches(i) ==> t.looksDead(i, k, p)
  }

  /** Every poll of the wait after signal `i` found some signalled process alive, not
  necessarily the same one each time. */
  ghost predicate Outlived(t: Table, i: nat) {
    forall k: nat :: k <= t.extraPolls(i) ==> !DeadAt(t, i, k)
  }

  ghost predicate FoundDead(t: Table, i: nat) {
    exists k: nat :: DeadAt(t, i, k)
  }

  method WaitUntilDead(t: Table, i: nat) returns (dead: bool)
    ensures dead <==> !Outlived(t, i)
  {
    for k := 0 to t.extraPolls(i) + 1
      invariant forall j: nat :: j < k ==> !DeadAt(t, i, j)
    {
      if forall p | p in t.matches(i) :: t.looksDead(i, k, p) {
        assert DeadAt(t, i, k);
        return true;
      }
    }
    return false;
  }

  /** `sent` and `end` are exactly what the table calls for. */
  ghost predicate Escalates(t: Table, sent: seq<Sent>, end: End) {
    && |sent| <= |SIGNALS|
    && (forall i :: 0 <= i < |sent| ==> t.matches(i) != [] && sent[i] == Sent(SIGNALS[i], t.matches(i)))
    && (forall i: nat :: i < |sent| - 1 ==> Outlived(t, i))
    && match end
       case NoMatch => |sent| < |SIGNALS| && t.matches(|sent|) == [] && (sent != [] ==> Outlived(t, |sent| - 1))
       case AllDead => 0 < |sent| < |SIGNALS| && !Outlived(t, |sent| - 1)
       case Killed => |sent| == |SIGNALS|
  }

  /** Whether the kill command itself succeeds makes no difference. */
  method KillAppUsingPattern(t: Table) returns (sent: seq<Sent>, end: End)
    ensures Escalates(t, sent, end)
  {
    sent := [];
    for i := 0 to |SIGNALS|
      invariant |sent| == i
      invariant forall j :: 0 <= j < i ==> t.matches(j) != [] && sent[j] == Sent(SIGNALS[j], t.matches(j))
      invariant forall j: nat :: j < i ==> Outlived(t, j)
      invariant i < |SIGNALS|
    {
      var signal := SIGNALS[i];
      var matchedPids := t.matches(i);
      if matchedPids == [] {
        return sent, NoMatch;
      }
      sent := sent + [Sent(signal, matchedPids)];
      if i == |SIGNALS| - 1 {
        return sent, Killed;
      }
      var dead := WaitUntilDead(t, i);
      if dead {
        return sent, AllDead;
      }
    }
  }

  /** The signals sent and the reason to stop are determined by the table. */
  lemma EscalationIsUnique(t: Table, s1: seq<Sent>, e1: End, s2: seq<Sent>, e2: End)
    requires Escalates(t, s1, e1) && Escalates(t, s2, e2)
    ensures s1 == s2 && e1 == e2
  {
    forall i | 0 <= i < |s1| && i < |s2| ensures s1[i] == s2[i] { }
  }

  /** A process found gone is found gone ever after. */
  ghost predicate DeadStayDead(t: Table, i: nat) {
    forall p, j: nat, k: nat :: p in t.matches(i) && t.looksDead(i, j, p) && j <= k ==> t.looksDead(i, k, p)
  }

  predicate Survives(t: Table, i: nat, p: Pid) {
    forall k: nat | k <= t.extraPolls(i) :: !t.looksDead(i, k, p)
  }

  /** If the dead stay dead, a wait is outlived exactly when one and the same process
  was found alive by all of its polls. */
  lemma OutlivedBySurvivorIff(t: Table, i: nat)
    requires DeadStayDead(t, i)
    ensures Outlived(t, i) <==> exists p :: p in t.matches(i) && Survives(t, i, p)
  {
    if Outlived(t, i) {
      assert !DeadAt(t, i, t.extraPolls(i));
      var p :| p in t.matches(i) && !t.looksDead(i, t.extraPolls(i), p);
      assert Survives(t, i, p);
    }
    if p :| p in t.matches(i) && Survives(t, i, p) {
      forall k: nat | k <= t.extraPolls(i) ensures !DeadAt(t, i, k) {
        assert !t.looksDead(i, k, p);
      }
    }
  }

  /** Without that, two processes that are found alive in turn outlive a wait together. */
  lemma OutlivedInTurn(t: Table, i: nat, p: Pid, q: Pid)
    requires t.matches(i) == [p, q] && p != q && t.extraPolls(i) == 1
    requires !t.looksDead(i, 0, p) && t.looksDead(i, 1, p) && t.looksDead(i, 0, q) && !t.looksDead(i, 1, q)
    ensures Outlived(t, i) && !exists r :: r in t.matches(i) && Survives(t, i, r)
  {
    assert p in t.matches(i) && q in t.matches(i);
    forall k: nat | k <= t.extraPolls(i) ensures !DeadAt(t, i, k) {
      assert k == 0 || k == 1;
    }
    assert !Survives(t, i, p) by { assert t.looksDead(i, 1, p); }
    assert !Survives(t, i, q) by { assert t.looksDead(i, 0, q); }
  }

  /** SIGKILL is sent only to processes matched after both gentler signals were
  outlived: where the dead stay dead, by one process that was alive all through the wait. */
  lemma KillIsLastResort(t: Table, sent: seq<Sent>, end: End, i: nat)
    requires Escalates(t, sent, end) && i < |sent| && sent[i].signal == 9
    ensures i == 2 && sent[i].pids == t.matches(2) && Outlived(t, 0) && Outlived(t, 1)
    ensures sent[0].signal == 2 && sent[1].signal == 15
    ensures forall j: nat :: j < 2 && DeadStayDead(t, j) ==> exists p :: p in sent[j].pids && Survives(t, j, p)
  {
    assert SIGNALS[0] == 2 && SIGNALS[1] == 15 && SIGNALS[2] == 9;
    forall j: nat | j < 2 && DeadStayDead(t, j) ensures exists p :: p in sent[j].pids && Survives(t, j, p) {
      OutlivedBySurvivorIff(t, j);
    }
  }

  /** Stopping before SIGKILL means that nothing matched any more, or that all
  processes signalled last were found gone by one poll. */
  lemma EarlyEnd(t: Table, sent: seq<Sent>, end: End)
    requires Escalates(t, sent, end) && |sent| < 3
    ensures t.matches(|sent|) == []
         || (sent != [] && sent[|sent| - 1].pids == t.matches(|sent| - 1) && FoundDead(t, |sent| - 1))
  {
    if end == AllDead {
      var k: nat :| k <= t.extraPolls(|sent| - 1) && DeadAt(t, |sent| - 1, k);
      assert FoundDead(t, |sent| - 1);
    }
  }
}
