/** Every run of the clients is finite and cannot end before all of them have finished: nothing blocks for
    ever on the mutex of the store or of a pool name, provided libvirt calls return. */
module PoolProgress {
  import opened LockProtocol
  import opened PoolHistory
  import opened PoolClients

  // ---------------------------------------------------------------- no deadlock

  /** A client before or between its locks has a next step of its own. */
  lemma ClientCanMove(s: Sys, t: nat)
    requires SysInv(s) && t < |s.jobs| && s.jobs[t] != Finished
    requires s.table.pcs[t].Outside? || s.table.pcs[t].Inside?
    ensures exists act :: CanAct(s, t, act)
  {
    var job := s.jobs[t];
    assert Fits(s.table.pcs[t], job);
    if s.table.pcs[t].Outside? {
      if WantedKey(job).Some? {
        assert CanAct(s, t, Locks(Start(WantedKey(job).value)));
      } else {
        assert CanAct(s, t, Prepares(Finished));
      }
    } else if job.Exit? {
      assert CanAct(s, t, Locks(Return));
    } else if job.PoolCreate? && !HasPool(s.lib, job.name) {
      assert CanAct(s, t, LooksUp(if job.hasPath then PoolDefine(job.name, false) else Exit));
    } else {
      assert CanAct(s, t, LooksUp(Exit));
    }
  }

  ghost predicate SomeoneCanAct(s: Sys) {
    exists t: nat, act :: CanAct(s, t, act)
  }

  lemma StoreWaitEnds(s: Sys)
    requires SysInv(s) && s.table.lock
    ensures SomeoneCanAct(s)
  {
    StoreHolderCanMove(s.table);
    var t: nat, move :| HasStore(s.table, t) && Enabled(s.table, t, move);
    assert CanAct(s, t, Locks(move));
  }

  /** A client past its lock, or on its way to it, is not what blocks the others. */
  lemma HolderCanMove(s: Sys, t: nat)
    requires SysInv(s) && t < |s.jobs| && Holds(s.table.pcs[t])
    ensures SomeoneCanAct(s)
  {
    var pc := s.table.pcs[t];
    assert Fits(pc, s.jobs[t]);
    if pc.Inside? {
      ClientCanMove(s, t);
    } else if pc.AtMutex? {
      assert CanAct(s, t, Locks(Release));
    } else {
      TableCallCanMove(s, t);
    }
  }

  lemma TableCallCanMove(s: Sys, t: nat)
    requires SysInv(s) && t < |s.jobs|
    requires s.table.pcs[t].AtTable? || s.table.pcs[t].InTable? || s.table.pcs[t].Leaving?
    ensures SomeoneCanAct(s)
  {
    if s.table.lock {
      StoreWaitEnds(s);
    } else {
      assert !HasStore(s.table, t);
      assert CanAct(s, t, Locks(Take));
    }
  }

  /** While any client is unfinished, some client can move. */
  lemma NoDeadlock(s: Sys, t: nat)
    requires SysInv(s) && t < |s.jobs| && s.jobs[t] != Finished
    ensures SomeoneCanAct(s)
  {
    var tb, pc := s.table, s.table.pcs[t];
    assert Consistent(tb, pc);
    if pc.Outside? || pc.Inside? {
      ClientCanMove(s, t);
    } else if pc.AtMutex? && pc.call.Locking? {
      if pc.found in tb.locked {
        var holder: nat :| HolderOf(tb, pc.found, holder);
        HolderCanMove(s, holder);
      } else {
        assert CanAct(s, t, Locks(Acquire));
      }
    } else if pc.AtMutex? {
      assert CanAct(s, t, Locks(Release));
    } else {
      TableCallCanMove(s, t);
    }
  }

  // ---------------------------------------------------------------- every run ends

  function JobRank(job: Job): nat {
    match job
    case PoolCreate(_, _) => 3
    case PoolDefine(_, _) => 2
    case PoolDelete(_) => 4
    case PoolFound(_) => 3
    case PoolUndefine(_) => 2
    case VolCreate(_, _) => 4
    case VolMake(_) => 3
    case VolAdopt(_) => 2
    case IsoUpload(_, _) => 3
    case IsoFound(_) => 2
    case VolDelete(_) => 5
    case VolFound(_) => 4
    case VolOfPool(_, _) => 3
    case VolRemove(_) => 2
    case Settle => 1
    case Exit => 0
    case Finished => 0
  }

  /** The steps a client has left at most. */
  function Rank(pc: Pc, job: Job): nat {
    match pc
    case Outside => if job == Finished then 0 else 10 + JobRank(job)
    case AtTable(call, _) => if call.Locking? then 9 + JobRank(job) else 4
    case InTable(call, _) => if call.Locking? then 8 + JobRank(job) else 3
    case Leaving(call, _, _) => if call.Locking? then 7 + JobRank(job) else 2
    case AtMutex(call, _, _) => if call.Locking? then 6 + JobRank(job) else 1
    case Inside(_, _) => 5 + JobRank(job)
    case Crashed => 0
  }

  function StepsLeft(pcs: seq<Pc>, jobs: seq<Job>): nat
    requires |pcs| == |jobs|
  {
    if pcs == [] then 0 else Rank(pcs[0], jobs[0]) + StepsLeft(pcs[1..], jobs[1..])
  }

  lemma {:induction false} OneClientFewer(pcs: seq<Pc>, jobs: seq<Job>, pcs': seq<Pc>, jobs': seq<Job>, t: nat)
    requires |pcs| == |jobs| == |pcs'| == |jobs'| && t < |pcs|
    requires forall u :: 0 <= u < |pcs| && u != t ==> pcs'[u] == pcs[u] && jobs'[u] == jobs[u]
    requires Rank(pcs'[t], jobs'[t]) < Rank(pcs[t], jobs[t])
    ensures StepsLeft(pcs', jobs') < StepsLeft(pcs, jobs)
  {
    if t == 0 {
      assert pcs'[1..] == pcs[1..] && jobs'[1..] == jobs[1..];
    } else {
      OneClientFewer(pcs[1..], jobs[1..], pcs'[1..], jobs'[1..], t - 1);
    }
  }

  lemma {:induction false} AtMostFifteenEach(pcs: seq<Pc>, jobs: seq<Job>)
    requires |pcs| == |jobs|
    ensures StepsLeft(pcs, jobs) <= 15 * |pcs|
  {
    if pcs == [] {
    } else {
      AtMostFifteenEach(pcs[1..], jobs[1..]);
    }
  }

  lemma LockMoveFalls(tb: Table, t: nat, move: Move, job: Job)
    requires Inv(tb) && Enabled(tb, t, move)
    requires move.Start? ==> job != Finished
    requires move.Return? ==> job == Exit
    ensures |Do(tb, t, move).pcs| == |tb.pcs|
    ensures Rank(Do(tb, t, move).pcs[t], if move.Release? then Finished else job) < Rank(tb.pcs[t], job)
  {
    if move.Release? { ReleaseFindsItsMutex(tb, t); }
  }

  lemma JobStepFalls(s: Sys, t: nat, act: Act)
    requires CanAct(s, t, act) && !act.Locks? && Fits(s.table.pcs[t], s.jobs[t])
    ensures After(s, t, act).table == s.table && |After(s, t, act).jobs| == |s.jobs|
    ensures Rank(s.table.pcs[t], After(s, t, act).jobs[t]) < Rank(s.table.pcs[t], s.jobs[t])
  {
  }

  lemma RankFalls(s: Sys, t: nat, act: Act)
    requires SysInv(s) && CanAct(s, t, act)
    ensures |After(s, t, act).jobs| == |s.jobs| == |After(s, t, act).table.pcs|
    ensures Rank(After(s, t, act).table.pcs[t], After(s, t, act).jobs[t]) < Rank(s.table.pcs[t], s.jobs[t])
  {
    assert Fits(s.table.pcs[t], s.jobs[t]);
    if act.Locks? {
      LockMoveFalls(s.table, t, act.move, s.jobs[t]);
    } else {
      JobStepFalls(s, t, act);
    }
  }

  lemma StepsLeftFall(s: Sys, t: nat, act: Act)
    requires SysInv(s) && CanAct(s, t, act)
    ensures |After(s, t, act).jobs| == |s.jobs| == |After(s, t, act).table.pcs|
    ensures StepsLeft(After(s, t, act).table.pcs, After(s, t, act).jobs) < StepsLeft(s.table.pcs, s.jobs)
  {
    RankFalls(s, t, act);
    OneClientFewer(s.table.pcs, s.jobs, After(s, t, act).table.pcs, After(s, t, act).jobs, t);
  }

  lemma NextFalls(s: Sys, s': Sys)
    requires SysInv(s) && Next(s, s')
    ensures |s'.jobs| == |s.jobs| == |s'.table.pcs|
    ensures StepsLeft(s'.table.pcs, s'.jobs) < StepsLeft(s.table.pcs, s.jobs)
  {
    var t: nat, act :| CanAct(s, t, act) && s' == After(s, t, act);
    StepsLeftFall(s, t, act);
  }

  lemma StepsLeftAfter(run: seq<Sys>, i: nat)
    requires IsSysRun(run) && 0 < i < |run|
    ensures |run[i].jobs| == |run[i].table.pcs| == |run[i - 1].jobs| == |run[i - 1].table.pcs|
    ensures StepsLeft(run[i].table.pcs, run[i].jobs) < StepsLeft(run[i - 1].table.pcs, run[i - 1].jobs)
  {
    SysRunHasInv(run, i - 1);
    assert NextAt(run, i - 1);
    NextFalls(run[i - 1], run[i]);
  }

  /** However the clients interleave and whichever calls fail, a run has at most fifteen steps a client. */
  lemma {:induction false} RunsAreBounded(run: seq<Sys>, i: nat)
    requires IsSysRun(run) && i < |run|
    ensures |run[i].jobs| == |run[i].table.pcs| == |run[0].jobs|
    ensures i + StepsLeft(run[i].table.pcs, run[i].jobs) <= 15 * |run[0].jobs|
  {
    if i == 0 {
      AtMostFifteenEach(run[0].table.pcs, run[0].jobs);
    } else {
      RunsAreBounded(run, i - 1);
      StepsLeftAfter(run, i);
    }
  }

  lemma StuckIsFinished(s: Sys)
    requires SysInv(s) && !SomeoneCanAct(s)
    ensures forall t :: 0 <= t < |s.jobs| ==> s.jobs[t] == Finished && s.table.pcs[t].Outside?
  {
    forall t: nat | t < |s.jobs| ensures s.jobs[t] == Finished && s.table.pcs[t].Outside? {
      if s.jobs[t] != Finished { NoDeadlock(s, t); }
      assert Fits(s.table.pcs[t], s.jobs[t]) && Consistent(s.table, s.table.pcs[t]);
    }
  }

  lemma OutsideHoldsNothing(tb: Table)
    requires Inv(tb) && forall t :: 0 <= t < |tb.pcs| ==> tb.pcs[t].Outside?
    ensures !tb.lock && tb.locked == {}
  {
    assert forall m, t: nat :: !HolderOf(tb, m, t);
    assert forall t: nat :: !HasStore(tb, t);
  }

  /** A run that cannot go on has finished every client and left every mutex free. */
  lemma StuckRunsAreFinished(run: seq<Sys>)
    requires IsSysRun(run) && !SomeoneCanAct(Last(run))
    ensures |run| <= 15 * |run[0].jobs| + 1
    ensures |Last(run).jobs| == |run[0].jobs|
    ensures forall job :: job in Last(run).jobs ==> job == Finished
    ensures !Last(run).table.lock && Last(run).table.locked == {}
  {
    SysRunHasInv(run, |run| - 1);
    RunsAreBounded(run, |run| - 1);
    StuckIsFinished(Last(run));
    OutsideHoldsNothing(Last(run).table);
  }
}
