/** What the calls of PoolCalls do alone is among what PoolClients interleaves. */
module PoolCallsLaws {
  import opened LockProtocol
  import opened PoolHistory
  import opened PoolClients
  import opened PoolCalls

  /** A run of one client that has come to a point of its path. */
  ghost predicate IsAt(dups: bool, run: seq<Sys>, first: Point, last: Point) {
    && IsSysRun(run) && run[0].lib == first.0 && run[0].jobs == [first.1] && run[0].acceptsDuplicates == dups
    && Last(run).lib == last.0 && Last(run).jobs == [last.1] && Last(run).acceptsDuplicates == dups
  }

  ghost predicate IsInside(run: seq<Sys>)
    requires run != []
  {
    |Last(run).table.pcs| == 1 && Last(run).table.pcs[0].Inside?
  }

  /** It locks only when a step needs it, hence not while it has yet to look for the pool it is to create. */
  ghost predicate Reaches(dups: bool, run: seq<Sys>, first: Point, last: Point) {
    IsAt(dups, run, first, last) && (Alone(Last(run)) || (IsInside(run) && !last.1.PoolCreate?))
  }

  lemma OneAct(dups: bool, run: seq<Sys>, act: Act, first: Point, p: Point, q: Point)
    requires IsAt(dups, run, first, p) && !act.Locks? && CanAct(Last(run), 0, act)
    requires After(Last(run), 0, act).lib == q.0 && After(Last(run), 0, act).jobs == [q.1]
    requires Alone(Last(run)) || (IsInside(run) && !q.1.PoolCreate?)
    ensures Reaches(dups, run + [After(Last(run), 0, act)], first, q)
  {
    RunGrows(run, 0, act);
  }

  /** Before any step that needs the lock, the client gets it. */
  lemma GetInside(dups: bool, run: seq<Sys>, first: Point, p: Point) returns (inside: seq<Sys>)
    requires Reaches(dups, run, first, p) && (WantedKey(p.1).Some? || !Waiting(p.1))
    ensures IsAt(dups, inside, first, p) && IsInside(inside)
  {
    SysRunHasInv(run, |run| - 1);
    assert Fits(Last(run).table.pcs[0], Last(run).jobs[0]);
    if Alone(Last(run)) {
      inside := AloneGetsIn(run, WantedKey(p.1).value);
    } else {
      inside := run;
    }
  }

  lemma StepIsRun(dups: bool, run: seq<Sys>, first: Point, p: Point, q: Point) returns (longer: seq<Sys>)
    requires Reaches(dups, run, first, p) && Step(dups, p, q)
    ensures Reaches(dups, longer, first, q)
  {
    if q.0 == p.0 && Before(p.0, p.1, q.1) {
      SysRunHasInv(run, |run| - 1);
      assert Fits(Last(run).table.pcs[0], Last(run).jobs[0]);
      OneAct(dups, run, Prepares(q.1), first, p, q);
      longer := run + [After(Last(run), 0, Prepares(q.1))];
    } else {
      var inside := GetInside(dups, run, first, p);
      var act;
      if q.0 == p.0 && Looks(p.0, p.1, q.1) {
        act := LooksUp(q.1);
      } else {
        var e :| Acts(dups, p.0, p.1, e) && q.0 == Effect(p.0, e);
        act := Effects(e);
      }
      OneAct(dups, inside, act, first, p, q);
      longer := inside + [After(Last(inside), 0, act)];
    }
  }

  /** Every path of a call is a run of the interleaved system with that one client, from and to the same
      tables: what holds of all runs holds of the calls. */
  lemma {:induction false} CallIsARun(dups: bool, path: seq<Point>, first: Point, last: Point) returns (run: seq<Sys>)
    requires IsPath(dups, path, first, last) && Sound(first.0) && IsRequest(first.1)
    ensures IsSysRun(run) && run[0].lib == first.0 && run[0].jobs == [first.1] && run[0].acceptsDuplicates == dups
    ensures Last(run).lib == last.0 && Last(run).jobs == [last.1]
    ensures Reaches(dups, run, first, last)
    decreases |path|
  {
    if |path| == 1 {
      run := [Sys(Table(false, map[], {}, [Outside]), [first.1], first.0, [], {}, dups)];
    } else {
      var front, before := path[..|path| - 1], path[|path| - 2];
      assert forall i :: 0 <= i < |front| - 1 ==> StepAt(dups, path, i) ==> StepAt(dups, front, i);
      run := CallIsARun(dups, front, first, before);
      assert StepAt(dups, path, |path| - 2);
      run := StepIsRun(dups, run, first, before, last);
    }
  }
}
