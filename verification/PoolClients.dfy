/** Creating and deleting pools and volumes from any number of threads: each client takes the mutex of one
    pool name and checks and changes libvirt's tables in between. Any libvirt call may fail. */
module PoolClients {
  import opened Wrappers
  import opened MutexStore
  import opened LockProtocol
  import opened PoolHistory

  /** What a client is about to do next. */
  datatype Job =
    | PoolCreate(name: string, hasPath: bool)    // lock the name, then look for a pool of that name
    | PoolDefine(name: string, misled: bool)     // `misled`: its lookup failed although there was a pool
    | PoolDelete(uuid: Uuid)                     // look the pool up, before locking
    | PoolFound(pool: Uuid)                      // lock its name, then ask for its state
    | PoolUndefine(pool: Uuid)
    | VolCreate(poolName: string, vol: string)   // lock the pool name, then look the pool up
    | VolMake(at: VolAt)
    | VolAdopt(at: VolAt)                        // look up the volume that was in the way
    | IsoUpload(poolName: string, vol: string)   // look the pool up, before locking
    | IsoFound(at: VolAt)                        // lock the pool's name, then create the volume
    | VolDelete(key: VolKey)                     // look the volume up, before locking
    | VolFound(key: VolKey)                      // look its pool up, before locking
    | VolOfPool(key: VolKey, poolName: string)   // lock the pool's name, then refresh the pool
    | VolRemove(key: VolKey)
    | Settle                                     // calls and waits after the effect
    | Exit                                       // about to unlock
    | Finished

  /** The key the client locks next, if that is its next step. */
  function WantedKey(job: Job): Option<Key> {
    match job
    case PoolCreate(name, _) => Some(name)
    case PoolFound(u) => Some(u.name)
    case VolCreate(pool, _) => Some(pool)
    case IsoFound(at) => Some(at.pool.name)
    case VolOfPool(_, pool) => Some(pool)
    case _ => None
  }

  /** Steps before locking. */
  predicate Before(lib: Lib, job: Job, job': Job) {
    match job
    case PoolCreate(_, _) => job' == Finished    // not a directory pool
    case PoolDelete(u) => job' == Finished || (u in lib.pools && job' == PoolFound(u))
    case IsoUpload(pool, vol) =>
      || job' == Finished
      || (job'.IsoFound? && job'.at.pool in lib.pools && job'.at.pool.name == pool && job'.at.name == vol)
    case VolDelete(k) => job' == Finished || (k in lib.vols && job' == VolFound(k))
    case VolFound(k) => job' == Finished || (k in lib.vols && job' == VolOfPool(k, lib.vols[k].pool.name))
    case _ => false
  }

  /** Steps between locking and unlocking that only look. A pool create takes any error of its lookup for
      "no such pool". */
  ghost predicate Looks(lib: Lib, job: Job, job': Job) {
    match job
    case PoolCreate(name, hasPath) =>
      || (HasPool(lib, name) && job' == Exit)
      || job' == if hasPath then PoolDefine(name, HasPool(lib, name)) else Exit
    case PoolFound(u) => job' == Exit || (u in lib.pools && job' == PoolUndefine(u))
    case VolCreate(pool, vol) =>
      || job' == Exit
      || (job'.VolMake? && job'.at.pool in lib.pools && job'.at.pool.name == pool && job'.at.name == vol)
    case VolMake(at) => job' == Exit || (HasVolume(lib, at) && job' == VolAdopt(at))
    case VolOfPool(k, _) => job' == Exit || job' == VolRemove(k)
    case PoolDefine(_, _) => job' == Exit
    case PoolUndefine(_) => job' == Exit
    case VolAdopt(_) => job' == Exit
    case IsoFound(_) => job' == Exit
    case VolRemove(_) => job' == Exit
    case Settle => job' == Exit
    case _ => false
  }

  /** Steps between locking and unlocking that take effect, as far as libvirt decides: it refuses to make a
      volume that is there or in a pool that is not, and to delete what is not there. Whether it accepts a
      second pool of one name is left open. */
  ghost predicate Acts(acceptsDuplicates: bool, lib: Lib, job: Job, e: Event) {
    match e
    case Defined(u) =>
      && job.PoolDefine? && job.name == u.name && u !in lib.pools
      && (acceptsDuplicates || !HasPool(lib, u.name))
    case Undefined(u) => job == PoolUndefine(u) && u in lib.pools
    case Made(k, at) =>
      && (job == VolMake(at) || job == IsoFound(at))
      && at.pool in lib.pools && !HasVolume(lib, at) && k !in lib.vols && k.pool == at.pool.name
    case Adopted(k, at) => job == VolAdopt(at) && k in lib.vols && lib.vols[k] == at
    case Gone(k) => job == VolRemove(k) && k in lib.vols
  }

  /** `twice` records the names that misled clients have defined; `acceptsDuplicates` never changes. */
  datatype Sys =
    Sys(table: Table, jobs: seq<Job>, lib: Lib, log: seq<Event>, twice: set<string>, acceptsDuplicates: bool)

  datatype Act = Locks(move: Move) | Prepares(job: Job) | LooksUp(job: Job) | Effects(event: Event)

  ghost predicate CanAct(s: Sys, t: nat, act: Act) {
    && t < |s.jobs| == |s.table.pcs|
    && match act
       case Locks(move) =>
         && Enabled(s.table, t, move)
         && (move.Start? ==> WantedKey(s.jobs[t]) == Some(move.key))
         && (move.Return? ==> s.jobs[t] == Exit)
       case Prepares(job) => s.table.pcs[t].Outside? && Before(s.lib, s.jobs[t], job)
       case LooksUp(job) => s.table.pcs[t].Inside? && Looks(s.lib, s.jobs[t], job)
       case Effects(e) => s.table.pcs[t].Inside? && Acts(s.acceptsDuplicates, s.lib, s.jobs[t], e)
  }

  /** What a misled client defines is defined twice. */
  function Misled(job: Job): set<string> {
    if job.PoolDefine? && job.misled then {job.name} else {}
  }

  ghost function After(s: Sys, t: nat, act: Act): Sys
    requires CanAct(s, t, act)
  {
    match act
    case Locks(move) =>
      s.(table := Do(s.table, t, move), jobs := if move.Release? then s.jobs[t := Finished] else s.jobs)
    case Prepares(job) => s.(jobs := s.jobs[t := job])
    case LooksUp(job) => s.(jobs := s.jobs[t := job])
    case Effects(e) =>
      s.(jobs := s.jobs[t := Settle], lib := Effect(s.lib, e), log := s.log + [e], twice := s.twice + Misled(s.jobs[t]))
  }

  // ---------------------------------------------------------------- invariant

  /** The pool name whose tables the client may touch next, once inside. */
  function Section(job: Job): Option<Key> {
    match job
    case PoolDefine(name, _) => Some(name)
    case PoolUndefine(u) => Some(u.name)
    case VolMake(at) => Some(at.pool.name)
    case VolAdopt(at) => Some(at.pool.name)
    case VolRemove(k) => Some(k.pool)
    case _ => WantedKey(job)
  }

  predicate Waiting(job: Job) {
    job.PoolDelete? || job.IsoUpload? || job.VolDelete? || job.VolFound? || job.Finished? || WantedKey(job).Some?
  }

  /** The client is where its place in the lock protocol says. */
  predicate Fits(pc: Pc, job: Job) {
    match pc
    case Outside => Waiting(job)
    case Inside(key, _) => Section(job) == Some(key) || job.Settle? || job.Exit?
    case Crashed => true
    case _ => if pc.call.Locking? then WantedKey(job) == Some(pc.key) else job.Exit?
  }

  /** What a client has learnt and relies on until it unlocks. */
  ghost predicate Knows(lib: Lib, job: Job) {
    match job
    case PoolDefine(name, misled) => misled <==> HasPool(lib, name)
    case PoolUndefine(u) => u in lib.pools
    case VolMake(at) => at.pool in lib.pools
    case VolAdopt(at) => at.pool in lib.pools && HasVolume(lib, at)
    case VolOfPool(k, pool) => k.pool == pool
    case _ => true
  }

  ghost predicate Places(s: Sys) {
    && |s.jobs| == |s.table.pcs|
    && forall t :: 0 <= t < |s.jobs| ==> Fits(s.table.pcs[t], s.jobs[t])
  }

  ghost predicate Knowledge(s: Sys) {
    forall t :: 0 <= t < |s.jobs| ==> Knows(s.lib, s.jobs[t])
  }

  ghost predicate SysInv(s: Sys) {
    Inv(s.table) && Places(s) && SoundVolumes(s.lib) && Knowledge(s)
  }

  function PoolOf(e: Event): Key {
    match e
    case Defined(u) => u.name
    case Undefined(u) => u.name
    case Made(k, _) => k.pool
    case Adopted(k, _) => k.pool
    case Gone(k) => k.pool
  }

  lemma HasPoolStays(lib: Lib, e: Event, name: string)
    requires name != PoolOf(e)
    ensures HasPool(Effect(lib, e), name) <==> HasPool(lib, name)
  {
    if HasPool(lib, name) {
      var u :| u in lib.pools && u.name == name;
      assert u in Effect(lib, e).pools;
    }
  }

  /** What a client knows about one pool name survives every effect on another. */
  lemma KnowledgeSurvives(lib: Lib, job: Job, e: Event)
    requires SoundVolumes(lib) && Knows(lib, job)
    requires Section(job) != Some(PoolOf(e))
    requires e.Made? ==> e.key !in lib.vols
    ensures Knows(Effect(lib, e), job)
  {
    if job.PoolDefine? {
      HasPoolStays(lib, e, job.name);
    } else if job.VolAdopt? {
      var k :| k in lib.vols && lib.vols[k] == job.at;
      assert k in Effect(lib, e).vols && Effect(lib, e).vols[k] == job.at;
    }
  }

  /** Under the invariant, what acts is possible, and doubles a name exactly when the client was misled. */
  lemma ActsArePossible(acceptsDuplicates: bool, lib: Lib, job: Job, e: Event)
    requires Knows(lib, job) && Acts(acceptsDuplicates, lib, job, e)
    ensures Possible(lib, e)
    ensures Misled(job) == if Doubles(lib, e) then {e.pool.name} else {}
    ensures !acceptsDuplicates ==> Misled(job) == {}
  {
  }

  /** Every effect on a pool's tables happens while its caller holds the mutex of that pool's name. */
  lemma EffectsAreUnderTheirLock(s: Sys, t: nat, e: Event)
    requires SysInv(s) && CanAct(s, t, Effects(e))
    ensures Holds(s.table.pcs[t]) && s.table.pcs[t].key == PoolOf(e)
    ensures forall u: nat :: u < |s.jobs| && Holds(s.table.pcs[u]) && s.table.pcs[u].key == PoolOf(e) ==> u == t
  {
    assert Fits(s.table.pcs[t], s.jobs[t]) && Consistent(s.table, s.table.pcs[t]);
    forall u: nat | u < |s.jobs| && Holds(s.table.pcs[u]) && s.table.pcs[u].key == PoolOf(e) ensures u == t {
      assert Consistent(s.table, s.table.pcs[u]);
      assert HolderOf(s.table, Held(s.table.pcs[t]), t) && HolderOf(s.table, Held(s.table.pcs[t]), u);
    }
  }

  /** A client that relies on what it has learnt still holds the mutex it learnt it under. */
  lemma RelianceIsLocked(s: Sys, t: nat)
    requires Places(s) && t < |s.jobs|
    requires s.jobs[t].PoolDefine? || s.jobs[t].PoolUndefine? || s.jobs[t].VolMake? || s.jobs[t].VolAdopt?
    requires !s.table.pcs[t].Crashed?
    ensures s.table.pcs[t].Inside? && Section(s.jobs[t]) == Some(s.table.pcs[t].key)
  {
    assert Fits(s.table.pcs[t], s.jobs[t]);
  }

  lemma LocksKeepSysInv(s: Sys, t: nat, move: Move)
    requires SysInv(s) && CanAct(s, t, Locks(move))
    ensures SysInv(After(s, t, Locks(move)))
  {
    var s' := After(s, t, Locks(move));
    StepKeepsInv(s.table, t, move);
    OthersStay(s.table, t, move);
    assert Fits(s.table.pcs[t], s.jobs[t]);
    if move.Release? { ReleaseFindsItsMutex(s.table, t); }
    assert Fits(s'.table.pcs[t], s'.jobs[t]);
  }

  lemma LooksKeepSysInv(s: Sys, t: nat, act: Act)
    requires SysInv(s) && CanAct(s, t, act) && (act.Prepares? || act.LooksUp?)
    ensures SysInv(After(s, t, act))
  {
    var s' := After(s, t, act);
    assert Fits(s.table.pcs[t], s.jobs[t]);
    assert Fits(s'.table.pcs[t], s'.jobs[t]) && Knows(s'.lib, s'.jobs[t]);
  }

  lemma EffectsKeepSysInv(s: Sys, t: nat, e: Event)
    requires SysInv(s) && CanAct(s, t, Effects(e))
    ensures SysInv(After(s, t, Effects(e)))
  {
    var s' := After(s, t, Effects(e));
    assert Knows(s.lib, s.jobs[t]);
    ActsArePossible(s.acceptsDuplicates, s.lib, s.jobs[t], e);
    PossibleKeepsVolumesSound(s.lib, e);
    EffectsAreUnderTheirLock(s, t, e);
    forall u: nat | u < |s.jobs| && u != t ensures Knows(s'.lib, s'.jobs[u]) {
      KnowledgeStays(s, t, e, u);
    }
  }

  lemma KnowledgeStays(s: Sys, t: nat, e: Event, u: nat)
    requires SysInv(s) && CanAct(s, t, Effects(e)) && u < |s.jobs| && u != t
    ensures Knows(Effect(s.lib, e), s.jobs[u])
  {
    var job := s.jobs[u];
    assert Knows(s.lib, job) && Consistent(s.table, s.table.pcs[u]);
    if job.PoolDefine? || job.PoolUndefine? || job.VolMake? || job.VolAdopt? {
      EffectsAreUnderTheirLock(s, t, e);
      RelianceIsLocked(s, u);
      KnowledgeSurvives(s.lib, job, e);
    }
  }

  lemma ActKeepsSysInv(s: Sys, t: nat, act: Act)
    requires SysInv(s) && CanAct(s, t, act)
    ensures SysInv(After(s, t, act))
  {
    match act
    case Locks(move) => LocksKeepSysInv(s, t, move);
    case Effects(e) => EffectsKeepSysInv(s, t, e);
    case _ => LooksKeepSysInv(s, t, act);
  }

  // ---------------------------------------------------------------- runs

  ghost predicate SysInit(s: Sys) {
    && Init(s.table) && |s.jobs| == |s.table.pcs| && Sound(s.lib) && s.log == [] && s.twice == {}
    && forall t :: 0 <= t < |s.jobs| ==> IsRequest(s.jobs[t])
  }

  /** The clients' entry points. */
  predicate IsRequest(job: Job) {
    job.PoolCreate? || job.PoolDelete? || job.VolCreate? || job.IsoUpload? || job.VolDelete?
  }

  ghost predicate Next(s: Sys, s': Sys) {
    exists t: nat, act :: CanAct(s, t, act) && s' == After(s, t, act)
  }

  ghost predicate NextAt(run: seq<Sys>, i: int)
    requires 0 <= i < |run| - 1
  {
    Next(run[i], run[i + 1])
  }

  function Last(run: seq<Sys>): Sys
    requires run != []
  {
    run[|run| - 1]
  }

  ghost predicate IsSysRun(run: seq<Sys>) {
    && run != [] && SysInit(run[0])
    && forall i :: 0 <= i < |run| - 1 ==> NextAt(run, i)
  }

  lemma {:induction false} SysRunHasInv(run: seq<Sys>, i: nat)
    requires IsSysRun(run) && i < |run|
    ensures SysInv(run[i])
  {
    if i == 0 {
      InitHasInv(run[0].table);
    } else {
      SysRunHasInv(run, i - 1);
      assert NextAt(run, i - 1);
      var t: nat, act :| CanAct(run[i - 1], t, act) && run[i] == After(run[i - 1], t, act);
      ActKeepsSysInv(run[i - 1], t, act);
    }
  }

  /** What a step adds to the history. */
  lemma NextAddsToHistory(s: Sys, s': Sys) returns (added: Option<Event>)
    requires SysInv(s) && Next(s, s')
    ensures s'.acceptsDuplicates == s.acceptsDuplicates
    ensures added.None? ==> s'.log == s.log && s'.lib == s.lib && s'.twice == s.twice
    ensures added.Some? ==>
              && Possible(s.lib, added.value)
              && s'.log == s.log + [added.value] && s'.lib == Effect(s.lib, added.value)
              && s'.twice == s.twice + (if Doubles(s.lib, added.value) then {added.value.pool.name} else {})
              && (!s.acceptsDuplicates ==> s'.twice == s.twice)
  {
    var t: nat, act :| CanAct(s, t, act) && s' == After(s, t, act);
    if act.Effects? {
      assert Knows(s.lib, s.jobs[t]);
      ActsArePossible(s.acceptsDuplicates, s.lib, s.jobs[t], act.event);
      added := Some(act.event);
    } else {
      added := None;
    }
  }

  /** The theorem of the clients: under every interleaving the effects, in the order they happened, are a
      possible history that ends in the tables as they are, and the names doubled in it are exactly those
      that misled clients defined. */
  lemma {:induction false} HistoryExplainsTables(run: seq<Sys>, i: nat)
    requires IsSysRun(run) && i < |run|
    ensures Happened(run[0].lib, run[i].log)
    ensures Outcome(run[0].lib, run[i].log) == run[i].lib
    ensures Doubled(run[0].lib, run[i].log) == run[i].twice
    ensures run[i].acceptsDuplicates == run[0].acceptsDuplicates
    ensures !run[0].acceptsDuplicates ==> run[i].twice == {}
  {
    if i == 0 {
    } else {
      var s, s' := run[i - 1], run[i];
      HistoryExplainsTables(run, i - 1);
      SysRunHasInv(run, i - 1);
      assert NextAt(run, i - 1);
      var added := NextAddsToHistory(s, s');
      if added.Some? {
        HappenedOneMore(run[0].lib, s.log, added.value);
        OneMore(run[0].lib, s.log, added.value);
      }
    }
  }

  /** The effects are a legal sequential history if and only if no misled client defined a pool. */
  lemma SequentialIffNoneMisled(run: seq<Sys>, i: nat)
    requires IsSysRun(run) && i < |run|
    ensures Replay(run[0].lib, run[i].log).Some? <==> run[i].twice == {}
    ensures run[i].twice == {} ==> Replay(run[0].lib, run[i].log) == Some(run[i].lib)
  {
    HistoryExplainsTables(run, i);
    LegalIffNothingDoubled(run[0].lib, run[i].log);
  }

  /** A name no misled client defined belongs to one pool at most, whatever happened to other names. */
  lemma OnePoolAName(run: seq<Sys>, i: nat, name: string)
    requires IsSysRun(run) && i < |run| && name !in run[i].twice
    ensures UniqueName(run[i].lib, name)
  {
    HistoryExplainsTables(run, i);
    NameStaysUnique(run[0].lib, run[i].log, name);
  }

  /** If libvirt refuses a second pool of one name, every run is sequential and names are unique, whichever
      lookups fail. */
  lemma RefusalMakesRunsSequential(run: seq<Sys>, i: nat)
    requires IsSysRun(run) && i < |run| && !run[0].acceptsDuplicates
    ensures Replay(run[0].lib, run[i].log) == Some(run[i].lib) && Sound(run[i].lib)
  {
    HistoryExplainsTables(run, i);
    SequentialIffNoneMisled(run, i);
    SysRunHasInv(run, i);
    forall u, v | u in run[i].lib.pools && v in run[i].lib.pools && u.name == v.name ensures u == v {
      OnePoolAName(run, i, u.name);
    }
  }

  /** Between two pools defined under one name, the first was undefined. */
  lemma OneDefineBetweenDeletes(run: seq<Sys>, n: nat, i: nat, j: nat)
    requires IsSysRun(run) && n < |run|
    requires i < j < |run[n].log| && run[n].log[i].Defined? && run[n].log[j].Defined?
    requires run[n].log[i].pool.name == run[n].log[j].pool.name && run[n].log[j].pool.name !in run[n].twice
    ensures exists m :: i < m < j && run[n].log[m] == Undefined(run[n].log[i].pool)
  {
    HistoryExplainsTables(run, n);
    DefineOnceBetweenDeletes(run[0].lib, run[n].log, i, j);
  }

  /** Creates of one volume in one pool all end with one key, while nothing is deleted. */
  lemma ConcurrentCreatesAgree(run: seq<Sys>, n: nat, i: nat, j: nat)
    requires IsSysRun(run) && n < |run| && i < j < |run[n].log|
    requires Created(run[n].log[i]) && Created(run[n].log[j]) && run[n].log[i].at == run[n].log[j].at
    requires Undisturbed(run[n].log, i, j)
    ensures run[n].log[i].key == run[n].log[j].key && run[n].log[j].Adopted?
  {
    HistoryExplainsTables(run, n);
    CreatesAgree(run[0].lib, run[n].log, i, j);
  }

  /** The same for creates that name their pool, as the configuration does, unless that name was doubled. */
  lemma CreatesByPoolNameAgree(run: seq<Sys>, n: nat, i: nat, j: nat)
    requires IsSysRun(run) && n < |run| && i < j < |run[n].log|
    requires Created(run[n].log[i]) && Created(run[n].log[j])
    requires run[n].log[i].at.pool.name == run[n].log[j].at.pool.name && run[n].log[i].at.name == run[n].log[j].at.name
    requires Undisturbed(run[n].log, i, j) && run[n].log[i].at.pool.name !in run[n].twice
    ensures run[n].log[i].key == run[n].log[j].key && run[n].log[j].Adopted?
  {
    HistoryExplainsTables(run, n);
    DoubledGrows(run[0].lib, run[n].log, j);
    CreatesShareTheirPool(run[0].lib, run[n].log, i, j);
    ConcurrentCreatesAgree(run, n, i, j);
  }

  /** Deletes of one key take effect once, until the key is made again. */
  lemma ConcurrentDeletesTakeEffectOnce(run: seq<Sys>, n: nat, i: nat, j: nat)
    requires IsSysRun(run) && n < |run| && i < j < |run[n].log|
    requires run[n].log[i].Gone? && run[n].log[j] == run[n].log[i]
    ensures exists m :: i < m < j && run[n].log[m].Made? && run[n].log[m].key == run[n].log[i].key
  {
    HistoryExplainsTables(run, n);
    DeleteOnceBetweenCreates(run[0].lib, run[n].log, i, j);
  }

  /** A create that met an existing volume finds it, whatever the other threads do in between. */
  lemma AdoptionFindsItsVolume(run: seq<Sys>, i: nat, t: nat)
    requires IsSysRun(run) && i < |run| && t < |run[i].jobs| && run[i].jobs[t].VolAdopt?
    ensures exists k :: CanAct(run[i], t, Effects(Adopted(k, run[i].jobs[t].at)))
  {
    SysRunHasInv(run, i);
    var s := run[i];
    assert Knows(s.lib, s.jobs[t]) && Consistent(s.table, s.table.pcs[t]);
    RelianceIsLocked(s, t);
    var k :| k in s.lib.vols && s.lib.vols[k] == s.jobs[t].at;
    assert CanAct(s, t, Effects(Adopted(k, s.jobs[t].at)));
  }

  /** The error check that is missing: where libvirt accepts a second pool of one name, a lookup that fails
      in any reachable state in which a pool create is about to look for a pool that exists leads to one. */
  lemma FailedLookupDefinesTwice(run: seq<Sys>, t: nat) returns (u: Uuid, run': seq<Sys>)
    requires IsSysRun(run) && t < |Last(run).jobs| && t < |Last(run).table.pcs| && run[0].acceptsDuplicates
    requires Last(run).table.pcs[t].Inside?
    requires Last(run).jobs[t].PoolCreate? && Last(run).jobs[t].hasPath
    requires HasPool(Last(run).lib, Last(run).jobs[t].name)
    ensures run < run' && IsSysRun(run')
    ensures Last(run').log == Last(run).log + [Defined(u)] && u.name == Last(run).jobs[t].name
    ensures u in Last(run').lib.pools && !UniqueName(Last(run').lib, u.name)
    ensures Replay(run'[0].lib, Last(run').log).None?
  {
    var s, name := Last(run), Last(run).jobs[t].name;
    SysRunHasInv(run, |run| - 1);
    HistoryExplainsTables(run, |run| - 1);
    var ids := set v | v in s.lib.pools :: v.id;
    var id := UnusedNumber(ids);
    u := Uuid(name, id);
    assert u !in s.lib.pools by { assert u.id !in ids; }
    RunGrows(run, t, LooksUp(PoolDefine(name, true)));
    var misled := run + [After(s, t, LooksUp(PoolDefine(name, true)))];
    HistoryExplainsTables(misled, |run|);
    assert CanAct(Last(misled), t, Effects(Defined(u)));
    RunGrows(misled, t, Effects(Defined(u)));
    run' := misled + [After(Last(misled), t, Effects(Defined(u)))];
    SequentialIffNoneMisled(run', |run'| - 1);
    var v :| v in s.lib.pools && v.name == name;
    assert v in Last(run').lib.pools && v != u;
  }

  lemma RunGrows(run: seq<Sys>, t: nat, act: Act)
    requires IsSysRun(run) && CanAct(Last(run), t, act)
    ensures IsSysRun(run + [After(Last(run), t, act)])
  {
    var longer := run + [After(Last(run), t, act)];
    forall i | 0 <= i < |longer| - 1 ensures NextAt(longer, i) {
      if i < |run| - 1 { assert NextAt(run, i); }
    }
  }

  /** A client alone, outside. */
  predicate Alone(s: Sys) {
    s.table == Table(false, map[], {}, [Outside]) && |s.jobs| == 1
  }

  lemma LockMove(run: seq<Sys>, move: Move, table: Table) returns (longer: seq<Sys>)
    requires IsSysRun(run) && |Last(run).jobs| == 1 == |Last(run).table.pcs|
    requires Enabled(Last(run).table, 0, move) && table == Do(Last(run).table, 0, move)
    requires !move.Return? && !move.Release? && (move.Start? ==> WantedKey(Last(run).jobs[0]) == Some(move.key))
    ensures IsSysRun(longer) && run < longer && longer[0] == run[0] && Last(longer) == Last(run).(table := table)
  {
    RunGrows(run, 0, Locks(move));
    longer := run + [After(Last(run), 0, Locks(move))];
  }

  /** A client alone gets into its section. */
  lemma AloneGetsIn(run: seq<Sys>, key: Key) returns (longer: seq<Sys>)
    requires IsSysRun(run) && Alone(Last(run)) && WantedKey(Last(run).jobs[0]) == Some(key)
    ensures IsSysRun(longer) && run < longer && longer[0] == run[0]
    ensures Last(longer) == Last(run).(table := Table(false, map[key := 0], {0}, [Inside(key, 0)]))
  {
    longer := LockMove(run, Start(key), Table(false, map[], {}, [AtTable(Locking, key)]));
    longer := LockMove(longer, Take, Table(true, map[], {}, [InTable(Locking, key)]));
    longer := LockMove(longer, Lookup(0), Table(true, map[key := 0], {}, [Leaving(Locking, key, 0)]));
    longer := LockMove(longer, Leave, Table(false, map[key := 0], {}, [AtMutex(Locking, key, 0)]));
    longer := LockMove(longer, Acquire, Table(false, map[key := 0], {0}, [Inside(key, 0)]));
  }

  /** So from all tables that have the pool, one client alone can define it a second time, if libvirt lets it. */
  lemma FailedLookupIsReachable(lib: Lib, name: string) returns (run: seq<Sys>)
    requires Sound(lib) && HasPool(lib, name)
    ensures IsSysRun(run) && |run[0].jobs| == 1 && run[0].lib == lib && run[0].acceptsDuplicates
    ensures !UniqueName(Last(run).lib, name) && Replay(lib, Last(run).log).None?
  {
    var s := Sys(Table(false, map[], {}, [Outside]), [PoolCreate(name, true)], lib, [], {}, true);
    var inside := AloneGetsIn([s], name);
    var _, longer := FailedLookupDefinesTwice(inside, 0);
    assert longer[0] == inside[0];
    run := longer;
  }
}
