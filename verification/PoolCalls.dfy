/** The calls that create and delete pools and volumes, as one thread runs them. What each asks of libvirt, in
    which order and with which mutexes taken, is read off libvirt's record; what each does to the tables is a
    path through the client steps that PoolClients interleaves. */
module PoolCalls {
  import opened Wrappers
  import opened PoolHistory
  import opened PoolClients
  import opened LibvirtTables
  import KV = MutexStore

  datatype CallError =
    | WrongType
    | LookupFailed
    | AlreadyExists
    | MissingPath
    | BadConfig
    | CreateFailed
    | DeleteFailed
    | NotSettled

  // ---------------------------------------------------------------- tables

  /** A pool is defined, under a name that is free unless libvirt accepts duplicates. */
  ghost predicate IsDefined(dups: bool, before: Lib, after: Lib, name: string, u: Uuid) {
    u.name == name && u !in before.pools && (dups || !HasPool(before, name)) && after == Effect(before, Defined(u))
  }

  /** The tables after a pool create: a pool was defined, even if it then failed to start, or nothing was. */
  ghost predicate PoolCreated(dups: bool, before: Lib, after: Lib, name: string, path: string,
                              r: Result<Uuid, CallError>)
  {
    match r
    case Ok(u) => path != "" && IsDefined(dups, before, after, name, u)
    case Err(NotSettled) => path != "" && exists u :: IsDefined(dups, before, after, name, u)
    case Err(AlreadyExists) => HasPool(before, name) && after == before
    case Err(MissingPath) => path == "" && after == before
    case Err(BadConfig) => after == before
    case Err(CreateFailed) => after == before
    case _ => false
  }

  /** The tables after a pool delete: the pool and its volumes are gone, or nothing is. */
  ghost predicate PoolDeleted(before: Lib, after: Lib, uuid: Uuid, r: Result<(), CallError>) {
    match r
    case Ok(_) =>
      && uuid !in after.pools
      && after == if uuid in before.pools then Effect(before, Undefined(uuid)) else before
    case Err(NotSettled) => uuid in before.pools && after == Effect(before, Undefined(uuid))
    case Err(LookupFailed) => after == before
    case Err(DeleteFailed) => uuid in before.pools && after == before
    case _ => false
  }

  /** The volume is under this key, made if it was not there before. */
  ghost predicate IsThere(before: Lib, after: Lib, at: VolAt, key: VolKey) {
    && key in after.vols && after.vols[key] == at
    && if HasVolume(before, at) then after == before
       else key !in before.vols && after == Effect(before, Made(key, at))
  }

  ghost predicate VolumeMade(before: Lib, after: Lib, at: VolAt, r: Result<VolKey, CallError>) {
    match r
    case Ok(k) => IsThere(before, after, at, k)
    case Err(NotSettled) => exists k :: IsThere(before, after, at, k)
    case Err(e) => (e == LookupFailed || e == BadConfig || e == CreateFailed) && after == before
  }

  /** The tables after a volume create: the volume is there under the returned key, made or found. */
  ghost predicate VolumeCreated(before: Lib, after: Lib, pool: string, vol: string, r: Result<VolKey, CallError>) {
    exists u: Uuid :: u.name == pool && VolumeMade(before, after, VolAt(u, vol), r)
  }

  /** The tables after a volume delete: success means that the key is gone, now or before. */
  ghost predicate VolumeDeleted(before: Lib, after: Lib, key: VolKey, r: Result<(), CallError>) {
    match r
    case Ok(_) => key !in after.vols && after == if key in before.vols then Effect(before, Gone(key)) else before
    case Err(NotSettled) => key in before.vols && after == Effect(before, Gone(key))
    case Err(LookupFailed) => after == before
    case Err(DeleteFailed) => key in before.vols && after == before
    case _ => false
  }

  // ---------------------------------------------------------------- paths

  type Point = (Lib, Job)

  /** One step of a client nobody interferes with; `dups` says whether libvirt accepts duplicates. */
  ghost predicate Step(dups: bool, p: Point, q: Point) {
    || (q.0 == p.0 && (Before(p.0, p.1, q.1) || Looks(p.0, p.1, q.1)))
    || (q.1 == Settle && exists e :: Acts(dups, p.0, p.1, e) && q.0 == Effect(p.0, e))
  }

  ghost predicate StepAt(dups: bool, path: seq<Point>, i: int)
    requires 0 <= i < |path| - 1
  {
    Step(dups, path[i], path[i + 1])
  }

  ghost predicate IsPath(dups: bool, path: seq<Point>, first: Point, last: Point) {
    && path != [] && path[0] == first && path[|path| - 1] == last
    && forall i :: 0 <= i < |path| - 1 ==> StepAt(dups, path, i)
  }

  /** A path to where the call ends, before or after it has locked. */
  ghost predicate EndsAt(dups: bool, path: seq<Point>, first: Point, after: Lib) {
    IsPath(dups, path, first, (after, Finished)) || IsPath(dups, path, first, (after, Exit))
  }

  lemma PathGrows(dups: bool, path: seq<Point>, first: Point, last: Point, next: Point)
    requires IsPath(dups, path, first, last) && Step(dups, last, next)
    ensures IsPath(dups, path + [next], first, next)
  {
    var longer := path + [next];
    forall i | 0 <= i < |longer| - 1 ensures StepAt(dups, longer, i) {
      if i < |path| - 1 { assert StepAt(dups, path, i); }
    }
  }

  lemma PathLooks(dups: bool, path: seq<Point>, first: Point, lib: Lib, job: Job, next: Job)
    returns (longer: seq<Point>)
    requires IsPath(dups, path, first, (lib, job)) && (Looks(lib, job, next) || Before(lib, job, next))
    ensures IsPath(dups, longer, first, (lib, next))
  {
    PathGrows(dups, path, first, (lib, job), (lib, next));
    longer := path + [(lib, next)];
  }

  /** An effect, and what comes after it until the client unlocks. */
  lemma PathSettles(dups: bool, path: seq<Point>, first: Point, lib: Lib, job: Job, e: Event)
    returns (longer: seq<Point>)
    requires IsPath(dups, path, first, (lib, job)) && Acts(dups, lib, job, e)
    ensures IsPath(dups, longer, first, (Effect(lib, e), Exit))
  {
    var now := Effect(lib, e);
    PathGrows(dups, path, first, (lib, job), (now, Settle));
    longer := PathLooks(dups, path + [(now, Settle)], first, now, Settle, Exit);
  }

  /** What a pool create does to the tables is a path of client steps. */
  lemma PoolCreatePath(dups: bool, before: Lib, after: Lib, name: string, path: string, r: Result<Uuid, CallError>)
    returns (steps: seq<Point>)
    requires PoolCreated(dups, before, after, name, path, r)
    ensures IsPath(dups, steps, (before, PoolCreate(name, path != "")), (after, Exit))
  {
    var job, define := PoolCreate(name, path != ""), PoolDefine(name, HasPool(before, name));
    if path == "" || r == Err(AlreadyExists) {
      steps := PathLooks(dups, [(before, job)], (before, job), before, job, Exit);
    } else {
      steps := PathLooks(dups, [(before, job)], (before, job), before, job, define);
      if exists u :: IsDefined(dups, before, after, name, u) {
        var u :| IsDefined(dups, before, after, name, u);
        steps := PathSettles(dups, steps, (before, job), before, define, Defined(u));
      } else {
        steps := PathLooks(dups, steps, (before, job), before, define, Exit);
      }
    }
  }

  lemma PoolDeletePath(dups: bool, before: Lib, after: Lib, uuid: Uuid, r: Result<(), CallError>)
    returns (steps: seq<Point>)
    requires PoolDeleted(before, after, uuid, r)
    ensures EndsAt(dups, steps, (before, PoolDelete(uuid)), after)
  {
    var first := (before, PoolDelete(uuid));
    if uuid !in before.pools || r == Err(LookupFailed) {
      steps := PathLooks(dups, [first], first, before, PoolDelete(uuid), Finished);
    } else {
      steps := PathLooks(dups, [first], first, before, PoolDelete(uuid), PoolFound(uuid));
      steps := PathLooks(dups, steps, first, before, PoolFound(uuid), PoolUndefine(uuid));
      if r == Err(DeleteFailed) {
        steps := PathLooks(dups, steps, first, before, PoolUndefine(uuid), Exit);
      } else {
        steps := PathSettles(dups, steps, first, before, PoolUndefine(uuid), Undefined(uuid));
      }
    }
  }

  lemma VolumeCreatePath(dups: bool, before: Lib, after: Lib, pool: string, vol: string, r: Result<VolKey, CallError>)
    returns (steps: seq<Point>)
    requires SoundVolumes(before) && SoundVolumes(after) && VolumeCreated(before, after, pool, vol, r)
    ensures IsPath(dups, steps, (before, VolCreate(pool, vol)), (after, Exit))
  {
    var first := (before, VolCreate(pool, vol));
    var u: Uuid :| u.name == pool && VolumeMade(before, after, VolAt(u, vol), r);
    var at := VolAt(u, vol);
    if r.Err? && !r.error.NotSettled? {
      steps := PathLooks(dups, [first], first, before, first.1, Exit);
    } else {
      var key := if r.Ok? then r.value else var k :| IsThere(before, after, at, k); k;
      assert IsThere(before, after, at, key);
      steps := PathLooks(dups, [first], first, before, first.1, VolMake(at));
      if HasVolume(before, at) {
        steps := PathLooks(dups, steps, first, before, VolMake(at), VolAdopt(at));
        steps := PathSettles(dups, steps, first, before, VolAdopt(at), Adopted(key, at));
      } else {
        steps := PathSettles(dups, steps, first, before, VolMake(at), Made(key, at));
      }
    }
  }

  lemma VolumeDeletePath(dups: bool, before: Lib, after: Lib, key: VolKey, r: Result<(), CallError>)
    returns (steps: seq<Point>)
    requires VolumeDeleted(before, after, key, r)
    ensures EndsAt(dups, steps, (before, VolDelete(key)), after)
  {
    var first := (before, VolDelete(key));
    if key !in before.vols || r == Err(LookupFailed) {
      steps := PathLooks(dups, [first], first, before, VolDelete(key), Finished);
    } else {
      var pool := before.vols[key].pool.name;
      steps := PathLooks(dups, [first], first, before, VolDelete(key), VolFound(key));
      steps := PathLooks(dups, steps, first, before, VolFound(key), VolOfPool(key, pool));
      steps := PathLooks(dups, steps, first, before, VolOfPool(key, pool), VolRemove(key));
      if r == Err(DeleteFailed) {
        steps := PathLooks(dups, steps, first, before, VolRemove(key), Exit);
      } else {
        steps := PathSettles(dups, steps, first, before, VolRemove(key), Gone(key));
      }
    }
  }

  // ---------------------------------------------------------------- records

  ghost predicate Asked(s: Served, request: Request, held: set<string>) {
    s.request == request && s.held == held
  }

  /** A lookup that works tells what is there. */
  ghost predicate Knew(answer: Answer, there: bool) {
    (answer == Done ==> there) && (answer == Refused ==> !there)
  }

  /** The requests of a script in order, each with just that key locked, up to the first that is not done;
      `ok` when all are done. */
  ghost predicate Follows(talk: seq<Served>, script: seq<Request>, key: string, ok: bool) {
    && (if ok then |talk| == |script| else 0 < |talk| <= |script|)
    && forall i :: 0 <= i < |talk| ==>
         Asked(talk[i], script[i], {key}) && (talk[i].answer == Done <==> ok || i < |talk| - 1)
  }

  /** A script is followed on, unless it has stopped. */
  lemma FollowsOn(talk: seq<Served>, script: seq<Request>, on: bool, rest: seq<Served>, more: seq<Request>, key: string,
                  ok: bool)
    requires Follows(talk, script, key, on)
    requires if on then Follows(rest, more, key, ok) else rest == [] && !ok
    ensures Follows(talk + rest, script + more, key, ok)
  {
  }

  lemma RecordGrows(before: seq<Served>, talk: seq<Served>, rest: seq<Served>)
    ensures before + talk + rest == before + (talk + rest)
  {
  }

  /** What a pool create asks, with its name locked from the first request to the last, and what comes of it. */
  ghost predicate PoolCreateTalk(talk: seq<Served>, before: Lib, name: string, path: string, transformed: bool,
                                 r: Result<Uuid, CallError>)
  {
    && talk != [] && Asked(talk[0], PoolByName(name), {name}) && Knew(talk[0].answer, HasPool(before, name))
    && if talk[0].answer == Done then |talk| == 1 && r == Err(AlreadyExists)
       else if path == "" then |talk| == 1 && r == Err(MissingPath)
       else if !transformed then |talk| == 1 && r == Err(BadConfig)
       else PoolDefineTalk(talk[1..], name, r)
  }

  ghost predicate PoolDefineTalk(talk: seq<Served>, name: string, r: Result<Uuid, CallError>) {
    && talk != [] && Asked(talk[0], DefinePool(name), {name})
    && if talk[0].answer != Done then |talk| == 1 && r == Err(CreateFailed)
       else exists u: Uuid ::
         u.name == name && (r == Ok(u) || r == Err(NotSettled)) && PoolStartTalk(talk[1..], u, r.Ok?)
  }

  ghost predicate PoolStartTalk(talk: seq<Served>, pool: Uuid, ok: bool) {
    Follows(talk, [PoolTask(pool, Build), PoolTask(pool, Autostart), PoolTask(pool, Start), PoolTask(pool, Refresh),
                   SeePool(pool)], pool.name, ok)
  }

  /** What a pool delete asks, and what comes of it: the pool is looked up with nothing locked, and the rest
      happens with its name locked. */
  ghost predicate PoolDeleteTalk(talk: seq<Served>, before: Lib, uuid: Uuid, r: Result<(), CallError>) {
    && talk != [] && Asked(talk[0], PoolByUUID(uuid), {}) && Knew(talk[0].answer, uuid in before.pools)
    && match talk[0].answer
       case Refused => |talk| == 1 && r == Ok(())
       case Broke => |talk| == 1 && r == Err(LookupFailed)
       case Done => PoolDropTalk(talk[1..], uuid, r)
  }

  /** An active pool is stopped first. */
  ghost predicate PoolDropTalk(talk: seq<Served>, pool: Uuid, r: Result<(), CallError>) {
    && talk != [] && talk[0].request.PoolState?
    && Asked(talk[0], PoolState(pool, talk[0].request.active), {pool.name})
    && if talk[0].answer != Done then |talk| == 1 && r == Err(LookupFailed)
       else if talk[0].request.active then PoolStopTalk(talk[1..], pool, r)
       else PoolRemoveTalk(talk[1..], pool, r)
  }

  ghost predicate PoolStopTalk(talk: seq<Served>, pool: Uuid, r: Result<(), CallError>) {
    && talk != [] && Asked(talk[0], PoolTask(pool, Stop), {pool.name})
    && if talk[0].answer != Done then |talk| == 1 && r == Err(DeleteFailed) else PoolRemoveTalk(talk[1..], pool, r)
  }

  ghost predicate PoolRemoveTalk(talk: seq<Served>, pool: Uuid, r: Result<(), CallError>) {
    && Follows(talk, [PoolTask(pool, DeleteStorage), UndefinePool(pool), SeeNoPool(pool)], pool.name, r.Ok?)
    && (r.Err? ==> r.error == if |talk| == 3 then NotSettled else DeleteFailed)
  }

  /** What a volume create asks, with its pool's name locked from the first request to the last, and what
      comes of it. */
  ghost predicate VolumeCreateTalk(talk: seq<Served>, before: Lib, poolName: string, vol: string, accepted: bool,
                                   hasSource: bool, r: Result<VolKey, CallError>)
  {
    && talk != [] && Asked(talk[0], PoolByName(poolName), {poolName})
    && Knew(talk[0].answer, HasPool(before, poolName))
    && if talk[0].answer != Done then |talk| == 1 && r == Err(LookupFailed)
       else exists u: Uuid ::
         u in before.pools && u.name == poolName && VolumeTalk(talk[1..], VolAt(u, vol), accepted, hasSource, r)
  }

  ghost predicate VolumeTalk(talk: seq<Served>, at: VolAt, accepted: bool, hasSource: bool,
                             r: Result<VolKey, CallError>)
  {
    && talk != [] && Asked(talk[0], PoolTask(at.pool, Refresh), {at.pool.name})
    && if talk[0].answer != Done then |talk| == 1 && r == Err(LookupFailed)
       else if !accepted then |talk| == 1 && r == Err(BadConfig)
       else MakeTalk(talk[1..], at, hasSource, r)
  }

  ghost predicate MakeTalk(talk: seq<Served>, at: VolAt, hasSource: bool, r: Result<VolKey, CallError>) {
    exists n, made :: MadeIn(talk, n, made, at, hasSource, r)
  }

  ghost predicate MadeIn(talk: seq<Served>, n: int, made: Result<VolKey, CallError>, at: VolAt, hasSource: bool,
                         r: Result<VolKey, CallError>)
  {
    && 0 < n <= |talk| && Making(talk[..n], at, made)
    && if made.Ok? then FillTalk(talk[n..], at, made.value, hasSource, r) else n == |talk| && r == Err(CreateFailed)
  }

  /** The volume is made, or the one in the way is looked up. */
  ghost predicate Making(talk: seq<Served>, at: VolAt, made: Result<VolKey, CallError>) {
    && talk != [] && Asked(talk[0], MakeVolume(at), {at.pool.name})
    && |talk| == (if talk[0].answer == Refused then 2 else 1)
    && (|talk| == 2 ==> Asked(talk[1], VolumeByName(at), {at.pool.name}))
    && (made.Ok? <==> talk[|talk| - 1].answer == Done)
  }

  ghost predicate FillTalk(talk: seq<Served>, at: VolAt, key: VolKey, hasSource: bool, r: Result<VolKey, CallError>) {
    && Follows(talk, (if hasSource then [UploadTo(key)] else []) + [SeeVolume(key)], at.pool.name, r.Ok?)
    && r == if r.Ok? then Ok(key) else Err(NotSettled)
  }

  lemma MakeTalkGoesOn(making: seq<Served>, filling: seq<Served>, at: VolAt, made: Result<VolKey, CallError>,
                       hasSource: bool, r: Result<VolKey, CallError>)
    requires Making(making, at, made)
    requires if made.Ok? then FillTalk(filling, at, made.value, hasSource, r)
             else filling == [] && r == Err(CreateFailed)
    ensures MakeTalk(making + filling, at, hasSource, r)
  {
    var talk, n := making + filling, |making|;
    assert talk[..n] == making && talk[n..] == filling;
    assert MadeIn(talk, n, made, at, hasSource, r);
  }

  /** What a volume delete asks, and what comes of it: the volume and its pool are looked up with nothing
      locked, and the rest happens with the pool's name locked. */
  ghost predicate VolumeDeleteTalk(talk: seq<Served>, before: Lib, key: VolKey, r: Result<(), CallError>) {
    && talk != [] && Asked(talk[0], VolumeByKey(key), {}) && Knew(talk[0].answer, key in before.vols)
    && match talk[0].answer
       case Refused => |talk| == 1 && r == Ok(())
       case Broke => |talk| == 1 && r == Err(LookupFailed)
       case Done => VolumeFoundTalk(talk[1..], before.vols[key].pool, key, r)
  }

  ghost predicate VolumeFoundTalk(talk: seq<Served>, pool: Uuid, key: VolKey, r: Result<(), CallError>) {
    && talk != [] && Asked(talk[0], PoolOfVolume(key), {})
    && if talk[0].answer != Done || pool.name == "" then |talk| == 1 && r == Err(LookupFailed)
       else VolumeDropTalk(talk[1..], pool, key, r)
  }

  ghost predicate VolumeDropTalk(talk: seq<Served>, pool: Uuid, key: VolKey, r: Result<(), CallError>) {
    && talk != [] && Asked(talk[0], PoolTask(pool, Refresh), {pool.name})
    && if talk[0].answer != Done then |talk| == 1 && r == Err(LookupFailed)
       else VolumeRemoveTalk(talk[1..], pool, key, r)
  }

  /** A volume that turns out to be gone already counts as deleted. */
  ghost predicate VolumeRemoveTalk(talk: seq<Served>, pool: Uuid, key: VolKey, r: Result<(), CallError>) {
    && talk != [] && Asked(talk[0], DescribeVolume(key), {pool.name})
    && if talk[0].answer == Broke then |talk| == 1 && r == Err(DeleteFailed)
       else
         && |talk| > 1 && Asked(talk[1], RemoveVolume(key), {pool.name})
         && match talk[1].answer
            case Refused => |talk| == 2 && r == Ok(())
            case Broke => |talk| == 2 && r == Err(DeleteFailed)
            case Done =>
              && |talk| == 3 && Asked(talk[2], SeeNoVolume(key), {pool.name})
              && r == if talk[2].answer == Done then Ok(()) else Err(NotSettled)
  }

  // ---------------------------------------------------------------- calls

  /** No call is under way in the client that libvirt serves. */
  ghost predicate Idle(libvirt: Libvirt, kv: KV.MutexKV)
    reads kv, kv.store.Values
  {
    libvirt.client == kv && kv.Valid() && kv.Held() == {}
  }

  /** `transformed`: what the stylesheet, if there is one, makes of the definition. */
  method CreatePool(libvirt: Libvirt, kv: KV.MutexKV, poolType: string, name: string, path: string, transformed: bool)
    returns (r: Result<Uuid, CallError>, ghost steps: seq<Point>, ghost talk: seq<Served>)
    requires libvirt.Valid() && Idle(libvirt, kv)
    modifies libvirt, kv, kv.store.Values
    ensures libvirt.Valid() && Idle(libvirt, kv)
    ensures libvirt.served == old(libvirt.served) + talk
    ensures if poolType != "dir" then r == Err(WrongType) && talk == [] && libvirt.State() == old(libvirt.State())
            else PoolCreated(libvirt.acceptsDuplicates, old(libvirt.State()), libvirt.State(), name, path, r)
                 && PoolCreateTalk(talk, old(libvirt.State()), name, path, transformed, r)
    ensures IsPath(libvirt.acceptsDuplicates, steps, (old(libvirt.State()), PoolCreate(name, path != "")),
                   (libvirt.State(), if poolType == "dir" then Exit else Finished))
  {
    ghost var lib := libvirt.State();
    if poolType != "dir" {
      ghost var first := (lib, PoolCreate(name, path != ""));
      steps := PathLooks(libvirt.acceptsDuplicates, [first], first, lib, first.1, Finished);
      return Err(WrongType), steps, [];
    }
    var _ := kv.Lock(name);
    r, talk := CreatePoolLocked(libvirt, name, path, transformed);
    kv.Unlock(name);
    steps := PoolCreatePath(libvirt.acceptsDuplicates, lib, libvirt.State(), name, path, r);
  }

  method CreatePoolLocked(libvirt: Libvirt, name: string, path: string, transformed: bool)
    returns (r: Result<Uuid, CallError>, ghost talk: seq<Served>)
    requires libvirt.Valid() && libvirt.client.Held() == {name}
    modifies libvirt
    ensures libvirt.Valid()
    ensures PoolCreated(libvirt.acceptsDuplicates, old(libvirt.State()), libvirt.State(), name, path, r)
    ensures libvirt.served == old(libvirt.served) + talk
    ensures PoolCreateTalk(talk, old(libvirt.State()), name, path, transformed, r)
  {
    var found := libvirt.PoolLookupByName(name);
    talk := [libvirt.Now(PoolByName(name), AnswerOf(found))];
    if found.Ok? { return Err(AlreadyExists), talk; }
    if path == "" { return Err(MissingPath), talk; }
    if !transformed { return Err(BadConfig), talk; }
    ghost var rest;
    r, rest := DefineAndStart(libvirt, name);
    RecordGrows(old(libvirt.served), talk, rest);
    talk := talk + rest;
    assert talk[1..] == rest;
  }

  method DefineAndStart(libvirt: Libvirt, name: string) returns (r: Result<Uuid, CallError>, ghost talk: seq<Served>)
    requires libvirt.Valid() && libvirt.client.Held() == {name}
    modifies libvirt
    ensures libvirt.Valid()
    ensures r.Ok? ==> IsDefined(libvirt.acceptsDuplicates, old(libvirt.State()), libvirt.State(), name, r.value)
    ensures r == Err(NotSettled) ==>
              exists u :: IsDefined(libvirt.acceptsDuplicates, old(libvirt.State()), libvirt.State(), name, u)
    ensures r.Err? && r != Err(NotSettled) ==> r == Err(CreateFailed) && libvirt.State() == old(libvirt.State())
    ensures libvirt.served == old(libvirt.served) + talk
    ensures PoolDefineTalk(talk, name, r)
  {
    ghost var lib := libvirt.State();
    var pool := libvirt.PoolDefineXML(name);
    talk := [Served(DefinePool(name), AnswerOf(pool), lib, libvirt.client.Held())];
    if pool.Err? { return Err(CreateFailed), talk; }
    assert IsDefined(libvirt.acceptsDuplicates, lib, libvirt.State(), name, pool.value);
    var ok;
    ghost var rest;
    ok, rest := StartPool(libvirt, pool.value);
    RecordGrows(old(libvirt.served), talk, rest);
    talk := talk + rest;
    assert talk[1..] == rest;
    r := if ok then Ok(pool.value) else Err(NotSettled);
  }

  method StartPool(libvirt: Libvirt, pool: Uuid) returns (ok: bool, ghost talk: seq<Served>)
    requires libvirt.client.Held() == {pool.name}
    modifies libvirt`served
    ensures libvirt.served == old(libvirt.served) + talk
    ensures PoolStartTalk(talk, pool, ok)
  {
    ghost var rest, first := [], [PoolTask(pool, Build), PoolTask(pool, Autostart)];
    ghost var second := [PoolTask(pool, Start), PoolTask(pool, Refresh), SeePool(pool)];
    ok, talk := PreparePool(libvirt, pool);
    ghost var prepared := ok;
    if ok {
      ok, rest := ActivatePool(libvirt, pool);
    }
    FollowsOn(talk, first, prepared, rest, second, pool.name, ok);
    RecordGrows(old(libvirt.served), talk, rest);
    talk := talk + rest;
    assert first + second == [PoolTask(pool, Build), PoolTask(pool, Autostart), PoolTask(pool, Start),
                              PoolTask(pool, Refresh), SeePool(pool)];
  }

  method PreparePool(libvirt: Libvirt, pool: Uuid) returns (ok: bool, ghost talk: seq<Served>)
    requires libvirt.client.Held() == {pool.name}
    modifies libvirt`served
    ensures libvirt.served == old(libvirt.served) + talk
    ensures Follows(talk, [PoolTask(pool, Build), PoolTask(pool, Autostart)], pool.name, ok)
  {
    ok := libvirt.PoolDo(pool, Build);
    talk := [libvirt.Now(PoolTask(pool, Build), Told(ok))];
    if ok {
      ok := libvirt.PoolDo(pool, Autostart);
      talk := talk + [libvirt.Now(PoolTask(pool, Autostart), Told(ok))];
    }
  }

  method ActivatePool(libvirt: Libvirt, pool: Uuid) returns (ok: bool, ghost talk: seq<Served>)
    requires libvirt.client.Held() == {pool.name}
    modifies libvirt`served
    ensures libvirt.served == old(libvirt.served) + talk
    ensures Follows(talk, [PoolTask(pool, Start), PoolTask(pool, Refresh), SeePool(pool)], pool.name, ok)
  {
    ok := libvirt.PoolDo(pool, Start);
    talk := [libvirt.Now(PoolTask(pool, Start), Told(ok))];
    if ok {
      ok := libvirt.PoolDo(pool, Refresh);
      talk := talk + [libvirt.Now(PoolTask(pool, Refresh), Told(ok))];
    }
    if ok {
      ok := libvirt.Try(SeePool(pool));
      talk := talk + [libvirt.Now(SeePool(pool), Told(ok))];
    }
  }

  method DeletePool(libvirt: Libvirt, kv: KV.MutexKV, uuid: Uuid)
    returns (r: Result<(), CallError>, ghost steps: seq<Point>, ghost talk: seq<Served>)
    requires libvirt.Valid() && Idle(libvirt, kv)
    modifies libvirt, kv, kv.store.Values
    ensures libvirt.Valid() && Idle(libvirt, kv)
    ensures libvirt.served == old(libvirt.served) + talk
    ensures PoolDeleted(old(libvirt.State()), libvirt.State(), uuid, r)
    ensures PoolDeleteTalk(talk, old(libvirt.State()), uuid, r)
    ensures EndsAt(libvirt.acceptsDuplicates, steps, (old(libvirt.State()), PoolDelete(uuid)), libvirt.State())
  {
    ghost var lib := libvirt.State();
    var pool := libvirt.PoolLookupByUUID(uuid);
    talk := [libvirt.Now(PoolByUUID(uuid), AnswerOf(pool))];
    if pool.Err? {
      r := if pool.error.NotThere? then Ok(()) else Err(LookupFailed);
    } else {
      ghost var rest;
      r, rest := LockAndDeletePool(libvirt, kv, uuid);
      RecordGrows(old(libvirt.served), talk, rest);
      talk := talk + rest;
      assert talk[1..] == rest;
    }
    steps := PoolDeletePath(libvirt.acceptsDuplicates, lib, libvirt.State(), uuid, r);
  }

  method LockAndDeletePool(libvirt: Libvirt, kv: KV.MutexKV, pool: Uuid)
    returns (r: Result<(), CallError>, ghost talk: seq<Served>)
    requires libvirt.Valid() && Idle(libvirt, kv) && pool in libvirt.pools
    modifies libvirt, kv, kv.store.Values
    ensures libvirt.Valid() && Idle(libvirt, kv)
    ensures PoolDeleted(old(libvirt.State()), libvirt.State(), pool, r)
    ensures libvirt.served == old(libvirt.served) + talk
    ensures PoolDropTalk(talk, pool, r)
  {
    var _ := kv.Lock(pool.name);
    r, talk := DeletePoolLocked(libvirt, pool);
    kv.Unlock(pool.name);
  }

  method DeletePoolLocked(libvirt: Libvirt, pool: Uuid) returns (r: Result<(), CallError>, ghost talk: seq<Served>)
    requires libvirt.Valid() && pool in libvirt.pools && libvirt.client.Held() == {pool.name}
    modifies libvirt
    ensures libvirt.Valid()
    ensures PoolDeleted(old(libvirt.State()), libvirt.State(), pool, r)
    ensures libvirt.served == old(libvirt.served) + talk
    ensures PoolDropTalk(talk, pool, r)
  {
    var ok, active := libvirt.PoolGetState(pool);
    talk := [libvirt.Now(PoolState(pool, active), Told(ok))];
    if !ok { return Err(LookupFailed), talk; }
    ghost var rest;
    if active {
      r, rest := StopAndRemovePool(libvirt, pool);
    } else {
      r, rest := RemovePool(libvirt, pool);
    }
    RecordGrows(old(libvirt.served), talk, rest);
    talk := talk + rest;
    assert talk[1..] == rest;
  }

  method StopAndRemovePool(libvirt: Libvirt, pool: Uuid) returns (r: Result<(), CallError>, ghost talk: seq<Served>)
    requires libvirt.Valid() && pool in libvirt.pools && libvirt.client.Held() == {pool.name}
    modifies libvirt
    ensures libvirt.Valid()
    ensures PoolDeleted(old(libvirt.State()), libvirt.State(), pool, r)
    ensures libvirt.served == old(libvirt.served) + talk
    ensures PoolStopTalk(talk, pool, r)
  {
    var ok := libvirt.PoolDo(pool, Stop);
    talk := [libvirt.Now(PoolTask(pool, Stop), Told(ok))];
    if !ok { return Err(DeleteFailed), talk; }
    ghost var rest;
    r, rest := RemovePool(libvirt, pool);
    RecordGrows(old(libvirt.served), talk, rest);
    talk := talk + rest;
    assert talk[1..] == rest;
  }

  method RemovePool(libvirt: Libvirt, pool: Uuid) returns (r: Result<(), CallError>, ghost talk: seq<Served>)
    requires libvirt.Valid() && pool in libvirt.pools && libvirt.client.Held() == {pool.name}
    modifies libvirt
    ensures libvirt.Valid()
    ensures PoolDeleted(old(libvirt.State()), libvirt.State(), pool, r)
    ensures libvirt.served == old(libvirt.served) + talk
    ensures PoolRemoveTalk(talk, pool, r)
  {
    ghost var lib := libvirt.State();
    var ok := libvirt.PoolDo(pool, DeleteStorage);
    talk := [libvirt.Now(PoolTask(pool, DeleteStorage), Told(ok))];
    if ok {
      ok := libvirt.PoolUndefine(pool);
      talk := talk + [Served(UndefinePool(pool), Told(ok), lib, libvirt.client.Held())];
    }
    if !ok { return Err(DeleteFailed), talk; }
    ok := libvirt.Try(SeeNoPool(pool));
    talk := talk + [libvirt.Now(SeeNoPool(pool), Told(ok))];
    r := if ok then Ok(()) else Err(NotSettled);
  }

  /** `accepted`: what comes of the volume's settings, image, base volume and stylesheet. */
  method CreateVolume(libvirt: Libvirt, kv: KV.MutexKV, poolName: string, vol: string, accepted: bool, hasSource: bool)
    returns (r: Result<VolKey, CallError>, ghost steps: seq<Point>, ghost talk: seq<Served>)
    requires libvirt.Valid() && Idle(libvirt, kv)
    modifies libvirt, kv, kv.store.Values
    ensures libvirt.Valid() && Idle(libvirt, kv)
    ensures libvirt.served == old(libvirt.served) + talk
    ensures VolumeCreated(old(libvirt.State()), libvirt.State(), poolName, vol, r)
    ensures VolumeCreateTalk(talk, old(libvirt.State()), poolName, vol, accepted, hasSource, r)
    ensures IsPath(libvirt.acceptsDuplicates, steps, (old(libvirt.State()), VolCreate(poolName, vol)),
                   (libvirt.State(), Exit))
  {
    ghost var lib := libvirt.State();
    var _ := kv.Lock(poolName);
    r, talk := CreateVolumeLocked(libvirt, poolName, vol, accepted, hasSource);
    kv.Unlock(poolName);
    steps := VolumeCreatePath(libvirt.acceptsDuplicates, lib, libvirt.State(), poolName, vol, r);
  }

  method CreateVolumeLocked(libvirt: Libvirt, poolName: string, vol: string, accepted: bool, hasSource: bool)
    returns (r: Result<VolKey, CallError>, ghost talk: seq<Served>)
    requires libvirt.Valid() && libvirt.client.Held() == {poolName}
    modifies libvirt
    ensures libvirt.Valid()
    ensures VolumeCreated(old(libvirt.State()), libvirt.State(), poolName, vol, r)
    ensures libvirt.served == old(libvirt.served) + talk
    ensures VolumeCreateTalk(talk, old(libvirt.State()), poolName, vol, accepted, hasSource, r)
  {
    var pool := libvirt.PoolLookupByName(poolName);
    talk := [libvirt.Now(PoolByName(poolName), AnswerOf(pool))];
    if pool.Err? {
      assert VolumeMade(libvirt.State(), libvirt.State(), VolAt(Uuid(poolName, 0), vol), Err(LookupFailed));
      return Err(LookupFailed), talk;
    }
    ghost var rest;
    r, rest := CreateVolumeIn(libvirt, VolAt(pool.value, vol), accepted, hasSource);
    RecordGrows(old(libvirt.served), talk, rest);
    talk := talk + rest;
    assert talk[1..] == rest;
  }

  method CreateVolumeIn(libvirt: Libvirt, at: VolAt, accepted: bool, hasSource: bool)
    returns (r: Result<VolKey, CallError>, ghost talk: seq<Served>)
    requires libvirt.Valid() && libvirt.client.Held() == {at.pool.name} && at.pool in libvirt.pools
    modifies libvirt
    ensures libvirt.Valid()
    ensures VolumeMade(old(libvirt.State()), libvirt.State(), at, r)
    ensures libvirt.served == old(libvirt.served) + talk
    ensures VolumeTalk(talk, at, accepted, hasSource, r)
  {
    ghost var lib := libvirt.State();
    var ok := libvirt.PoolDo(at.pool, Refresh);
    assert libvirt.State() == lib && libvirt.client.Held() == {at.pool.name};
    talk := [libvirt.Now(PoolTask(at.pool, Refresh), Told(ok))];
    if ok && accepted {
      ghost var rest;
      r, rest := MakeAndFill(libvirt, at, hasSource);
      RecordGrows(old(libvirt.served), talk, rest);
      talk := talk + rest;
      assert talk[1..] == rest;
    } else {
      r := Err(if ok then BadConfig else LookupFailed);
      assert VolumeTalk(talk, at, accepted, hasSource, r);
    }
  }

  method MakeAndFill(libvirt: Libvirt, at: VolAt, hasSource: bool)
    returns (r: Result<VolKey, CallError>, ghost talk: seq<Served>)
    requires libvirt.Valid() && at.pool in libvirt.pools && libvirt.client.Held() == {at.pool.name}
    modifies libvirt
    ensures libvirt.Valid()
    ensures VolumeMade(old(libvirt.State()), libvirt.State(), at, r)
    ensures libvirt.served == old(libvirt.served) + talk
    ensures MakeTalk(talk, at, hasSource, r)
  {
    var volume;
    volume, talk := MakeOrAdopt(libvirt, at);
    ghost var filling := [];
    r := volume;
    if volume.Ok? {
      r, filling := Fill(libvirt, at, volume.value, hasSource);
    }
    MakeTalkGoesOn(talk, filling, at, volume, hasSource, r);
    RecordGrows(old(libvirt.served), talk, filling);
    talk := talk + filling;
  }

  /** Create the volume, or take the one that is in the way. */
  method MakeOrAdopt(libvirt: Libvirt, at: VolAt) returns (r: Result<VolKey, CallError>, ghost talk: seq<Served>)
    requires libvirt.Valid() && at.pool in libvirt.pools && libvirt.client.Held() == {at.pool.name}
    modifies libvirt
    ensures libvirt.Valid()
    ensures r.Ok? ==> IsThere(old(libvirt.State()), libvirt.State(), at, r.value)
    ensures r.Err? ==> r == Err(CreateFailed) && libvirt.State() == old(libvirt.State())
    ensures libvirt.served == old(libvirt.served) + talk
    ensures Making(talk, at, r)
  {
    ghost var lib := libvirt.State();
    var made := libvirt.VolCreateXML(at);
    talk := [Served(MakeVolume(at), AnswerOf(made), lib, libvirt.client.Held())];
    if made == Err(AlreadyThere) {
      made := libvirt.VolLookupByName(at);
      talk := talk + [libvirt.Now(VolumeByName(at), AnswerOf(made))];
    }
    r := if made.Ok? then Ok(made.value) else Err(CreateFailed);
  }

  /** Send the image, if there is one, and wait for the volume. */
  method Fill(libvirt: Libvirt, at: VolAt, key: VolKey, hasSource: bool)
    returns (r: Result<VolKey, CallError>, ghost talk: seq<Served>)
    requires libvirt.client.Held() == {at.pool.name}
    modifies libvirt`served
    ensures libvirt.served == old(libvirt.served) + talk
    ensures FillTalk(talk, at, key, hasSource, r)
  {
    var ok := true;
    talk := [];
    if hasSource {
      ok := libvirt.Try(UploadTo(key));
      talk := [libvirt.Now(UploadTo(key), Told(ok))];
    }
    if ok {
      ok := libvirt.Try(SeeVolume(key));
      talk := talk + [libvirt.Now(SeeVolume(key), Told(ok))];
    }
    r := if ok then Ok(key) else Err(NotSettled);
  }

  method DeleteVolume(libvirt: Libvirt, kv: KV.MutexKV, key: VolKey)
    returns (r: Result<(), CallError>, ghost steps: seq<Point>, ghost talk: seq<Served>)
    requires libvirt.Valid() && Idle(libvirt, kv)
    modifies libvirt, kv, kv.store.Values
    ensures libvirt.Valid() && Idle(libvirt, kv)
    ensures libvirt.served == old(libvirt.served) + talk
    ensures VolumeDeleted(old(libvirt.State()), libvirt.State(), key, r)
    ensures VolumeDeleteTalk(talk, old(libvirt.State()), key, r)
    ensures EndsAt(libvirt.acceptsDuplicates, steps, (old(libvirt.State()), VolDelete(key)), libvirt.State())
  {
    ghost var lib := libvirt.State();
    var volume := libvirt.VolLookupByKey(key);
    talk := [libvirt.Now(VolumeByKey(key), AnswerOf(volume))];
    if volume.Err? {
      r := if volume.error.NotThere? then Ok(()) else Err(LookupFailed);
    } else {
      ghost var rest;
      r, rest := DeleteFoundVolume(libvirt, kv, key);
      RecordGrows(old(libvirt.served), talk, rest);
      talk := talk + rest;
      assert talk[1..] == rest;
    }
    steps := VolumeDeletePath(libvirt.acceptsDuplicates, lib, libvirt.State(), key, r);
  }

  method DeleteFoundVolume(libvirt: Libvirt, kv: KV.MutexKV, key: VolKey)
    returns (r: Result<(), CallError>, ghost talk: seq<Served>)
    requires libvirt.Valid() && Idle(libvirt, kv) && key in libvirt.vols
    modifies libvirt, kv, kv.store.Values
    ensures libvirt.Valid() && Idle(libvirt, kv)
    ensures VolumeDeleted(old(libvirt.State()), libvirt.State(), key, r)
    ensures libvirt.served == old(libvirt.served) + talk
    ensures VolumeFoundTalk(talk, old(libvirt.vols)[key].pool, key, r)
  {
    var pool := libvirt.PoolLookupByVolume(key);
    talk := [libvirt.Now(PoolOfVolume(key), AnswerOf(pool))];
    if pool.Err? || pool.value.name == "" { return Err(LookupFailed), talk; }
    ghost var rest;
    r, rest := LockAndDeleteVolume(libvirt, kv, key, pool.value);
    RecordGrows(old(libvirt.served), talk, rest);
    talk := talk + rest;
    assert talk[1..] == rest;
  }

  method LockAndDeleteVolume(libvirt: Libvirt, kv: KV.MutexKV, key: VolKey, pool: Uuid)
    returns (r: Result<(), CallError>, ghost talk: seq<Served>)
    requires libvirt.Valid() && Idle(libvirt, kv) && key in libvirt.vols
    modifies libvirt, kv, kv.store.Values
    ensures libvirt.Valid() && Idle(libvirt, kv)
    ensures VolumeDeleted(old(libvirt.State()), libvirt.State(), key, r)
    ensures libvirt.served == old(libvirt.served) + talk
    ensures VolumeDropTalk(talk, pool, key, r)
  {
    var _ := kv.Lock(pool.name);
    r, talk := DeleteVolumeLocked(libvirt, key, pool);
    kv.Unlock(pool.name);
  }

  method DeleteVolumeLocked(libvirt: Libvirt, key: VolKey, pool: Uuid)
    returns (r: Result<(), CallError>, ghost talk: seq<Served>)
    requires libvirt.Valid() && key in libvirt.vols && libvirt.client.Held() == {pool.name}
    modifies libvirt
    ensures libvirt.Valid()
    ensures VolumeDeleted(old(libvirt.State()), libvirt.State(), key, r)
    ensures libvirt.served == old(libvirt.served) + talk
    ensures VolumeDropTalk(talk, pool, key, r)
  {
    var ok := libvirt.PoolDo(pool, Refresh);
    talk := [libvirt.Now(PoolTask(pool, Refresh), Told(ok))];
    if !ok { return Err(LookupFailed), talk; }
    ghost var rest;
    r, rest := RemoveVolumeOf(libvirt, key, pool);
    RecordGrows(old(libvirt.served), talk, rest);
    talk := talk + rest;
    assert talk[1..] == rest;
  }

  method RemoveVolumeOf(libvirt: Libvirt, key: VolKey, pool: Uuid)
    returns (r: Result<(), CallError>, ghost talk: seq<Served>)
    requires libvirt.Valid() && key in libvirt.vols && libvirt.client.Held() == {pool.name}
    modifies libvirt
    ensures libvirt.Valid()
    ensures VolumeDeleted(old(libvirt.State()), libvirt.State(), key, r)
    ensures libvirt.served == old(libvirt.served) + talk
    ensures VolumeRemoveTalk(talk, pool, key, r)
  {
    ghost var lib := libvirt.State();
    var described := libvirt.VolGetXMLDesc(key);
    talk := [libvirt.Now(DescribeVolume(key), described)];
    if described == Broke { return Err(DeleteFailed), talk; }
    var gone := libvirt.VolDelete(key);
    talk := talk + [Served(RemoveVolume(key), AnswerOf(gone), lib, libvirt.client.Held())];
    if gone.Err? { return if gone.error.NotThere? then Ok(()) else Err(DeleteFailed), talk; }
    var ok := libvirt.Try(SeeNoVolume(key));
    talk := talk + [libvirt.Now(SeeNoVolume(key), Told(ok))];
    r := if ok then Ok(()) else Err(NotSettled);
  }
}
