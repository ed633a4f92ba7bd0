/** The part of libvirt the pool and volume clients call. Any call may fail; a failed call changes nothing.
    A record is kept of what was asked, what libvirt had at that moment, and what its client had locked. */
module LibvirtTables {
  import opened Wrappers
  import opened MutexStore
  import opened PoolHistory

  datatype RpcError = NotThere | AlreadyThere | Failed

  datatype Task = Build | Autostart | Start | Refresh | Stop | DeleteStorage

  datatype Request =
    | PoolByName(name: string)
    | PoolByUUID(uuid: Uuid)
    | PoolOfVolume(key: VolKey)
    | PoolState(pool: Uuid, active: bool)   // and the state that was told
    | PoolTask(pool: Uuid, task: Task)
    | DefinePool(name: string)
    | UndefinePool(pool: Uuid)
    | VolumeByKey(key: VolKey)
    | VolumeByName(at: VolAt)
    | DescribeVolume(key: VolKey)
    | MakeVolume(at: VolAt)
    | UploadTo(key: VolKey)
    | RemoveVolume(key: VolKey)
    | SeePool(pool: Uuid)                   // asked again and again until so, or until time is up
    | SeeNoPool(pool: Uuid)
    | SeeVolume(key: VolKey)
    | SeeNoVolume(key: VolKey)

  /** `Refused`: for what is there or is not; `Broke`: for any other reason. */
  datatype Answer = Done | Refused | Broke

  datatype Served = Served(request: Request, answer: Answer, lib: Lib, held: set<Key>)

  function AnswerOf<T>(r: Result<T, RpcError>): Answer {
    if r.Ok? then Done else if r.error.Failed? then Broke else Refused
  }

  function Told(ok: bool): Answer {
    if ok then Done else Broke
  }

  class Libvirt {
    var pools: set<Uuid>
    var vols: map<VolKey, VolAt>
    var nextId: nat
    ghost var served: seq<Served>
    /** Whether a second pool of one name is accepted. */
    const acceptsDuplicates: bool
    /** The mutexes of the client that is served. */
    ghost const client: MutexKV

    ghost function State(): Lib
      reads `pools, `vols
    {
      Lib(pools, vols)
    }

    ghost predicate Valid()
      reads `pools, `vols, `nextId
    {
      SoundVolumes(State()) && forall u :: u in pools ==> u.id < nextId
    }

    ghost function Now(request: Request, answer: Answer): Served
      reads `pools, `vols, client, client.store.Values
    {
      Served(request, answer, State(), client.Held())
    }

    constructor (acceptsDuplicates: bool, ghost client: MutexKV)
      ensures Valid() && State() == Lib({}, map[]) && served == []
      ensures this.acceptsDuplicates == acceptsDuplicates && this.client == client
    {
      pools, vols, nextId, served := {}, map[], 0, [];
      this.acceptsDuplicates := acceptsDuplicates;
      this.client := client;
    }

    method PoolLookupByName(name: string) returns (r: Result<Uuid, RpcError>)
      modifies `served
      ensures served == old(served) + [Now(PoolByName(name), AnswerOf(r))]
      ensures r.Ok? ==> r.value in pools && r.value.name == name
      ensures r == Err(NotThere) ==> !HasPool(State(), name)
      ensures r != Err(AlreadyThere)
    {
      if * {
        r := Err(Failed);
      } else if u :| u in pools && u.name == name {
        r := Ok(u);
      } else {
        r := Err(NotThere);
      }
      served := served + [Now(PoolByName(name), AnswerOf(r))];
    }

    method PoolLookupByUUID(uuid: Uuid) returns (r: Result<Uuid, RpcError>)
      modifies `served
      ensures served == old(served) + [Now(PoolByUUID(uuid), AnswerOf(r))]
      ensures r == (if uuid in pools then Ok(uuid) else Err(NotThere)) || r == Err(Failed)
    {
      if * {
        r := Err(Failed);
      } else {
        r := if uuid in pools then Ok(uuid) else Err(NotThere);
      }
      served := served + [Now(PoolByUUID(uuid), AnswerOf(r))];
    }

    method PoolGetState(pool: Uuid) returns (ok: bool, active: bool)
      modifies `served
      ensures served == old(served) + [Now(PoolState(pool, active), Told(ok))]
      ensures ok ==> pool in pools
    {
      ok, active := *, *;
      ok := ok && pool in pools;
      served := served + [Now(PoolState(pool, active), Told(ok))];
    }

    /** Telling a pool to build, start, stop or refresh. */
    method PoolDo(pool: Uuid, task: Task) returns (ok: bool)
      modifies `served
      ensures served == old(served) + [Now(PoolTask(pool, task), Told(ok))]
      ensures ok ==> pool in pools
    {
      ok := *;
      ok := ok && pool in pools;
      served := served + [Now(PoolTask(pool, task), Told(ok))];
    }

    method PoolDefineXML(name: string) returns (r: Result<Uuid, RpcError>)
      requires Valid()
      modifies this
      ensures Valid() && served == old(served) + [Served(DefinePool(name), AnswerOf(r), old(State()), client.Held())]
      ensures r.Ok? ==> r.value.name == name && r.value !in old(pools)
      ensures r.Ok? ==> State() == Effect(old(State()), Defined(r.value))
      ensures r.Ok? ==> acceptsDuplicates || !old(HasPool(State(), name))
      ensures r.Err? ==> State() == old(State())
    {
      if * {
        r := Err(Failed);
      } else if !acceptsDuplicates && exists u :: u in pools && u.name == name {
        r := Err(AlreadyThere);
      } else {
        r := Ok(Uuid(name, nextId));
      }
      served := served + [Now(DefinePool(name), AnswerOf(r))];
      if r.Ok? {
        pools, nextId := pools + {r.value}, nextId + 1;
      }
    }

    method PoolUndefine(pool: Uuid) returns (ok: bool)
      requires Valid()
      modifies this
      ensures Valid() && served == old(served) + [Served(UndefinePool(pool), Told(ok), old(State()), client.Held())]
      ensures ok ==> pool in old(pools) && State() == Effect(old(State()), Undefined(pool))
      ensures !ok ==> State() == old(State())
    {
      ok := *;
      ok := ok && pool in pools;
      served := served + [Now(UndefinePool(pool), Told(ok))];
      if ok {
        pools, vols := pools - {pool}, map k | k in vols && vols[k].pool != pool :: vols[k];
      }
    }

    method VolLookupByName(at: VolAt) returns (r: Result<VolKey, RpcError>)
      modifies `served
      ensures served == old(served) + [Now(VolumeByName(at), AnswerOf(r))]
      ensures r.Ok? ==> r.value in vols && vols[r.value] == at
      ensures r == Err(NotThere) ==> !HasVolume(State(), at)
      ensures r != Err(AlreadyThere)
    {
      if * {
        r := Err(Failed);
      } else if k :| k in vols && vols[k] == at {
        r := Ok(k);
      } else {
        r := Err(NotThere);
      }
      served := served + [Now(VolumeByName(at), AnswerOf(r))];
    }

    method VolLookupByKey(key: VolKey) returns (r: Result<VolKey, RpcError>)
      modifies `served
      ensures served == old(served) + [Now(VolumeByKey(key), AnswerOf(r))]
      ensures r == (if key in vols then Ok(key) else Err(NotThere)) || r == Err(Failed)
    {
      if * {
        r := Err(Failed);
      } else {
        r := if key in vols then Ok(key) else Err(NotThere);
      }
      served := served + [Now(VolumeByKey(key), AnswerOf(r))];
    }

    method PoolLookupByVolume(key: VolKey) returns (r: Result<Uuid, RpcError>)
      modifies `served
      ensures served == old(served) + [Now(PoolOfVolume(key), AnswerOf(r))]
      ensures r == (if key in vols then Ok(vols[key].pool) else Err(NotThere)) || r == Err(Failed)
    {
      if * {
        r := Err(Failed);
      } else {
        r := if key in vols then Ok(vols[key].pool) else Err(NotThere);
      }
      served := served + [Now(PoolOfVolume(key), AnswerOf(r))];
    }

    method VolGetXMLDesc(key: VolKey) returns (answer: Answer)
      modifies `served
      ensures served == old(served) + [Now(DescribeVolume(key), answer)]
      ensures answer == (if key in vols then Done else Refused) || answer == Broke
    {
      if * {
        answer := Broke;
      } else {
        answer := if key in vols then Done else Refused;
      }
      served := served + [Now(DescribeVolume(key), answer)];
    }

    /** libvirt picks the key. */
    method VolCreateXML(at: VolAt) returns (r: Result<VolKey, RpcError>)
      requires Valid()
      modifies this
      ensures Valid() && served == old(served) + [Served(MakeVolume(at), AnswerOf(r), old(State()), client.Held())]
      ensures r.Ok? ==> at.pool in old(pools) && r.value !in old(vols) && r.value.pool == at.pool.name
      ensures r.Ok? ==> !old(HasVolume(State(), at)) && State() == Effect(old(State()), Made(r.value, at))
      ensures r.Err? ==> State() == old(State())
      ensures r == Err(AlreadyThere) ==> HasVolume(State(), at)
      ensures r != Err(NotThere)
    {
      var path: string, fails: bool := *, *;
      var key := VolKey(at.pool.name, path);
      if k :| k in vols && vols[k] == at {
        r := Err(AlreadyThere);
      } else if key in vols || at.pool !in pools || fails {
        r := Err(Failed);
      } else {
        r := Ok(key);
      }
      served := served + [Now(MakeVolume(at), AnswerOf(r))];
      if r.Ok? {
        vols := vols[key := at];
      }
    }

    method VolDelete(key: VolKey) returns (r: Result<VolKey, RpcError>)
      requires Valid()
      modifies this
      ensures Valid() && served == old(served) + [Served(RemoveVolume(key), AnswerOf(r), old(State()), client.Held())]
      ensures r.Ok? ==> key in old(vols) && State() == Effect(old(State()), Gone(key))
      ensures r.Err? ==> State() == old(State())
      ensures r == Err(NotThere) ==> key !in vols
      ensures r != Err(AlreadyThere)
    {
      if * {
        r := Err(Failed);
      } else if key in vols {
        r := Ok(key);
      } else {
        r := Err(NotThere);
      }
      served := served + [Now(RemoveVolume(key), AnswerOf(r))];
      if r.Ok? {
        vols := vols - {key};
      }
    }

    /** Sending an image, or waiting until something is seen: it may fail or time out. */
    method Try(request: Request) returns (ok: bool)
      modifies `served
      ensures served == old(served) + [Now(request, Told(ok))]
    {
      ok := *;
      served := served + [Now(request, Told(ok))];
    }
  }
}
