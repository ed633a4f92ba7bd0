/** The keyed mutex store, one call at a time. LockProtocol takes the same calls apart into the steps that
    other threads can come between. */
module MutexStore {
  type Key = string

  /** Looking a key up binds it if it is new and changes nothing otherwise. */
  function Bind<M>(store: map<Key, M>, key: Key, unused: M): map<Key, M> {
    if key in store then store else store[key := unused]
  }

  class Mutex {
    var locked: bool

    constructor ()
      ensures !locked
    {
      locked := false;
    }
  }

  class MutexKV {
    /** Whether the mutex guarding the store is taken. */
    var lock: bool
    var store: map<Key, Mutex>

    /** Between calls the store is free, and no two keys share a mutex. */
    ghost predicate Valid()
      reads this
    {
      !lock && forall k, l :: k in store && l in store && store[k] == store[l] ==> k == l
    }

    /** The keys whose mutexes are taken. */
    ghost function Held(): set<Key>
      reads this, store.Values
    {
      set k | k in store && store[k].locked
    }

    constructor ()
      ensures Valid() && store == map[]
    {
      lock, store := false, map[];
    }

    method Get(key: Key) returns (mutex: Mutex)
      requires Valid()
      modifies this
      ensures Valid()
      ensures store == Bind(old(store), key, mutex) && store[key] == mutex
      ensures key !in old(store) ==> fresh(mutex) && !mutex.locked
    {
      lock := true;
      if key in store {
        mutex := store[key];
      } else {
        mutex := new Mutex();
        store := store[key := mutex];
      }
      lock := false;
    }

    /** `blocked`: the mutex is taken, and the caller is left waiting for it. */
    method Lock(key: Key) returns (blocked: bool)
      requires Valid()
      modifies this, if key in store then {store[key]} else {}
      ensures Valid()
      ensures key in store && store == Bind(old(store), key, store[key])
      ensures key !in old(store) ==> fresh(store[key])
      ensures blocked <==> key in old(store) && old(store[key].locked)
      ensures store[key].locked && Held() == old(Held()) + {key}
    {
      var mutex := Get(key);
      blocked := mutex.locked;
      mutex.locked := true;
    }

    /** The caller has locked the same key before. */
    method Unlock(key: Key)
      requires Valid()
      requires key in store && store[key].locked
      modifies this, store[key]
      ensures Valid() && store == old(store)
      ensures !store[key].locked && Held() == old(Held()) - {key}
    {
      var mutex := Get(key);
      mutex.locked := false;
    }
  }

  /** Locking a free key and unlocking it leaves every other key's mutex as it was, and the key free. */
  method LockThenUnlock(m: MutexKV, key: Key, other: Key)
    requires m.Valid()
    requires key in m.store ==> !m.store[key].locked
    requires other in m.store && other != key
    modifies m, m.store.Values
    ensures m.Valid() && key in m.store && !m.store[key].locked
    ensures other in m.store && m.store[other] == old(m.store[other])
    ensures m.store[other].locked == old(m.store[other].locked)
  {
    var blocked := m.Lock(key);
    assert !blocked && m.store[other] != m.store[key];
    m.Unlock(key);
  }
}
