/** The keyed mutex store under any number of threads, step by step. A mutex has no owner: it is locked or
    not. A thread in a call of Lock or Unlock takes the store's own mutex, looks the key up, lets go of the
    store again and only then touches the key's mutex. */
module LockProtocol {
  import opened MutexStore

  /** Identity of a mutex. */
  type MutexId = nat

  /** A call in progress. What Lock took is kept beside the call of Unlock that follows it, to compare. */
  datatype Call = Locking | Unlocking(taken: MutexId)

  datatype Pc =
    | Outside
    | AtTable(call: Call, key: Key)                   // about to take the store's mutex
    | InTable(call: Call, key: Key)                   // about to look the key up
    | Leaving(call: Call, key: Key, found: MutexId)   // about to let go of the store
    | AtMutex(call: Call, key: Key, found: MutexId)   // about to lock or unlock the key's mutex
    | Inside(key: Key, taken: MutexId)                // between Lock and Unlock
    | Crashed                                         // unlocked a mutex that was not locked

  datatype Table = Table(lock: bool, store: map<Key, MutexId>, locked: set<MutexId>, pcs: seq<Pc>)

  datatype Move = Start(key: Key) | Take | Lookup(unused: MutexId) | Leave | Acquire | Return | Release

  predicate Enabled(tb: Table, t: nat, move: Move) {
    && t < |tb.pcs|
    && match move
       case Start(key) => tb.pcs[t].Outside?
       case Take => tb.pcs[t].AtTable? && !tb.lock
       case Lookup(unused) => tb.pcs[t].InTable? && unused !in tb.store.Values && unused !in tb.locked
       case Leave => tb.pcs[t].Leaving?
       case Acquire => tb.pcs[t].AtMutex? && tb.pcs[t].call.Locking? && tb.pcs[t].found !in tb.locked
       case Return => tb.pcs[t].Inside?
       case Release => tb.pcs[t].AtMutex? && tb.pcs[t].call.Unlocking?
  }

  function Do(tb: Table, t: nat, move: Move): Table
    requires Enabled(tb, t, move)
  {
    var pc := tb.pcs[t];
    match move
    case Start(key) => tb.(pcs := tb.pcs[t := AtTable(Locking, key)])
    case Take => tb.(lock := true, pcs := tb.pcs[t := InTable(pc.call, pc.key)])
    case Lookup(unused) =>
      var store := Bind(tb.store, pc.key, unused);
      tb.(store := store, pcs := tb.pcs[t := Leaving(pc.call, pc.key, store[pc.key])])
    case Leave => tb.(lock := false, pcs := tb.pcs[t := AtMutex(pc.call, pc.key, pc.found)])
    case Acquire => tb.(locked := tb.locked + {pc.found}, pcs := tb.pcs[t := Inside(pc.key, pc.found)])
    case Return => tb.(pcs := tb.pcs[t := AtTable(Unlocking(pc.taken), pc.key)])
    case Release =>
      if pc.found in tb.locked then tb.(locked := tb.locked - {pc.found}, pcs := tb.pcs[t := Outside])
      else tb.(pcs := tb.pcs[t := Crashed])
  }

  // ---------------------------------------------------------------- invariant

  predicate InStore(pc: Pc) {
    pc.InTable? || pc.Leaving?
  }

  /** The thread is past Acquire and not yet past Release. */
  predicate Holds(pc: Pc) {
    pc.Inside? || ((pc.AtTable? || pc.InTable? || pc.Leaving? || pc.AtMutex?) && pc.call.Unlocking?)
  }

  function Held(pc: Pc): MutexId
    requires Holds(pc)
  {
    if pc.Inside? then pc.taken else pc.call.taken
  }

  /** What a thread knows about the store. */
  predicate Consistent(tb: Table, pc: Pc) {
    && !pc.Crashed?
    && (pc.Leaving? || pc.AtMutex? ==> pc.key in tb.store && tb.store[pc.key] == pc.found)
    && (Holds(pc) ==> pc.key in tb.store && tb.store[pc.key] == Held(pc) && Held(pc) in tb.locked)
  }

  ghost predicate HolderOf(tb: Table, m: MutexId, t: nat) {
    t < |tb.pcs| && Holds(tb.pcs[t]) && Held(tb.pcs[t]) == m
  }

  ghost predicate HasStore(tb: Table, t: nat) {
    t < |tb.pcs| && InStore(tb.pcs[t])
  }

  ghost predicate Inv(tb: Table) {
    && (forall k, l :: k in tb.store && l in tb.store && tb.store[k] == tb.store[l] ==> k == l)
    && (forall t: nat :: t < |tb.pcs| ==> Consistent(tb, tb.pcs[t]))
    && (forall t: nat, u: nat :: HasStore(tb, t) && HasStore(tb, u) ==> t == u)
    && (tb.lock <==> exists t: nat :: HasStore(tb, t))
    && (forall m, t: nat, u: nat :: HolderOf(tb, m, t) && HolderOf(tb, m, u) ==> t == u)
    && (forall m :: m in tb.locked ==> exists t: nat :: HolderOf(tb, m, t))
  }

  predicate Init(tb: Table) {
    !tb.lock && tb.store == map[] && tb.locked == {} && forall t :: 0 <= t < |tb.pcs| ==> tb.pcs[t] == Outside
  }

  lemma InitHasInv(tb: Table)
    requires Init(tb)
    ensures Inv(tb)
  {
  }

  /** Only the moving thread's place changes. */
  lemma OthersStay(tb: Table, t: nat, move: Move)
    requires Enabled(tb, t, move)
    ensures |Do(tb, t, move).pcs| == |tb.pcs|
    ensures forall u: nat :: u < |tb.pcs| && u != t ==> Do(tb, t, move).pcs[u] == tb.pcs[u]
    ensures forall k :: k in tb.store ==> k in Do(tb, t, move).store && Do(tb, t, move).store[k] == tb.store[k]
  {
  }

  lemma StoreMovesKeepInv(tb: Table, t: nat, move: Move)
    requires Inv(tb) && Enabled(tb, t, move)
    requires move.Start? || move.Take? || move.Leave? || move.Return?
    ensures Inv(Do(tb, t, move))
  {
    var tb' := Do(tb, t, move);
    OthersStay(tb, t, move);
    forall u: nat ensures u != t ==> (HasStore(tb', u) <==> HasStore(tb, u)) { }
    forall m, u: nat ensures HolderOf(tb', m, u) <==> HolderOf(tb, m, u) { }
    if move.Take? { assert HasStore(tb', t); }
    if move.Leave? { assert HasStore(tb, t); }
    assert move.Start? || move.Return? ==> (forall u: nat :: HasStore(tb', u) <==> HasStore(tb, u));
  }

  lemma LookupKeepsInv(tb: Table, t: nat, move: Move)
    requires Inv(tb) && Enabled(tb, t, move) && move.Lookup?
    ensures Inv(Do(tb, t, move))
  {
    var tb' := Do(tb, t, move);
    OthersStay(tb, t, move);
    forall u: nat ensures HasStore(tb', u) <==> HasStore(tb, u) { }
    forall m, u: nat ensures HolderOf(tb', m, u) <==> HolderOf(tb, m, u) { }
  }

  lemma AcquireKeepsInv(tb: Table, t: nat)
    requires Inv(tb) && Enabled(tb, t, Acquire)
    ensures Inv(Do(tb, t, Acquire))
  {
    var tb', found := Do(tb, t, Acquire), tb.pcs[t].found;
    OthersStay(tb, t, Acquire);
    forall u: nat ensures HasStore(tb', u) <==> HasStore(tb, u) { }
    forall m, u: nat ensures HolderOf(tb', m, u) <==> HolderOf(tb, m, u) || (m == found && u == t) { }
    assert HolderOf(tb', found, t);
    assert forall u: nat :: !HolderOf(tb, found, u);
  }

  /** Unlock finds the mutex its Lock took, and finds it locked. */
  lemma ReleaseFindsItsMutex(tb: Table, t: nat)
    requires Inv(tb) && Enabled(tb, t, Release)
    ensures tb.pcs[t].found == tb.pcs[t].call.taken
    ensures tb.pcs[t].found in tb.locked
    ensures Do(tb, t, Release).locked == tb.locked - {tb.pcs[t].call.taken}
  {
    assert Consistent(tb, tb.pcs[t]);
  }

  lemma ReleaseKeepsInv(tb: Table, t: nat)
    requires Inv(tb) && Enabled(tb, t, Release)
    ensures Inv(Do(tb, t, Release))
  {
    var tb', taken := Do(tb, t, Release), tb.pcs[t].call.taken;
    OthersStay(tb, t, Release);
    ReleaseFindsItsMutex(tb, t);
    assert HolderOf(tb, taken, t);
    forall u: nat ensures HasStore(tb', u) <==> HasStore(tb, u) { }
    forall m, u: nat ensures HolderOf(tb', m, u) <==> HolderOf(tb, m, u) && m != taken {
      if HolderOf(tb, m, u) && m == taken { assert u == t; }
    }
    forall u: nat | u < |tb.pcs| && u != t && Holds(tb.pcs[u]) ensures Held(tb.pcs[u]) != taken {
      assert HolderOf(tb, Held(tb.pcs[u]), u);
    }
  }

  lemma StepKeepsInv(tb: Table, t: nat, move: Move)
    requires Inv(tb) && Enabled(tb, t, move)
    ensures Inv(Do(tb, t, move))
  {
    match move
    case Lookup(unused) => LookupKeepsInv(tb, t, move);
    case Acquire => AcquireKeepsInv(tb, t);
    case Release => ReleaseKeepsInv(tb, t);
    case _ => StoreMovesKeepInv(tb, t, move);
  }

  // ---------------------------------------------------------------- runs

  /** A run: any interleaving of moves. */
  ghost predicate IsRun(run: seq<Table>) {
    && run != [] && Init(run[0])
    && forall i :: 0 <= i < |run| - 1 ==> FollowsAt(run, i)
  }

  ghost predicate FollowsAt(run: seq<Table>, i: int)
    requires 0 <= i < |run| - 1
  {
    Follows(run[i], run[i + 1])
  }

  ghost predicate Follows(tb: Table, tb': Table) {
    exists t: nat, move :: Enabled(tb, t, move) && tb' == Do(tb, t, move)
  }

  lemma {:induction false} RunHasInv(run: seq<Table>, i: nat)
    requires IsRun(run) && i < |run|
    ensures Inv(run[i])
  {
    if i == 0 {
      InitHasInv(run[0]);
    } else {
      RunHasInv(run, i - 1);
      assert FollowsAt(run, i - 1);
      var t: nat, move :| Enabled(run[i - 1], t, move) && run[i] == Do(run[i - 1], t, move);
      StepKeepsInv(run[i - 1], t, move);
    }
  }

  /** At no time do two threads hold the same key, and no Unlock ever meets an unlocked mutex. */
  lemma MutualExclusion(run: seq<Table>, i: nat, t: nat, u: nat)
    requires IsRun(run) && i < |run| && t < |run[i].pcs| && u < |run[i].pcs|
    ensures !run[i].pcs[t].Crashed?
    ensures Holds(run[i].pcs[t]) && Holds(run[i].pcs[u]) && run[i].pcs[t].key == run[i].pcs[u].key ==> t == u
  {
    RunHasInv(run, i);
    var tb := run[i];
    assert Consistent(tb, tb.pcs[t]) && Consistent(tb, tb.pcs[u]);
    if Holds(tb.pcs[t]) && Holds(tb.pcs[u]) && tb.pcs[t].key == tb.pcs[u].key {
      assert HolderOf(tb, Held(tb.pcs[t]), t) && HolderOf(tb, Held(tb.pcs[t]), u);
    }
  }

  /** A key is never bound to another mutex, and no other key to its mutex. */
  lemma {:induction false} BindingsAreForever(run: seq<Table>, i: nat, j: nat, k: Key, l: Key)
    requires IsRun(run) && i <= j < |run|
    requires k in run[i].store
    ensures k in run[j].store && run[j].store[k] == run[i].store[k]
    ensures l in run[j].store && run[j].store[l] == run[i].store[k] ==> l == k
    decreases j
  {
    RunHasInv(run, j);
    if i < j {
      BindingsAreForever(run, i, j - 1, k, k);
      assert FollowsAt(run, j - 1);
      var t: nat, move :| Enabled(run[j - 1], t, move) && run[j] == Do(run[j - 1], t, move);
      OthersStay(run[j - 1], t, move);
    }
  }

  /** The store's own mutex is never waited for in vain: its holder can move. */
  lemma StoreHolderCanMove(tb: Table)
    requires Inv(tb) && tb.lock
    ensures exists t: nat, move :: HasStore(tb, t) && Enabled(tb, t, move)
  {
    var t: nat :| HasStore(tb, t);
    if tb.pcs[t].Leaving? {
      assert Enabled(tb, t, Leave);
    } else {
      var unused := UnusedNumber(tb.store.Values + tb.locked);
      assert Enabled(tb, t, Lookup(unused));
    }
  }

  /** There is always another mutex to allocate. */
  lemma {:induction false} UnusedNumber(used: set<MutexId>) returns (unused: MutexId)
    ensures unused !in used
    ensures forall m :: m in used ==> m < unused
    decreases used
  {
    if used == {} {
      unused := 0;
    } else {
      var m :| m in used;
      var above := UnusedNumber(used - {m});
      unused := if m < above then above else m + 1;
      assert forall n :: n in used ==> n == m || n in used - {m};
    }
  }
}
