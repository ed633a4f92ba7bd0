/** Pools and volumes as libvirt keeps them, and the histories of effective calls on them. */
module PoolHistory {
  import opened Wrappers

  /** Identity of a defined pool; a pool never changes its name. */
  datatype Uuid = Uuid(name: string, id: nat)

  /** A volume key; keys of pools with different names never coincide. A key may come back after a delete. */
  datatype VolKey = VolKey(pool: string, path: string)

  datatype VolAt = VolAt(pool: Uuid, name: string)

  datatype Lib = Lib(pools: set<Uuid>, vols: map<VolKey, VolAt>)

  /** The calls that took effect, and the volumes found in place of new ones. */
  datatype Event =
    | Defined(pool: Uuid)
    | Undefined(pool: Uuid)
    | Made(key: VolKey, at: VolAt)
    | Adopted(key: VolKey, at: VolAt)
    | Gone(key: VolKey)

  ghost predicate HasPool(lib: Lib, name: string) {
    exists u :: u in lib.pools && u.name == name
  }

  ghost predicate HasVolume(lib: Lib, at: VolAt) {
    exists k :: k in lib.vols && lib.vols[k] == at
  }

  /** What libvirt lets happen: new identities, volumes made where there is none, and nothing done to what
      is not there. */
  ghost predicate Possible(lib: Lib, e: Event) {
    match e
    case Defined(u) => u !in lib.pools
    case Undefined(u) => u in lib.pools
    case Made(k, at) => at.pool in lib.pools && k !in lib.vols && k.pool == at.pool.name && !HasVolume(lib, at)
    case Adopted(k, at) => at.pool in lib.pools && k in lib.vols && lib.vols[k] == at
    case Gone(k) => k in lib.vols
  }

  /** A pool defined under a name that is taken. */
  ghost predicate Doubles(lib: Lib, e: Event) {
    e.Defined? && HasPool(lib, e.pool.name)
  }

  /** The calls of a careful sequential client: it defines free names only. */
  ghost predicate Legal(lib: Lib, e: Event) {
    Possible(lib, e) && !Doubles(lib, e)
  }

  /** Undefining a pool takes its volumes with it. */
  function Effect(lib: Lib, e: Event): Lib {
    match e
    case Defined(u) => lib.(pools := lib.pools + {u})
    case Undefined(u) => Lib(lib.pools - {u}, map k | k in lib.vols && lib.vols[k].pool != u :: lib.vols[k])
    case Made(k, at) => lib.(vols := lib.vols[k := at])
    case Adopted(k, at) => lib
    case Gone(k) => lib.(vols := lib.vols - {k})
  }

  /** The tables after a history, legal or not. */
  function Outcome(lib: Lib, log: seq<Event>): Lib {
    if log == [] then lib else Effect(Outcome(lib, log[..|log| - 1]), log[|log| - 1])
  }

  /** Every event was possible when it happened. */
  ghost predicate Happened(lib: Lib, log: seq<Event>) {
    forall i :: 0 <= i < |log| ==> Possible(Outcome(lib, log[..i]), log[i])
  }

  /** The names under which a pool was defined while another had them. */
  ghost function Doubled(lib: Lib, log: seq<Event>): set<string> {
    if log == [] then {}
    else
      var front, last := log[..|log| - 1], log[|log| - 1];
      Doubled(lib, front) + if Doubles(Outcome(lib, front), last) then {last.pool.name} else {}
  }

  /** The state after a history, if every event of it was legal when it happened. */
  ghost function Replay(lib: Lib, log: seq<Event>): Option<Lib> {
    if log == [] then Some(lib)
    else
      match Replay(lib, log[..|log| - 1])
      case None => None
      case Some(before) => if Legal(before, log[|log| - 1]) then Some(Effect(before, log[|log| - 1])) else None
  }

  ghost predicate UniqueNames(lib: Lib) {
    forall u, v :: u in lib.pools && v in lib.pools && u.name == v.name ==> u == v
  }

  /** Volumes live in defined pools, under keys of those pools, one per pool and name. */
  ghost predicate SoundVolumes(lib: Lib) {
    && (forall k :: k in lib.vols ==> lib.vols[k].pool in lib.pools && k.pool == lib.vols[k].pool.name)
    && (forall k, l :: k in lib.vols && l in lib.vols && lib.vols[k] == lib.vols[l] ==> k == l)
  }

  ghost predicate Sound(lib: Lib) {
    UniqueNames(lib) && SoundVolumes(lib)
  }

  lemma PossibleKeepsVolumesSound(lib: Lib, e: Event)
    requires SoundVolumes(lib) && Possible(lib, e)
    ensures SoundVolumes(Effect(lib, e))
  {
  }

  // ---------------------------------------------------------------- histories, event by event

  lemma OneMore(lib: Lib, log: seq<Event>, e: Event)
    ensures Outcome(lib, log + [e]) == Effect(Outcome(lib, log), e)
    ensures Doubled(lib, log + [e]) == Doubled(lib, log) + if Doubles(Outcome(lib, log), e) then {e.pool.name} else {}
  {
    assert (log + [e])[..|log + [e]| - 1] == log;
  }

  lemma HappenedOneMore(lib: Lib, log: seq<Event>, e: Event)
    requires Happened(lib, log) && Possible(Outcome(lib, log), e)
    ensures Happened(lib, log + [e])
  {
    var longer := log + [e];
    forall i | 0 <= i < |longer| ensures Possible(Outcome(lib, longer[..i]), longer[i]) {
      assert longer[..i] == log[..i];
      if i == |log| { assert log[..i] == log; }
    }
  }

  lemma OutcomeAt(lib: Lib, log: seq<Event>, i: nat)
    requires i < |log|
    ensures Outcome(lib, log[..i + 1]) == Effect(Outcome(lib, log[..i]), log[i])
  {
    assert log[..i + 1][..i] == log[..i];
  }

  lemma {:induction false} DoubledAt(lib: Lib, log: seq<Event>, i: nat)
    requires i < |log| && Doubles(Outcome(lib, log[..i]), log[i])
    ensures log[i].pool.name in Doubled(lib, log)
    decreases |log|
  {
    var front := log[..|log| - 1];
    if i == |log| - 1 {
      assert log[..i] == front;
    } else {
      assert front[..i] == log[..i];
      DoubledAt(lib, front, i);
    }
  }

  lemma HappenedFront(lib: Lib, log: seq<Event>, n: nat)
    requires Happened(lib, log) && n <= |log|
    ensures Happened(lib, log[..n])
  {
    forall i | 0 <= i < n ensures Possible(Outcome(lib, log[..n][..i]), log[..n][i]) {
      assert log[..n][..i] == log[..i];
    }
  }

  lemma {:induction false} HistoryKeepsVolumesSound(lib: Lib, log: seq<Event>)
    requires SoundVolumes(lib) && Happened(lib, log)
    ensures SoundVolumes(Outcome(lib, log))
  {
    if log == [] {
    } else {
      var last := |log| - 1;
      HappenedFront(lib, log, last);
      HistoryKeepsVolumesSound(lib, log[..last]);
      PossibleKeepsVolumesSound(Outcome(lib, log[..last]), log[last]);
    }
  }

  /** A possible history replays, event by event, exactly when no name was doubled in it; it then leads to
      the tables as they are. */
  lemma {:induction false} LegalIffNothingDoubled(lib: Lib, log: seq<Event>)
    requires Happened(lib, log)
    ensures Replay(lib, log).Some? <==> Doubled(lib, log) == {}
    ensures Replay(lib, log) in {None, Some(Outcome(lib, log))}
  {
    if log == [] {
    } else {
      var last := |log| - 1;
      HappenedFront(lib, log, last);
      LegalIffNothingDoubled(lib, log[..last]);
      assert Possible(Outcome(lib, log[..last]), log[last]);
    }
  }

  /** A name that was never doubled belongs to one pool at most. */
  ghost predicate UniqueName(lib: Lib, name: string) {
    forall u, v :: u in lib.pools && v in lib.pools && u.name == name == v.name ==> u == v
  }

  lemma {:induction false} NameStaysUnique(lib: Lib, log: seq<Event>, name: string)
    requires UniqueName(lib, name) && name !in Doubled(lib, log)
    ensures UniqueName(Outcome(lib, log), name)
  {
    if log == [] {
    } else {
      var last := |log| - 1;
      NameStaysUnique(lib, log[..last], name);
    }
  }

  // ---------------------------------------------------------------- what stays between two events

  lemma {:induction false} PoolStays(lib: Lib, log: seq<Event>, i: nat, j: nat, u: Uuid)
    requires i <= j <= |log| && u in Outcome(lib, log[..i]).pools
    requires forall m :: i <= m < j ==> log[m] != Undefined(u)
    ensures u in Outcome(lib, log[..j]).pools
    decreases j
  {
    if i == j {
    } else {
      PoolStays(lib, log, i, j - 1, u);
      OutcomeAt(lib, log, j - 1);
    }
  }

  /** A name is defined again only after the pool defined under it was undefined, unless it was doubled. */
  lemma DefineOnceBetweenDeletes(lib: Lib, log: seq<Event>, i: nat, j: nat)
    requires i < j < |log| && log[i].Defined? && log[j].Defined?
    requires log[i].pool.name == log[j].pool.name && log[j].pool.name !in Doubled(lib, log)
    ensures exists m :: i < m < j && log[m] == Undefined(log[i].pool)
  {
    var u := log[i].pool;
    OutcomeAt(lib, log, i);
    if forall m :: i < m < j ==> log[m] != Undefined(u) {
      PoolStays(lib, log, i + 1, j, u);
      DoubledAt(lib, log, j);
    }
  }

  ghost predicate VolumeIsAt(lib: Lib, k: VolKey, at: VolAt) {
    k in lib.vols && lib.vols[k] == at
  }

  lemma VolumeStaysOnce(lib: Lib, log: seq<Event>, j: nat, k: VolKey, at: VolAt)
    requires Happened(lib, log) && j < |log| && VolumeIsAt(Outcome(lib, log[..j]), k, at)
    requires log[j] != Undefined(at.pool) && log[j] != Gone(k)
    ensures VolumeIsAt(Outcome(lib, log[..j + 1]), k, at)
  {
    OutcomeAt(lib, log, j);
    assert VolumeIsAt(Effect(Outcome(lib, log[..j]), log[j]), k, at);
  }

  lemma {:induction false} VolumeStays(lib: Lib, log: seq<Event>, i: nat, j: nat, k: VolKey, at: VolAt)
    requires Happened(lib, log) && i <= j <= |log|
    requires VolumeIsAt(Outcome(lib, log[..i]), k, at)
    requires forall m :: i <= m < j ==> log[m] != Undefined(at.pool) && log[m] != Gone(k)
    ensures VolumeIsAt(Outcome(lib, log[..j]), k, at)
    decreases j
  {
    if i == j {
    } else {
      VolumeStays(lib, log, i, j - 1, k, at);
      VolumeStaysOnce(lib, log, j - 1, k, at);
    }
  }

  /** A successful create: the volume was made, or found and adopted. */
  predicate Created(e: Event) {
    e.Made? || e.Adopted?
  }

  /** Neither the volume of event i nor its pool was deleted before event j. */
  ghost predicate Undisturbed(log: seq<Event>, i: nat, j: nat)
    requires i < j < |log| && Created(log[i])
  {
    forall m :: i < m < j ==> log[m] != Undefined(log[i].at.pool) && log[m] != Gone(log[i].key)
  }

  /** Two successful creates of one volume of one pool end with the same key. */
  lemma CreatesAgree(lib: Lib, log: seq<Event>, i: nat, j: nat)
    requires SoundVolumes(lib) && Happened(lib, log) && i < j < |log|
    requires Created(log[i]) && Created(log[j]) && log[i].at == log[j].at
    requires Undisturbed(log, i, j)
    ensures log[i].key == log[j].key && log[j].Adopted?
  {
    var k, at := log[i].key, log[i].at;
    OutcomeAt(lib, log, i);
    VolumeStays(lib, log, i + 1, j, k, at);
    HappenedFront(lib, log, j);
    HistoryKeepsVolumesSound(lib, log[..j]);
    assert Possible(Outcome(lib, log[..j]), log[j]);
    assert HasVolume(Outcome(lib, log[..j]), at);
  }

  /** Creates in one pool name are creates in one pool, as long as that name was not doubled. */
  lemma CreatesShareTheirPool(lib: Lib, log: seq<Event>, i: nat, j: nat)
    requires UniqueNames(lib) && Happened(lib, log) && i < j < |log|
    requires Created(log[i]) && Created(log[j]) && log[i].at.pool.name == log[j].at.pool.name
    requires Undisturbed(log, i, j) && log[i].at.pool.name !in Doubled(lib, log[..j])
    ensures log[i].at.pool == log[j].at.pool
  {
    OutcomeAt(lib, log, i);
    PoolStays(lib, log, i + 1, j, log[i].at.pool);
    assert Possible(Outcome(lib, log[..j]), log[j]);
    NameStaysUnique(lib, log[..j], log[i].at.pool.name);
  }

  lemma {:induction false} DoubledGrows(lib: Lib, log: seq<Event>, n: nat)
    requires n <= |log|
    ensures Doubled(lib, log[..n]) <= Doubled(lib, log)
    decreases |log|
  {
    if n == |log| {
      assert log[..n] == log;
    } else {
      var front := log[..|log| - 1];
      assert front[..n] == log[..n];
      DoubledGrows(lib, front, n);
    }
  }

  lemma {:induction false} KeyStaysAway(lib: Lib, log: seq<Event>, i: nat, j: nat, k: VolKey)
    requires i <= j <= |log| && k !in Outcome(lib, log[..i]).vols
    requires forall m :: i <= m < j ==> !(log[m].Made? && log[m].key == k)
    ensures k !in Outcome(lib, log[..j]).vols
    decreases j
  {
    if i == j {
    } else {
      KeyStaysAway(lib, log, i, j - 1, k);
      OutcomeAt(lib, log, j - 1);
    }
  }

  /** Of all deletes of one key at most one takes effect, until a volume is made under that key again. */
  lemma DeleteOnceBetweenCreates(lib: Lib, log: seq<Event>, i: nat, j: nat)
    requires Happened(lib, log) && i < j < |log|
    requires log[i].Gone? && log[j] == log[i]
    ensures exists m :: i < m < j && log[m].Made? && log[m].key == log[i].key
  {
    OutcomeAt(lib, log, i);
    assert Possible(Outcome(lib, log[..j]), log[j]);
    if forall m :: i < m < j ==> !(log[m].Made? && log[m].key == log[i].key) {
      KeyStaysAway(lib, log, i + 1, j, log[i].key);
    }
  }
}
