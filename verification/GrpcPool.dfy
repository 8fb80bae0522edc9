/**
 * The gRPC connection pool of src/relay/transport/grpc.rs as a concurrent protocol.
 *
 * A slot is the `Arc<Mutex<Option<PooledConn>>>` behind a key. Tasks run `get_or_create`, and `evict`
 * with the connection they got, or either pruner; every connection has one watcher task. A critical
 * section that contains no await is one action, enabled while the slot's lock is free; the lock is
 * kept across actions only by a `get_or_create` that performs a handshake. The pruners read the key
 * map shard by shard, as its iterator does. Actions of different tasks interleave freely.
 */
module GrpcPool {
  import opened Prelude
  import opened PoolKeys

  type SlotId = nat
  type TaskId = nat
  type ConnId = nat
  type Time = nat

  datatype Conn = Conn(id: ConnId, lastUsed: Time)

  datatype Slot = Slot(cached: Option<Conn>, lock: Option<TaskId>)

  /** `next` is the shard that a pruner reads next; it acts on its list once all shards are read. */
  datatype Task =
    | Waiting(key: Key, slot: SlotId)
    | Handshake(key: Key, slot: SlotId, id: ConnId, spawned: bool)
    | Returned(key: Key, slot: SlotId, id: ConnId)
    | Failed
    | Pruning(active: set<Key>, next: nat, todo: map<Key, SlotId>, clearing: Option<SlotId>)
    | Pruned
    | Scanning(now: Time, maxIdle: Time, next: nat, visit: set<SlotId>)

  /** `Closed`: the connection is gone and its watcher waits for the lock. */
  datatype Watcher = Open(slot: SlotId) | Closed(slot: SlotId) | Finished(slot: SlotId)

  type Count = n: nat | n > 0 witness 1

  /** The concurrent map puts a key into one of its shards by a hash. */
  datatype Layout = Layout(hash: Key -> nat, shards: Count) {
    function Of(k: Key): (n: nat)
      ensures n < shards
    {
      hash(k) % shards
    }
  }

  datatype Pool = Pool(
    layout: Layout,
    conns: map<Key, SlotId>,
    slots: map<SlotId, Slot>,
    tasks: map<TaskId, Task>,
    watchers: map<ConnId, Watcher>,
    nextId: ConnId,
    clock: Time)

  function Empty(layout: Layout): Pool {
    Pool(layout, map[], map[], map[], map[], 1, 0)
  }

  datatype Action =
    | Enter(t: TaskId, key: Key, newSlot: SlotId)
    | Reuse(t: TaskId)
    | StartHandshake(t: TaskId)
    | SpawnWatcher(t: TaskId)
    | Store(t: TaskId)
    | Abandon(t: TaskId)
    | ConnectionCloses(id: ConnId)
    | WatcherRuns(id: ConnId)
    | Evict(t: TaskId)
    | PruneStart(t: TaskId, active: set<Key>)
    | Collect(t: TaskId)
    | PruneRemove(t: TaskId, key: Key)
    | PruneClear(t: TaskId)
    | PruneDone(t: TaskId)
    | ScanStart(t: TaskId, maxIdle: Time)
    | ScanVisit(t: TaskId, slot: SlotId)
    | TimePasses(d: Time)

  predicate LockFree(p: Pool, s: SlotId) {
    s in p.slots && p.slots[s].lock.None?
  }

  predicate InHandshake(p: Pool, t: TaskId) {
    t in p.tasks && p.tasks[t].Handshake?
  }

  /** Task `t` is a pruner that has read the key map up to shard `next`. */
  predicate Collects(p: Pool, t: TaskId) {
    t in p.tasks && (p.tasks[t].Pruning? || p.tasks[t].Scanning?)
  }

  predicate Prunes(p: Pool, t: TaskId) {
    t in p.tasks && p.tasks[t].Pruning? && p.tasks[t].next == p.layout.shards
  }

  predicate Scans(p: Pool, t: TaskId) {
    t in p.tasks && p.tasks[t].Scanning? && p.tasks[t].next == p.layout.shards
  }

  predicate Enabled(p: Pool, a: Action) {
    match a
    case Enter(t, key, newSlot) => t !in p.tasks && newSlot !in p.slots
    case Reuse(t) =>
      t in p.tasks && p.tasks[t].Waiting? && LockFree(p, p.tasks[t].slot) && p.slots[p.tasks[t].slot].cached.Some?
    case StartHandshake(t) =>
      t in p.tasks && p.tasks[t].Waiting? && LockFree(p, p.tasks[t].slot) && p.slots[p.tasks[t].slot].cached.None?
    case SpawnWatcher(t) => InHandshake(p, t) && !p.tasks[t].spawned
    case Store(t) => InHandshake(p, t) && p.tasks[t].spawned && p.tasks[t].slot in p.slots
    case Abandon(t) =>
      && t in p.tasks
      && (p.tasks[t].Waiting? || (p.tasks[t].Handshake? && !p.tasks[t].spawned && p.tasks[t].slot in p.slots))
    case ConnectionCloses(id) => id in p.watchers && p.watchers[id].Open?
    case WatcherRuns(id) => id in p.watchers && p.watchers[id].Closed? && LockFree(p, p.watchers[id].slot)
    // with the key gone or the slot locked nothing happens
    case Evict(t) =>
      t in p.tasks && p.tasks[t].Returned? && p.tasks[t].key in p.conns && LockFree(p, p.conns[p.tasks[t].key])
    case PruneStart(t, active) => t !in p.tasks
    case Collect(t) => Collects(p, t) && p.tasks[t].next < p.layout.shards
    case PruneRemove(t, key) => Prunes(p, t) && p.tasks[t].clearing.None? && key in p.tasks[t].todo
    case PruneClear(t) => Prunes(p, t) && p.tasks[t].clearing.Some? && LockFree(p, p.tasks[t].clearing.value)
    case PruneDone(t) => Prunes(p, t) && p.tasks[t].clearing.None? && p.tasks[t].todo == map[]
    // a limit of zero seconds means that no scan is made
    case ScanStart(t, maxIdle) => t !in p.tasks && maxIdle > 0
    case ScanVisit(t, s) => Scans(p, t) && s in p.tasks[t].visit && LockFree(p, s)
    case TimePasses(d) => true
  }

  /** A step of `get_or_create`. */
  predicate CallerStep(a: Action) {
    a.Enter? || a.Reuse? || a.StartHandshake? || a.SpawnWatcher? || a.Store? || a.Abandon?
  }

  function SetTask(p: Pool, t: TaskId, task: Task): Pool {
    p.(tasks := p.tasks[t := task])
  }

  function SetSlot(p: Pool, s: SlotId, slot: Slot): Pool {
    p.(slots := p.slots[s := slot])
  }

  /** The connection of a slot dropped, under its lock. */
  function Clear(p: Pool, s: SlotId): Pool {
    SetSlot(p, s, Slot(None, None))
  }

  /** The entries of one shard. */
  function Shard(p: Pool, n: nat): map<Key, SlotId> {
    map k | k in p.conns && p.layout.Of(k) == n :: p.conns[k]
  }

  /** The lock of one shard is held while its entries are read. */
  function ReadShard(p: Pool, task: Task): (r: Task)
    requires task.Pruning? || task.Scanning?
    ensures if task.Pruning? then r.Pruning? && r.active == task.active && r.clearing == task.clearing
            else r.Scanning? && r.now == task.now && r.maxIdle == task.maxIdle
  {
    if task.Pruning? then task.(next := task.next + 1, todo := task.todo + (Shard(p, task.next) - task.active))
    else task.(next := task.next + 1, visit := task.visit + Shard(p, task.next).Values)
  }

  function Do(p: Pool, a: Action): (p': Pool)
    requires Enabled(p, a)
  {
    match a
    case Enter(t, key, newSlot) =>
      if key in p.conns then SetTask(p, t, Waiting(key, p.conns[key]))
      else
        SetTask(SetSlot(p.(conns := p.conns[key := newSlot]), newSlot, Slot(None, None)), t,
                Waiting(key, newSlot))
    case Reuse(t) =>
      var task := p.tasks[t];
      var conn := p.slots[task.slot].cached.value;
      SetTask(SetSlot(p, task.slot, Slot(Some(conn.(lastUsed := p.clock)), None)), t,
              Returned(task.key, task.slot, conn.id))
    case StartHandshake(t) =>
      var task := p.tasks[t];
      SetTask(SetSlot(p, task.slot, Slot(None, Some(t))), t, Handshake(task.key, task.slot, p.nextId, false))
      .(nextId := p.nextId + 1)
    case SpawnWatcher(t) =>
      var task := p.tasks[t];
      SetTask(p, t, task.(spawned := true)).(watchers := p.watchers[task.id := Open(task.slot)])
    case Store(t) =>
      var task := p.tasks[t];
      SetTask(SetSlot(p, task.slot, Slot(Some(Conn(task.id, p.clock)), None)), t,
              Returned(task.key, task.slot, task.id))
    case Abandon(t) =>
      var task := p.tasks[t];
      if task.Waiting? then SetTask(p, t, Failed)
      else SetTask(SetSlot(p, task.slot, p.slots[task.slot].(lock := None)), t, Failed)
    case ConnectionCloses(id) => p.(watchers := p.watchers[id := Closed(p.watchers[id].slot)])
    case WatcherRuns(id) =>
      var s := p.watchers[id].slot;
      var c := p.slots[s].cached;
      var q := if c.Some? && c.value.id == id then Clear(p, s) else p;
      q.(watchers := p.watchers[id := Finished(s)])
    case Evict(t) => Clear(p, p.conns[p.tasks[t].key])
    case PruneStart(t, active) => SetTask(p, t, Pruning(active, 0, map[], None))
    case Collect(t) => SetTask(p, t, ReadShard(p, p.tasks[t]))
    case PruneRemove(t, key) =>
      var task := p.tasks[t];
      var left := task.(todo := task.todo - {key});
      if key in p.conns then SetTask(p.(conns := p.conns - {key}), t, left.(clearing := Some(task.todo[key])))
      else SetTask(p, t, left)
    case PruneClear(t) =>
      var task := p.tasks[t];
      SetTask(Clear(p, task.clearing.value), t, task.(clearing := None))
    case PruneDone(t) => SetTask(p, t, Pruned)
    case ScanStart(t, maxIdle) => SetTask(p, t, Scanning(p.clock, maxIdle, 0, {}))
    case ScanVisit(t, s) =>
      var task := p.tasks[t];
      var c := p.slots[s].cached;
      // `duration_since` of a later instant is zero
      var idleFor := if c.Some? && c.value.lastUsed <= task.now then task.now - c.value.lastUsed else 0;
      var q := if c.Some? && idleFor >= task.maxIdle then Clear(p, s) else p;
      SetTask(q, t, task.(visit := task.visit - {s}))
    case TimePasses(d) => p.(clock := p.clock + d)
  }

  ghost predicate IsRun(states: seq<Pool>, actions: seq<Action>) {
    && |states| == |actions| + 1
    && states[0] == Empty(states[0].layout)
    && forall i :: 0 <= i < |actions| ==> Enabled(states[i], actions[i]) && states[i + 1] == Do(states[i], actions[i])
  }

  // ---------------------------------------------------------------------------------------------
  // The invariant
  // ---------------------------------------------------------------------------------------------

  ghost predicate MappedSlotsExist(p: Pool) {
    forall k :: k in p.conns ==> p.conns[k] in p.slots
  }

  ghost predicate WatchedSlotsExist(p: Pool) {
    forall i :: i in p.watchers ==> p.watchers[i].slot in p.slots
  }

  ghost predicate AwaitedSlotsExist(p: Pool) {
    forall t :: t in p.tasks && (p.tasks[t].Waiting? || p.tasks[t].Handshake?) ==> p.tasks[t].slot in p.slots
  }

  ghost predicate PrunedSlotsExist(p: Pool) {
    forall t, k :: t in p.tasks && p.tasks[t].Pruning? && k in p.tasks[t].todo ==> p.tasks[t].todo[k] in p.slots
  }

  ghost predicate ScannedSlotsExist(p: Pool) {
    forall t, s :: t in p.tasks && p.tasks[t].Scanning? && s in p.tasks[t].visit ==> s in p.slots
  }

  ghost predicate ClearedSlotsExist(p: Pool) {
    forall t :: t in p.tasks && p.tasks[t].Pruning? && p.tasks[t].clearing.Some? ==>
      p.tasks[t].clearing.value in p.slots
  }

  /** A task in a handshake holds the lock of its slot, which is empty. */
  ghost predicate HandshakesLock(p: Pool) {
    forall t :: InHandshake(p, t) ==>
      p.tasks[t].slot in p.slots && p.slots[p.tasks[t].slot] == Slot(None, Some(t))
  }

  /** A locked slot is locked by a task in a handshake for it. */
  ghost predicate LocksOwned(p: Pool) {
    forall s :: s in p.slots && p.slots[s].lock.Some? ==>
      InHandshake(p, p.slots[s].lock.value) && p.tasks[p.slots[s].lock.value].slot == s
  }

  /** Connection ids come from the counter. */
  ghost predicate IdsBelow(p: Pool) {
    && (forall i :: i in p.watchers ==> i < p.nextId)
    && (forall t :: InHandshake(p, t) ==> p.tasks[t].id < p.nextId)
  }

  /** No two handshakes share an id. */
  ghost predicate IdsUnique(p: Pool) {
    forall t, u :: InHandshake(p, t) && InHandshake(p, u) && p.tasks[t].id == p.tasks[u].id ==> t == u
  }

  /** A handshake whose watcher is not spawned yet has an id that no watcher has. */
  ghost predicate SpawnedOnce(p: Pool) {
    forall t :: InHandshake(p, t) && !p.tasks[t].spawned ==> p.tasks[t].id !in p.watchers
  }

  ghost predicate Watched(p: Pool, id: ConnId, s: SlotId) {
    id in p.watchers && p.watchers[id].slot == s && !p.watchers[id].Finished?
  }

  /** Every stored connection has an unfinished watcher on that very slot. */
  ghost predicate StoredWatched(p: Pool) {
    forall s :: s in p.slots && p.slots[s].cached.Some? ==> Watched(p, p.slots[s].cached.value.id, s)
  }

  /** So does every connection that is about to be stored. */
  ghost predicate SpawnedWatched(p: Pool) {
    forall t :: InHandshake(p, t) && p.tasks[t].spawned ==> Watched(p, p.tasks[t].id, p.tasks[t].slot)
  }

  ghost predicate TimesPast(p: Pool) {
    forall s :: s in p.slots && p.slots[s].cached.Some? ==> p.slots[s].cached.value.lastUsed <= p.clock
  }

  /** A pruner has no active key on its list. */
  ghost predicate PrunesStale(p: Pool) {
    forall t :: t in p.tasks && p.tasks[t].Pruning? ==> p.tasks[t].todo.Keys !! p.tasks[t].active
  }

  /** A scan began in the past and has a limit. */
  ghost predicate ScansPast(p: Pool) {
    forall t :: t in p.tasks && p.tasks[t].Scanning? ==> p.tasks[t].now <= p.clock && p.tasks[t].maxIdle > 0
  }

  ghost predicate Inv(p: Pool) {
    && MappedSlotsExist(p) && WatchedSlotsExist(p) && AwaitedSlotsExist(p)
    && PrunedSlotsExist(p) && ScannedSlotsExist(p) && ClearedSlotsExist(p)
    && HandshakesLock(p) && LocksOwned(p)
    && IdsBelow(p) && IdsUnique(p) && SpawnedOnce(p)
    && StoredWatched(p) && SpawnedWatched(p) && TimesPast(p) && PrunesStale(p) && ScansPast(p)
  }

  lemma MappedSlotsExistStep(p: Pool, a: Action)
    requires MappedSlotsExist(p) && Enabled(p, a)
    ensures MappedSlotsExist(Do(p, a))
  {}

  lemma WatchedSlotsExistStep(p: Pool, a: Action)
    requires AwaitedSlotsExist(p) && WatchedSlotsExist(p) && Enabled(p, a)
    ensures WatchedSlotsExist(Do(p, a))
  {}

  lemma AwaitedSlotsExistStep(p: Pool, a: Action)
    requires MappedSlotsExist(p) && AwaitedSlotsExist(p) && Enabled(p, a)
    ensures AwaitedSlotsExist(Do(p, a))
  {}

  lemma PrunedSlotsExistCaller(p: Pool, a: Action)
    requires PrunedSlotsExist(p) && Enabled(p, a) && CallerStep(a)
    ensures PrunedSlotsExist(Do(p, a))
  {}

  lemma PrunedSlotsExistOther(p: Pool, a: Action)
    requires MappedSlotsExist(p) && PrunedSlotsExist(p) && Enabled(p, a) && !CallerStep(a)
    ensures PrunedSlotsExist(Do(p, a))
  {}

  lemma PrunedSlotsExistStep(p: Pool, a: Action)
    requires MappedSlotsExist(p) && PrunedSlotsExist(p) && Enabled(p, a)
    ensures PrunedSlotsExist(Do(p, a))
  {
    hide Do, Enabled;
    if CallerStep(a) { PrunedSlotsExistCaller(p, a); } else { PrunedSlotsExistOther(p, a); }
  }

  lemma ScannedSlotsExistStep(p: Pool, a: Action)
    requires MappedSlotsExist(p) && ScannedSlotsExist(p) && Enabled(p, a)
    ensures ScannedSlotsExist(Do(p, a))
  {}

  lemma ClearedSlotsExistStep(p: Pool, a: Action)
    requires PrunedSlotsExist(p) && ClearedSlotsExist(p) && Enabled(p, a)
    ensures ClearedSlotsExist(Do(p, a))
  {}

  lemma HandshakesLockCaller(p: Pool, a: Action)
    requires HandshakesLock(p) && Enabled(p, a) && CallerStep(a)
    ensures HandshakesLock(Do(p, a))
  {}

  lemma HandshakesLockOther(p: Pool, a: Action)
    requires HandshakesLock(p) && Enabled(p, a) && !CallerStep(a)
    ensures HandshakesLock(Do(p, a))
  {}

  lemma HandshakesLockStep(p: Pool, a: Action)
    requires HandshakesLock(p) && Enabled(p, a)
    ensures HandshakesLock(Do(p, a))
  {
    hide Do, Enabled;
    if CallerStep(a) { HandshakesLockCaller(p, a); } else { HandshakesLockOther(p, a); }
  }

  lemma LocksOwnedCaller(p: Pool, a: Action)
    requires HandshakesLock(p) && LocksOwned(p) && Enabled(p, a) && CallerStep(a)
    ensures LocksOwned(Do(p, a))
  {}

  lemma LocksOwnedOther(p: Pool, a: Action)
    requires LocksOwned(p) && Enabled(p, a) && !CallerStep(a)
    ensures LocksOwned(Do(p, a))
  {}

  lemma LocksOwnedStep(p: Pool, a: Action)
    requires HandshakesLock(p) && LocksOwned(p) && Enabled(p, a)
    ensures LocksOwned(Do(p, a))
  {
    hide Do, Enabled;
    if CallerStep(a) { LocksOwnedCaller(p, a); } else { LocksOwnedOther(p, a); }
  }

  lemma IdsBelowStep(p: Pool, a: Action)
    requires IdsBelow(p) && Enabled(p, a)
    ensures IdsBelow(Do(p, a))
  {}

  lemma IdsUniqueStep(p: Pool, a: Action)
    requires IdsBelow(p) && IdsUnique(p) && Enabled(p, a)
    ensures IdsUnique(Do(p, a))
  {}

  lemma SpawnedOnceStep(p: Pool, a: Action)
    requires IdsBelow(p) && IdsUnique(p) && SpawnedOnce(p) && Enabled(p, a)
    ensures SpawnedOnce(Do(p, a))
  {}

  lemma StoredWatchedCaller(p: Pool, a: Action)
    requires StoredWatched(p) && SpawnedWatched(p) && SpawnedOnce(p) && Enabled(p, a) && CallerStep(a)
    ensures StoredWatched(Do(p, a))
  {}

  lemma StoredWatchedOther(p: Pool, a: Action)
    requires StoredWatched(p) && Enabled(p, a) && !CallerStep(a)
    ensures StoredWatched(Do(p, a))
  {}

  lemma StoredWatchedStep(p: Pool, a: Action)
    requires StoredWatched(p) && SpawnedWatched(p) && SpawnedOnce(p) && Enabled(p, a)
    ensures StoredWatched(Do(p, a))
  {
    hide Do, Enabled;
    if CallerStep(a) { StoredWatchedCaller(p, a); } else { StoredWatchedOther(p, a); }
  }

  lemma SpawnedWatchedCaller(p: Pool, a: Action)
    requires HandshakesLock(p) && SpawnedOnce(p) && SpawnedWatched(p) && Enabled(p, a) && CallerStep(a)
    ensures SpawnedWatched(Do(p, a))
  {}

  lemma SpawnedWatchedOther(p: Pool, a: Action)
    requires HandshakesLock(p) && SpawnedWatched(p) && Enabled(p, a) && !CallerStep(a)
    ensures SpawnedWatched(Do(p, a))
  {}

  /** The lock that a handshake holds keeps the watcher it spawned from finishing before the store. */
  lemma SpawnedWatchedStep(p: Pool, a: Action)
    requires HandshakesLock(p) && SpawnedOnce(p) && SpawnedWatched(p) && Enabled(p, a)
    ensures SpawnedWatched(Do(p, a))
  {
    hide Do, Enabled;
    if CallerStep(a) { SpawnedWatchedCaller(p, a); } else { SpawnedWatchedOther(p, a); }
  }

  lemma TimesPastStep(p: Pool, a: Action)
    requires TimesPast(p) && Enabled(p, a)
    ensures TimesPast(Do(p, a))
  {}

  lemma PrunesStaleStep(p: Pool, a: Action)
    requires PrunesStale(p) && Enabled(p, a)
    ensures PrunesStale(Do(p, a))
  {}

  lemma ScansPastStep(p: Pool, a: Action)
    requires ScansPast(p) && Enabled(p, a)
    ensures ScansPast(Do(p, a))
  {}

  lemma InvStep(p: Pool, a: Action)
    requires Inv(p) && Enabled(p, a)
    ensures Inv(Do(p, a))
  {
    hide Do, Enabled;
    MappedSlotsExistStep(p, a);
    WatchedSlotsExistStep(p, a);
    AwaitedSlotsExistStep(p, a);
    PrunedSlotsExistStep(p, a);
    ScannedSlotsExistStep(p, a);
    ClearedSlotsExistStep(p, a);
    HandshakesLockStep(p, a);
    LocksOwnedStep(p, a);
    IdsBelowStep(p, a);
    IdsUniqueStep(p, a);
    SpawnedOnceStep(p, a);
    StoredWatchedStep(p, a);
    SpawnedWatchedStep(p, a);
    TimesPastStep(p, a);
    PrunesStaleStep(p, a);
    ScansPastStep(p, a);
  }
}
