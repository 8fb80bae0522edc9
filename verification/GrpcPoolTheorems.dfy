/** What the connection pool guarantees its callers over every interleaving. */
module GrpcPoolTheorems {
  import opened Prelude
  import opened PoolKeys
  import opened GrpcPool

  predicate CachedIs(p: Pool, s: SlotId, id: ConnId) {
    s in p.slots && p.slots[s].cached.Some? && p.slots[s].cached.value.id == id
  }

  lemma {:induction false} RunInv(states: seq<Pool>, actions: seq<Action>, i: nat)
    requires IsRun(states, actions) && i < |states|
    ensures Inv(states[i])
  {
    hide Do, Enabled;
    if i == 0 {
      assert Inv(Empty(states[0].layout));
    } else {
      RunInv(states, actions, i - 1);
      InvStep(states[i - 1], actions[i - 1]);
    }
  }

  /**
   * Pool safety: in every reachable state no two slots hold the same connection, and each stored
   * connection has an unfinished watcher on its own slot.
   */
  lemma StoredIdsUnique(states: seq<Pool>, actions: seq<Action>, i: nat)
    requires IsRun(states, actions) && i < |states|
    ensures forall s, u, id :: CachedIs(states[i], s, id) && CachedIs(states[i], u, id) ==> s == u
    ensures forall s, id :: CachedIs(states[i], s, id) ==> Watched(states[i], id, s)
  {
    hide Do, Enabled;
    RunInv(states, actions, i);
    var p := states[i];
    forall s, u, id | CachedIs(p, s, id) && CachedIs(p, u, id) ensures s == u {
      assert Watched(p, id, s) && Watched(p, id, u);
    }
  }

  lemma FinishedWhileSpawning(p: Pool, t: TaskId, id: ConnId)
    requires SpawnedOnce(p) && Enabled(p, SpawnWatcher(t)) && id in p.watchers && p.watchers[id].Finished?
    ensures var q := Do(p, SpawnWatcher(t)); id in q.watchers && q.watchers[id].Finished?
  {}

  lemma FinishedOtherwise(p: Pool, a: Action, id: ConnId)
    requires Enabled(p, a) && !CallerStep(a) && id in p.watchers && p.watchers[id].Finished?
    ensures id in Do(p, a).watchers && Do(p, a).watchers[id].Finished?
  {}

  lemma CallersKeepWatchers(p: Pool, a: Action)
    requires Enabled(p, a) && CallerStep(a) && !a.SpawnWatcher?
    ensures Do(p, a).watchers == p.watchers
  {}

  lemma FinishedStays(p: Pool, a: Action, id: ConnId)
    requires Inv(p) && Enabled(p, a) && id in p.watchers && p.watchers[id].Finished?
    ensures id in Do(p, a).watchers && Do(p, a).watchers[id].Finished?
  {
    hide Do, Enabled;
    if a.SpawnWatcher? {
      FinishedWhileSpawning(p, a.t, id);
    } else if CallerStep(a) {
      CallersKeepWatchers(p, a);
    } else {
      FinishedOtherwise(p, a, id);
    }
  }

  lemma {:induction false} FinishedForever(states: seq<Pool>, actions: seq<Action>, i: nat, j: nat, id: ConnId)
    requires IsRun(states, actions) && i <= j < |states|
    requires id in states[i].watchers && states[i].watchers[id].Finished?
    ensures id in states[j].watchers && states[j].watchers[id].Finished?
  {
    hide Do, Enabled;
    if i < j {
      FinishedForever(states, actions, i, j - 1, id);
      RunInv(states, actions, j - 1);
      FinishedStays(states[j - 1], actions[j - 1], id);
    }
  }

  /** Once the watcher of a connection has finished, no slot ever holds that connection again. */
  lemma NeverAfterWatcher(states: seq<Pool>, actions: seq<Action>, i: nat, j: nat, id: ConnId)
    requires IsRun(states, actions) && i <= j < |states|
    requires id in states[i].watchers && states[i].watchers[id].Finished?
    ensures forall s :: !CachedIs(states[j], s, id)
  {
    hide Do, Enabled;
    FinishedForever(states, actions, i, j, id);
    RunInv(states, actions, j);
    forall s ensures !CachedIs(states[j], s, id) {
      assert CachedIs(states[j], s, id) ==> Watched(states[j], id, s);
    }
  }

  /** A watcher changes a slot only by clearing its own connection there. */
  lemma WatcherClearsOwnOnly(states: seq<Pool>, actions: seq<Action>, i: nat, s: SlotId)
    requires IsRun(states, actions) && i < |actions| && actions[i].WatcherRuns?
    requires s in states[i].slots
    ensures s in states[i + 1].slots
    ensures states[i + 1].slots[s] != states[i].slots[s] ==>
              CachedIs(states[i], s, actions[i].id) && states[i + 1].slots[s].cached.None?
  {}

  /** The watcher of `id` has seen its connection end and has not run yet. */
  predicate Bereaved(p: Pool, id: ConnId) {
    id in p.watchers && p.watchers[id].Closed?
  }

  lemma BereavedBefore(p: Pool, a: Action, id: ConnId)
    requires Enabled(p, a) && Bereaved(Do(p, a), id)
    ensures Bereaved(p, id) || a == ConnectionCloses(id)
  {}

  lemma OnlyBereavedRun(p: Pool, id: ConnId)
    requires Enabled(p, WatcherRuns(id))
    ensures Bereaved(p, id)
  {}

  lemma {:induction false} BereavedSince(states: seq<Pool>, actions: seq<Action>, j: nat, id: ConnId) returns (c: nat)
    requires IsRun(states, actions) && j < |states| && Bereaved(states[j], id)
    ensures c < j && actions[c] == ConnectionCloses(id)
  {
    hide Do, Enabled;
    if j > 0 {
      BereavedBefore(states[j - 1], actions[j - 1], id);
      if actions[j - 1] == ConnectionCloses(id) {
        c := j - 1;
      } else {
        c := BereavedSince(states, actions, j - 1, id);
      }
    }
  }

  /** A watcher runs only after its connection has ended. */
  lemma WatcherRunsAfterClose(states: seq<Pool>, actions: seq<Action>, j: nat, id: ConnId) returns (c: nat)
    requires IsRun(states, actions) && j < |actions| && actions[j] == WatcherRuns(id)
    ensures c < j && actions[c] == ConnectionCloses(id)
  {
    hide Do, Enabled;
    OnlyBereavedRun(states[j], id);
    c := BereavedSince(states, actions, j, id);
  }

  lemma BereavedStep(p: Pool, a: Action, id: ConnId)
    requires SpawnedOnce(p) && Enabled(p, a) && (Bereaved(p, id) || a == ConnectionCloses(id))
    ensures var q := Do(p, a); id in q.watchers && (q.watchers[id].Closed? || q.watchers[id].Finished?)
  {}

  lemma {:induction false} ClosedForGood(states: seq<Pool>, actions: seq<Action>, c: nat, j: nat, id: ConnId)
    requires IsRun(states, actions) && c < j < |states| && actions[c] == ConnectionCloses(id)
    ensures id in states[j].watchers && (states[j].watchers[id].Closed? || states[j].watchers[id].Finished?)
    decreases j
  {
    hide Do, Enabled;
    RunInv(states, actions, j - 1);
    if j > c + 1 { ClosedForGood(states, actions, c, j - 1, id); }
    if Bereaved(states[j - 1], id) || actions[j - 1] == ConnectionCloses(id) {
      BereavedStep(states[j - 1], actions[j - 1], id);
    } else {
      FinishedStays(states[j - 1], actions[j - 1], id);
    }
  }

  lemma BereavedRuns(p: Pool, id: ConnId)
    requires Inv(p) && Bereaved(p, id) && p.watchers[id].slot in p.slots && p.slots[p.watchers[id].slot].lock.None?
    ensures Enabled(p, WatcherRuns(id)) && forall s :: !CachedIs(Do(p, WatcherRuns(id)), s, id)
  {
    forall s | CachedIs(p, s, id) ensures s == p.watchers[id].slot {
      assert Watched(p, id, s);
    }
  }

  /**
   * Once a connection has ended its watcher can run whenever the lock of its slot is free, until it has
   * run, and afterwards no slot holds the connection.
   */
  lemma DeadConnectionDropped(states: seq<Pool>, actions: seq<Action>, c: nat, j: nat, id: ConnId)
    requires IsRun(states, actions) && c < j < |states| && actions[c] == ConnectionCloses(id)
    ensures id in states[j].watchers && states[j].watchers[id].slot in states[j].slots
    ensures !states[j].watchers[id].Finished? && states[j].slots[states[j].watchers[id].slot].lock.None? ==>
              && Enabled(states[j], WatcherRuns(id))
              && forall s :: !CachedIs(Do(states[j], WatcherRuns(id)), s, id)
  {
    hide Do, Enabled, CachedIs;
    ClosedForGood(states, actions, c, j, id);
    RunInv(states, actions, j);
    if !states[j].watchers[id].Finished? && states[j].slots[states[j].watchers[id].slot].lock.None? {
      BereavedRuns(states[j], id);
    }
  }

  /**
   * A caller that waits can go on: on a free slot it reuses the connection there, or connects if there
   * is none; and a slot that is not free is held by a caller that can go on with its handshake.
   */
  lemma CallersGoOn(states: seq<Pool>, actions: seq<Action>, i: nat, t: TaskId)
    requires IsRun(states, actions) && i < |states| && t in states[i].tasks && states[i].tasks[t].Waiting?
    ensures var p := states[i];
            var s := p.tasks[t].slot;
            && s in p.slots
            && (p.slots[s].lock.None? && p.slots[s].cached.Some? ==> Enabled(p, Reuse(t)))
            && (p.slots[s].lock.None? && p.slots[s].cached.None? ==> Enabled(p, StartHandshake(t)))
            && (p.slots[s].lock.Some? ==>
                  var u := p.slots[s].lock.value;
                  && InHandshake(p, u) && p.tasks[u].slot == s
                  && Enabled(p, if p.tasks[u].spawned then Store(u) else SpawnWatcher(u)))
  {
    hide Do;
    RunInv(states, actions, i);
  }

  /**
   * What begins from outside can always begin: calls, pruners and scans by new tasks, the end of an open
   * connection, the passing of time; and a caller with a connection can evict if its key's slot is free.
   */
  lemma AnyoneMayStart(p: Pool, t: TaskId, key: Key, newSlot: SlotId, active: set<Key>, d: Time, id: ConnId)
    ensures t !in p.tasks && newSlot !in p.slots ==> Enabled(p, Enter(t, key, newSlot))
    ensures t !in p.tasks ==> Enabled(p, PruneStart(t, active)) && (d > 0 ==> Enabled(p, ScanStart(t, d)))
    ensures id in p.watchers && p.watchers[id].Open? ==> Enabled(p, ConnectionCloses(id))
    ensures t in p.tasks && p.tasks[t].Returned? && p.tasks[t].key in p.conns ==>
              (LockFree(p, p.conns[p.tasks[t].key]) ==> Enabled(p, Evict(t)))
    ensures Enabled(p, TimePasses(d))
  {}

  lemma AbandonStep(p: Pool, t: TaskId)
    requires Inv(p) && InHandshake(p, t) && !p.tasks[t].spawned
    ensures Enabled(p, Abandon(t))
    ensures var q := Do(p, Abandon(t));
            var s := p.tasks[t].slot;
            s in q.slots && q.slots[s] == Slot(None, None) && t in q.tasks && q.tasks[t].Failed?
  {}

  /** A handshake may fail or be cancelled until its watcher is spawned, and leaves its slot free and empty. */
  lemma FailureFreesSlot(states: seq<Pool>, actions: seq<Action>, i: nat, t: TaskId)
    requires IsRun(states, actions) && i < |states|
    requires InHandshake(states[i], t) && !states[i].tasks[t].spawned
    ensures Enabled(states[i], Abandon(t))
    ensures var q := Do(states[i], Abandon(t));
            var s := states[i].tasks[t].slot;
            s in q.slots && q.slots[s] == Slot(None, None) && t in q.tasks && q.tasks[t].Failed?
  {
    hide Do, Enabled;
    RunInv(states, actions, i);
    AbandonStep(states[i], t);
  }

  /** A caller that waits may give up, and changes nothing else. */
  lemma WaiterMayGiveUp(p: Pool, t: TaskId)
    requires t in p.tasks && p.tasks[t].Waiting?
    ensures Enabled(p, Abandon(t)) && Do(p, Abandon(t)) == p.(tasks := p.tasks[t := Failed])
  {}

  /** No pruner reads more shards than there are. */
  ghost predicate ReadsInside(p: Pool) {
    forall t :: Collects(p, t) ==> p.tasks[t].next <= p.layout.shards
  }

  lemma ReadsInsideStep(p: Pool, a: Action)
    requires ReadsInside(p) && Enabled(p, a)
    ensures ReadsInside(Do(p, a))
  {}

  lemma {:induction false} ReadsInsideRun(states: seq<Pool>, actions: seq<Action>, i: nat)
    requires IsRun(states, actions) && i < |states|
    ensures ReadsInside(states[i])
  {
    hide Do, Enabled;
    if i > 0 {
      ReadsInsideRun(states, actions, i - 1);
      ReadsInsideStep(states[i - 1], actions[i - 1]);
    }
  }

  /**
   * Both pruners go on: they read the next shard until all are read, then act on what they listed as soon
   * as the slot in question is free, and the pruner of keys ends when its list is empty.
   */
  lemma PrunersGoOn(states: seq<Pool>, actions: seq<Action>, i: nat, t: TaskId)
    requires IsRun(states, actions) && i < |states| && Collects(states[i], t)
    ensures var p := states[i];
            var task := p.tasks[t];
            if task.next != p.layout.shards then Enabled(p, Collect(t))
            else if task.Scanning? then forall s :: s in task.visit && LockFree(p, s) ==> Enabled(p, ScanVisit(t, s))
            else if task.clearing.Some? then LockFree(p, task.clearing.value) ==> Enabled(p, PruneClear(t))
            else if task.todo == map[] then Enabled(p, PruneDone(t))
            else forall key :: key in task.todo ==> Enabled(p, PruneRemove(t, key))
  {
    hide Do;
    ReadsInsideRun(states, actions, i);
  }

  function Elapsed(actions: seq<Action>): (t: Time) {
    if actions == [] then 0
    else
      var n := |actions| - 1;
      Elapsed(actions[..n]) + if actions[n].TimePasses? then actions[n].d else 0
  }

  lemma ClockStep(p: Pool, a: Action)
    requires Enabled(p, a)
    ensures Do(p, a).clock == p.clock + if a.TimePasses? then a.d else 0
  {}

  /** The clock by which connections are found idle shows the time that has passed. */
  lemma {:induction false} ClockIsElapsed(states: seq<Pool>, actions: seq<Action>, i: nat)
    requires IsRun(states, actions) && i < |states|
    ensures states[i].clock == Elapsed(actions[..i])
  {
    hide Do, Enabled;
    if i > 0 {
      ClockIsElapsed(states, actions, i - 1);
      ClockStep(states[i - 1], actions[i - 1]);
      assert actions[..i][..i - 1] == actions[..i - 1];
    }
  }

  /**
   * The slot lock is what keeps a watcher that finds its connection closed at once from running
   * before the connection is stored: after a store the watcher is still there to clear it.
   */
  lemma StoredWhileWatched(states: seq<Pool>, actions: seq<Action>, i: nat)
    requires IsRun(states, actions) && i < |actions| && actions[i].Store?
    ensures var task := states[i].tasks[actions[i].t];
            && CachedIs(states[i + 1], task.slot, task.id)
            && Watched(states[i + 1], task.id, task.slot)
  {
    hide Enabled;
    RunInv(states, actions, i);
    assert Enabled(states[i], actions[i]);
    StoreStep(states[i], actions[i].t);
  }

  lemma StoreStep(p: Pool, t: TaskId)
    requires Inv(p) && Enabled(p, Store(t))
    ensures p.tasks[t].Handshake?
    ensures CachedIs(Do(p, Store(t)), p.tasks[t].slot, p.tasks[t].id)
    ensures Watched(Do(p, Store(t)), p.tasks[t].id, p.tasks[t].slot)
  {}

  /** Single flight: no two tasks ever perform a handshake for one slot at the same time. */
  lemma SingleFlight(states: seq<Pool>, actions: seq<Action>, i: nat, t: TaskId, u: TaskId)
    requires IsRun(states, actions) && i < |states|
    requires InHandshake(states[i], t) && InHandshake(states[i], u)
    requires states[i].tasks[t].slot == states[i].tasks[u].slot
    ensures t == u
  {
    hide Do, Enabled;
    RunInv(states, actions, i);
  }

  // ---------------------------------------------------------------------------------------------
  // Two answers for one slot
  // ---------------------------------------------------------------------------------------------

  /** The action makes a `get_or_create` on slot `s` return connection `id`. */
  predicate Returns(p: Pool, a: Action, s: SlotId, id: ConnId) {
    && Enabled(p, a)
    && (a.Reuse? || a.Store?)
    && var task := p.tasks[a.t];
    && task.slot == s
    && id == (if a.Reuse? then p.slots[s].cached.value.id else task.id)
  }

  /** A watcher, an eviction or a pruner drops the connection of `s`. */
  predicate Clears(p: Pool, a: Action, s: SlotId) {
    && Enabled(p, a)
    && (a.WatcherRuns? || a.Evict? || a.PruneClear? || a.ScanVisit?)
    && s in p.slots && p.slots[s].cached.Some?
    && s in Do(p, a).slots && Do(p, a).slots[s].cached.None?
  }

  lemma CallersKeep(p: Pool, a: Action, s: SlotId, id: ConnId)
    requires HandshakesLock(p) && Enabled(p, a) && CallerStep(a) && CachedIs(p, s, id)
    ensures CachedIs(Do(p, a), s, id)
  {}

  lemma OthersKeepOrClear(p: Pool, a: Action, s: SlotId, id: ConnId)
    requires Enabled(p, a) && !CallerStep(a) && CachedIs(p, s, id)
    ensures CachedIs(Do(p, a), s, id) || Clears(p, a, s)
  {}

  lemma KeptOrCleared(p: Pool, a: Action, s: SlotId, id: ConnId)
    requires Inv(p) && Enabled(p, a) && CachedIs(p, s, id)
    ensures CachedIs(Do(p, a), s, id) || Clears(p, a, s)
  {
    hide Do, Enabled, Clears, CachedIs;
    if CallerStep(a) { CallersKeep(p, a, s, id); } else { OthersKeepOrClear(p, a, s, id); }
  }

  lemma ReturnedIsCached(p: Pool, a: Action, s: SlotId, id: ConnId)
    requires Inv(p) && Returns(p, a, s, id)
    ensures CachedIs(Do(p, a), s, id)
    ensures forall other :: CachedIs(p, s, other) ==> a.Reuse? && other == id
  {}

  /** Follows the connection of a slot through a run up to the first step that clears it. */
  lemma {:induction false} KeptUntilCleared(
    states: seq<Pool>, actions: seq<Action>, i: nat, j: nat, s: SlotId, id: ConnId) returns (c: nat)
    requires IsRun(states, actions) && i <= j < |states| && CachedIs(states[i], s, id)
    ensures i <= c <= j
    ensures c == j ==> CachedIs(states[j], s, id)
    ensures c < j ==> Clears(states[c], actions[c], s)
    decreases j - i
  {
    hide Do, Enabled, Clears;
    if i == j {
      c := i;
    } else {
      RunInv(states, actions, i);
      KeptOrCleared(states[i], actions[i], s, id);
      if Clears(states[i], actions[i], s) {
        c := i;
      } else {
        c := KeptUntilCleared(states, actions, i + 1, j, s, id);
      }
    }
  }

  /**
   * Two `get_or_create` calls on one slot return different connections only if a watcher, an
   * eviction or a pruner cleared that slot in between.
   */
  lemma DifferentIdsNeedClear(
    states: seq<Pool>, actions: seq<Action>, i: nat, j: nat, s: SlotId, first: ConnId, second: ConnId)
    returns (c: nat)
    requires IsRun(states, actions) && i < j < |actions|
    requires Returns(states[i], actions[i], s, first) && Returns(states[j], actions[j], s, second)
    requires first != second
    ensures i < c < j && Clears(states[c], actions[c], s)
  {
    hide Do, Enabled, Clears, Returns;
    RunInv(states, actions, i);
    ReturnedIsCached(states[i], actions[i], s, first);
    RunInv(states, actions, j);
    ReturnedIsCached(states[j], actions[j], s, second);
    c := KeptUntilCleared(states, actions, i + 1, j, s, first);
  }

  // ---------------------------------------------------------------------------------------------
  // What a slot holds, and what an eviction drops
  // ---------------------------------------------------------------------------------------------

  /** The action stores connection `id` in slot `s`. */
  predicate StoresOn(p: Pool, a: Action, s: SlotId, id: ConnId) {
    Enabled(p, a) && a.Store? && p.tasks[a.t].slot == s && p.tasks[a.t].id == id
  }

  /** None of the actions from `i` up to `j` clears `s`. */
  ghost predicate Undisturbed(states: seq<Pool>, actions: seq<Action>, i: nat, j: nat, s: SlotId)
    requires j <= |actions| <= |states|
  {
    forall d :: i <= d < j ==> !Clears(states[d], actions[d], s)
  }

  /** From `i` on, and before `j`, `id` was stored in `s` and `s` was not cleared after that. */
  ghost predicate StoredLast(states: seq<Pool>, actions: seq<Action>, i: nat, j: nat, s: SlotId, id: ConnId)
    requires j <= |actions| <= |states|
  {
    exists c :: i <= c < j && StoresOn(states[c], actions[c], s, id) && Undisturbed(states, actions, c + 1, j, s)
  }

  lemma CachedBeforeCaller(p: Pool, a: Action, s: SlotId, id: ConnId)
    requires HandshakesLock(p) && Enabled(p, a) && CallerStep(a) && CachedIs(Do(p, a), s, id)
    ensures StoresOn(p, a, s, id) || CachedIs(p, s, id)
  {}

  lemma CachedBeforeOther(p: Pool, a: Action, s: SlotId, id: ConnId)
    requires Enabled(p, a) && !CallerStep(a) && CachedIs(Do(p, a), s, id)
    ensures CachedIs(p, s, id)
  {}

  lemma CachedBefore(p: Pool, a: Action, s: SlotId, id: ConnId)
    requires Inv(p) && Enabled(p, a) && CachedIs(Do(p, a), s, id)
    ensures StoresOn(p, a, s, id) || (CachedIs(p, s, id) && !Clears(p, a, s))
  {
    hide Do, Enabled, StoresOn;
    if CallerStep(a) { CachedBeforeCaller(p, a, s, id); } else { CachedBeforeOther(p, a, s, id); }
  }

  lemma {:induction false} StoredBy(states: seq<Pool>, actions: seq<Action>, j: nat, s: SlotId, id: ConnId)
    returns (c: nat)
    requires IsRun(states, actions) && j < |states| && CachedIs(states[j], s, id)
    ensures c < j && StoresOn(states[c], actions[c], s, id) && Undisturbed(states, actions, c + 1, j, s)
  {
    hide Do, Enabled, Clears, StoresOn;
    if j > 0 {
      RunInv(states, actions, j - 1);
      CachedBefore(states[j - 1], actions[j - 1], s, id);
      if StoresOn(states[j - 1], actions[j - 1], s, id) {
        c := j - 1;
      } else {
        c := StoredBy(states, actions, j - 1, s, id);
      }
    }
  }

  lemma StoreCaches(p: Pool, a: Action, s: SlotId, id: ConnId)
    requires StoresOn(p, a, s, id)
    ensures CachedIs(Do(p, a), s, id) && InHandshake(p, a.t) && p.tasks[a.t].id == id
  {}

  lemma UndisturbedKeeps(states: seq<Pool>, actions: seq<Action>, i: nat, j: nat, s: SlotId, id: ConnId)
    requires IsRun(states, actions) && i <= j < |states| && CachedIs(states[i], s, id)
    requires Undisturbed(states, actions, i, j, s)
    ensures CachedIs(states[j], s, id)
  {
    hide Do, Enabled, Clears;
    var c := KeptUntilCleared(states, actions, i, j, s, id);
  }

  /** A slot holds a connection exactly if that was stored there and the slot was not cleared since. */
  lemma HeldExactly(states: seq<Pool>, actions: seq<Action>, j: nat, s: SlotId, id: ConnId)
    requires IsRun(states, actions) && j < |states|
    ensures CachedIs(states[j], s, id) <==> StoredLast(states, actions, 0, j, s, id)
  {
    hide Do, Enabled, Clears, StoresOn;
    if CachedIs(states[j], s, id) {
      var c := StoredBy(states, actions, j, s, id);
    }
    if StoredLast(states, actions, 0, j, s, id) {
      var c :| 0 <= c < j && StoresOn(states[c], actions[c], s, id) && Undisturbed(states, actions, c + 1, j, s);
      StoreCaches(states[c], actions[c], s, id);
      UndisturbedKeeps(states, actions, c + 1, j, s, id);
    }
  }

  /** Task `t` holds connection `id`, obtained from slot `s`. */
  predicate Got(p: Pool, t: TaskId, s: SlotId, id: ConnId) {
    t in p.tasks && p.tasks[t].Returned? && p.tasks[t].slot == s && p.tasks[t].id == id
  }

  lemma GotStep(p: Pool, a: Action, t: TaskId, s: SlotId, id: ConnId)
    requires Enabled(p, a) && (Got(p, t, s, id) || (Returns(p, a, s, id) && a.t == t))
    ensures Got(Do(p, a), t, s, id)
  {}

  lemma {:induction false} GotStays(states: seq<Pool>, actions: seq<Action>, i: nat, j: nat, s: SlotId, id: ConnId)
    requires IsRun(states, actions) && i < j < |states| && Returns(states[i], actions[i], s, id)
    ensures Got(states[j], actions[i].t, s, id)
    decreases j
  {
    var t := actions[i].t;
    hide Do, Enabled, Got, Returns;
    if i + 1 < j { GotStays(states, actions, i, j - 1, s, id); }
    GotStep(states[j - 1], actions[j - 1], t, s, id);
  }

  lemma EvictStep(p: Pool, t: TaskId)
    requires Enabled(p, Evict(t))
    ensures t in p.tasks && p.tasks[t].Returned? && p.tasks[t].key in p.conns
    ensures var u := p.conns[p.tasks[t].key];
            var q := Do(p, Evict(t));
            u in q.slots && q.slots[u] == Slot(None, None)
  {}

  /**
   * A task that got connection `id` from slot `s` evicts: whatever its key's slot `u` holds is dropped.
   * That is `id` exactly if `u` is still `s` and `s` was not cleared since; it is another connection
   * exactly if that one was stored in `u`, after the answer if `u` is `s`, and is still there.
   */
  lemma EvictDropsExactly(
    states: seq<Pool>, actions: seq<Action>, i: nat, j: nat, s: SlotId, id: ConnId, other: ConnId) returns (u: SlotId)
    requires IsRun(states, actions) && i < j < |actions|
    requires Returns(states[i], actions[i], s, id) && actions[j] == Evict(actions[i].t)
    requires other != id
    ensures var p := states[j];
            && Got(p, actions[i].t, s, id)
            && p.tasks[actions[i].t].key in p.conns && u == p.conns[p.tasks[actions[i].t].key]
    ensures u in states[j + 1].slots && states[j + 1].slots[u] == Slot(None, None)
    ensures CachedIs(states[j], u, id) <==> u == s && Undisturbed(states, actions, i + 1, j, s)
    ensures CachedIs(states[j], u, other) <==> StoredLast(states, actions, if u == s then i + 1 else 0, j, u, other)
  {
    var t := actions[i].t;
    hide Do, Enabled, Clears, StoresOn, Returns;
    GotStays(states, actions, i, j, s, id);
    EvictStep(states[j], t);
    u := states[j].conns[states[j].tasks[t].key];
    OwnExactly(states, actions, i, j, s, id, u);
    HeldExactly(states, actions, j, u, other);
    if u == s { OtherExactly(states, actions, i, j, s, id, other); }
  }

  /** After an answer, its connection is exactly in the slot it came from, until that is cleared. */
  lemma OwnExactly(states: seq<Pool>, actions: seq<Action>, i: nat, j: nat, s: SlotId, id: ConnId, u: SlotId)
    requires IsRun(states, actions) && i < j < |states| && Returns(states[i], actions[i], s, id)
    ensures CachedIs(states[j], u, id) <==> u == s && Undisturbed(states, actions, i + 1, j, s)
  {
    hide Do, Enabled, Clears, StoresOn, Returns, Established;
    RunInv(states, actions, i);
    ReturnedIsCached(states[i], actions[i], s, id);
    if CachedIs(states[j], u, id) {
      var c := StoredBy(states, actions, j, u, id);
      StoreCaches(states[c], actions[c], u, id);
      StoredEarlier(states, actions, i, c, s, id, u);
      UndisturbedKeeps(states, actions, c + 1, i + 1, u, id);
      StoredIdsUnique(states, actions, i + 1);
    }
    if Undisturbed(states, actions, i + 1, j, s) { UndisturbedKeeps(states, actions, i + 1, j, s, id); }
  }

  /** An id that was handed out is not stored again. */
  lemma StoredEarlier(states: seq<Pool>, actions: seq<Action>, i: nat, c: nat, s: SlotId, id: ConnId, u: SlotId)
    requires IsRun(states, actions) && i < |actions| && c < |actions|
    requires Returns(states[i], actions[i], s, id) && StoresOn(states[c], actions[c], u, id)
    ensures c <= i
  {
    var t := actions[c].t;
    hide Do, Enabled, StoresOn, Returns, Established;
    RunInv(states, actions, i);
    UsedSinceReturn(states[i], actions[i], s, id);
    StoreCaches(states[c], actions[c], u, id);
    if i < c {
      UsedSinceRun(states, actions, i + 1, c, id, states[i].clock);
      NotInHandshake(states[c], t, id);
    }
  }

  lemma OtherExactly(states: seq<Pool>, actions: seq<Action>, i: nat, j: nat, s: SlotId, id: ConnId, other: ConnId)
    requires IsRun(states, actions) && i < j < |states| && Returns(states[i], actions[i], s, id) && other != id
    ensures StoredLast(states, actions, 0, j, s, other) <==> StoredLast(states, actions, i + 1, j, s, other)
  {
    hide Do, Enabled, Clears, StoresOn, Returns;
    if StoredLast(states, actions, 0, j, s, other) {
      var c :| 0 <= c < j && StoresOn(states[c], actions[c], s, other) && Undisturbed(states, actions, c + 1, j, s);
      StoreCaches(states[c], actions[c], s, other);
      RunInv(states, actions, i);
      ReturnedIsCached(states[i], actions[i], s, id);
      if c <= i { UndisturbedKeeps(states, actions, c + 1, i + 1, s, other); }
    }
  }

  // ---------------------------------------------------------------------------------------------
  // Keys and their slots
  // ---------------------------------------------------------------------------------------------

  /** The key is in the pool in every state from `i` to `j`. */
  ghost predicate MappedThroughout(states: seq<Pool>, i: nat, j: nat, key: Key)
    requires j < |states|
  {
    forall d :: i <= d <= j ==> key in states[d].conns
  }

  /** A key keeps its slot while it is mapped; mapped anew, it gets a slot that did not exist. */
  lemma MapStep(p: Pool, a: Action, key: Key)
    requires Enabled(p, a) && key in Do(p, a).conns
    ensures if key in p.conns then Do(p, a).conns[key] == p.conns[key] else Do(p, a).conns[key] !in p.slots
  {}

  lemma SlotsStep(p: Pool, a: Action)
    requires Enabled(p, a)
    ensures p.slots.Keys <= Do(p, a).slots.Keys
  {}

  lemma {:induction false} SlotsStay(states: seq<Pool>, actions: seq<Action>, i: nat, j: nat)
    requires IsRun(states, actions) && i <= j < |states|
    ensures states[i].slots.Keys <= states[j].slots.Keys
    decreases j
  {
    hide Do, Enabled;
    if i < j {
      SlotsStay(states, actions, i, j - 1);
      SlotsStep(states[j - 1], actions[j - 1]);
    }
  }

  /** At two moments a key has the same slot exactly if it was never out of the pool in between. */
  lemma {:induction false} SameSlotExactly(states: seq<Pool>, actions: seq<Action>, i: nat, j: nat, key: Key)
    requires IsRun(states, actions) && i <= j < |states| && key in states[i].conns && key in states[j].conns
    ensures states[j].conns[key] == states[i].conns[key] <==> MappedThroughout(states, i, j, key)
    decreases j
  {
    hide Do, Enabled;
    if i < j {
      MapStep(states[j - 1], actions[j - 1], key);
      if key in states[j - 1].conns {
        SameSlotExactly(states, actions, i, j - 1, key);
      } else {
        RunInv(states, actions, i);
        SlotsStay(states, actions, i, j - 1);
      }
    }
  }

  /** Task `t` asked for `key` and was given slot `s`, unless it gave up. */
  predicate Asked(p: Pool, t: TaskId, key: Key, s: SlotId) {
    && t in p.tasks
    && ((p.tasks[t].Waiting? || p.tasks[t].Handshake? || p.tasks[t].Returned?) ==>
          p.tasks[t].key == key && p.tasks[t].slot == s)
    && !p.tasks[t].Pruning? && !p.tasks[t].Scanning?
  }

  lemma AskedStep(p: Pool, a: Action, t: TaskId, key: Key, s: SlotId)
    requires Enabled(p, a) && Asked(p, t, key, s)
    ensures Asked(Do(p, a), t, key, s)
  {}

  lemma EnterAsks(p: Pool, t: TaskId, key: Key, newSlot: SlotId)
    requires Enabled(p, Enter(t, key, newSlot))
    ensures var q := Do(p, Enter(t, key, newSlot)); key in q.conns && Asked(q, t, key, q.conns[key])
  {}

  lemma {:induction false} AskedStays(
    states: seq<Pool>, actions: seq<Action>, e: nat, j: nat, t: TaskId, key: Key, newSlot: SlotId)
    requires IsRun(states, actions) && e < j < |states| && actions[e] == Enter(t, key, newSlot)
    ensures key in states[e + 1].conns && Asked(states[j], t, key, states[e + 1].conns[key])
    decreases j
  {
    hide Do, Enabled, Asked;
    if j == e + 1 {
      EnterAsks(states[e], t, key, newSlot);
    } else {
      AskedStays(states, actions, e, j - 1, t, key, newSlot);
      AskedStep(states[j - 1], actions[j - 1], t, key, states[e + 1].conns[key]);
    }
  }

  /** An eviction reaches the slot its caller was served from exactly if the key stayed in the pool since then. */
  lemma EvictReachesExactly(
    states: seq<Pool>, actions: seq<Action>, e: nat, j: nat, t: TaskId, key: Key, newSlot: SlotId)
    requires IsRun(states, actions) && e < j < |actions|
    requires actions[e] == Enter(t, key, newSlot) && actions[j] == Evict(t)
    ensures var p := states[j];
            && t in p.tasks && p.tasks[t].Returned? && p.tasks[t].key == key && key in p.conns
            && (p.conns[key] == p.tasks[t].slot <==> MappedThroughout(states, e + 1, j, key))
  {
    hide Do, Enabled;
    AskedStays(states, actions, e, j, t, key, newSlot);
    EvictStep(states[j], t);
    SameSlotExactly(states, actions, e + 1, j, key);
  }

  // ---------------------------------------------------------------------------------------------
  // Idle scans
  // ---------------------------------------------------------------------------------------------

  /** Connection `id` is past its handshake. */
  ghost predicate Established(p: Pool, id: ConnId) {
    id < p.nextId && forall t :: InHandshake(p, t) ==> p.tasks[t].id != id
  }

  /** Wherever `id` is stored it was used at `u` or later. */
  ghost predicate UsedSince(p: Pool, id: ConnId, u: Time) {
    u <= p.clock && forall s :: CachedIs(p, s, id) ==> p.slots[s].cached.value.lastUsed >= u
  }

  lemma NotInHandshake(p: Pool, t: TaskId, id: ConnId)
    requires Established(p, id) && InHandshake(p, t)
    ensures p.tasks[t].id != id
  {}

  lemma EstablishedStep(p: Pool, a: Action, id: ConnId)
    requires Enabled(p, a) && Established(p, id)
    ensures Established(Do(p, a), id)
  {}

  lemma UsedSinceStep(p: Pool, a: Action, id: ConnId, u: Time)
    requires Enabled(p, a) && Established(p, id) && UsedSince(p, id, u)
    ensures UsedSince(Do(p, a), id, u)
  {}

  lemma NotInTwoPlaces(p: Pool, s: SlotId, id: ConnId)
    requires Inv(p) && CachedIs(p, s, id)
    ensures Established(p, id) && forall u :: CachedIs(p, u, id) ==> u == s
  {
    assert Watched(p, id, s);
    forall t | InHandshake(p, t) ensures p.tasks[t].id != id {
      assert p.tasks[t].spawned ==> Watched(p, p.tasks[t].id, p.tasks[t].slot);
    }
    forall u | CachedIs(p, u, id) ensures u == s {
      assert Watched(p, id, u);
    }
  }

  lemma UsedSinceReturn(p: Pool, a: Action, s: SlotId, id: ConnId)
    requires Inv(p) && Returns(p, a, s, id)
    ensures Established(Do(p, a), id) && UsedSince(Do(p, a), id, p.clock)
  {
    hide Enabled, Do;
    InvStep(p, a) by { assert Enabled(p, a); }
    ReturnedIsCached(p, a, s, id);
    NotInTwoPlaces(Do(p, a), s, id);
    ReturnedNow(p, a, s, id);
  }

  lemma ReturnedNow(p: Pool, a: Action, s: SlotId, id: ConnId)
    requires Returns(p, a, s, id)
    ensures var q := Do(p, a);
            q.clock == p.clock && CachedIs(q, s, id) && q.slots[s].cached.value.lastUsed == p.clock
  {}

  lemma {:induction false} UsedSinceRun(
    states: seq<Pool>, actions: seq<Action>, i: nat, j: nat, id: ConnId, u: Time)
    requires IsRun(states, actions) && i <= j < |states| && Established(states[i], id) && UsedSince(states[i], id, u)
    ensures Established(states[j], id) && UsedSince(states[j], id, u)
    decreases j
  {
    hide Do, Enabled, UsedSince, Established;
    if i < j {
      UsedSinceRun(states, actions, i, j - 1, id, u);
      EstablishedStep(states[j - 1], actions[j - 1], id);
      UsedSinceStep(states[j - 1], actions[j - 1], id, u);
    }
  }

  /**
   * A connection handed out at time `u` is closed as idle only by a scan that began at least the
   * idle limit after `u`.
   */
  lemma IdleSparesRecent(states: seq<Pool>, actions: seq<Action>, i: nat, j: nat, s: SlotId, id: ConnId, from: SlotId)
    requires IsRun(states, actions) && i < j < |actions|
    requires Returns(states[i], actions[i], s, id)
    requires actions[j].ScanVisit? && actions[j].slot == from
    requires CachedIs(states[j], from, id) && Clears(states[j], actions[j], from)
    ensures var scan := states[j].tasks[actions[j].t];
            scan.now >= states[i].clock + scan.maxIdle
  {
    RunInv(states, actions, i);
    UsedSinceReturn(states[i], actions[i], s, id);
    UsedSinceRun(states, actions, i + 1, j, id, states[i].clock);
    RunInv(states, actions, j);
    ScanClearsIdle(states[j], actions[j].t, from);
  }

  lemma ScanClearsIdle(p: Pool, t: TaskId, s: SlotId)
    requires Inv(p) && Clears(p, ScanVisit(t, s), s)
    ensures p.tasks[t].Scanning?
    ensures p.slots[s].cached.value.lastUsed + p.tasks[t].maxIdle <= p.tasks[t].now
  {}

  /** Slot `s` holds no connection that had reached the scan's limit when the scan began. */
  ghost predicate Swept(p: Pool, t: TaskId, s: SlotId)
    requires t in p.tasks && p.tasks[t].Scanning?
  {
    s in p.slots && (p.slots[s].cached.Some? ==> p.tasks[t].now < p.slots[s].cached.value.lastUsed + p.tasks[t].maxIdle)
  }

  /** The scan, begun at `now`, has swept slot `s` or has it on its list. */
  ghost predicate Sweeps(p: Pool, t: TaskId, now: Time, maxIdle: Time, s: SlotId) {
    && t in p.tasks && p.tasks[t].Scanning? && p.tasks[t].now == now && p.tasks[t].maxIdle == maxIdle
    && (s in p.tasks[t].visit || Swept(p, t, s))
  }

  /** The scan sweeps the slots of all keys in the shards it has read. */
  ghost predicate SweepsRead(p: Pool, t: TaskId, now: Time, maxIdle: Time) {
    && t in p.tasks && p.tasks[t].Scanning? && p.tasks[t].now == now && p.tasks[t].maxIdle == maxIdle
    && forall k :: k in p.conns && p.layout.Of(k) < p.tasks[t].next ==> Sweeps(p, t, now, maxIdle, p.conns[k])
  }

  lemma SweepsStep(p: Pool, a: Action, t: TaskId, now: Time, maxIdle: Time, s: SlotId)
    requires ScansPast(p) && Enabled(p, a) && Sweeps(p, t, now, maxIdle, s)
    ensures Sweeps(Do(p, a), t, now, maxIdle, s)
  {}

  lemma SweepsInserted(p: Pool, a: Action, t: TaskId, now: Time, maxIdle: Time, k: Key)
    requires Enabled(p, a) && SweepsRead(p, t, now, maxIdle) && k !in p.conns && k in Do(p, a).conns
    ensures Sweeps(Do(p, a), t, now, maxIdle, Do(p, a).conns[k])
  {}

  lemma SweepsCollected(p: Pool, a: Action, t: TaskId, now: Time, maxIdle: Time, k: Key)
    requires Enabled(p, a) && SweepsRead(p, t, now, maxIdle)
    requires k in p.conns && k in Do(p, a).conns
    requires t in Do(p, a).tasks && Do(p, a).tasks[t].Scanning?
    requires p.tasks[t].next <= p.layout.Of(k) < Do(p, a).tasks[t].next
    ensures Sweeps(Do(p, a), t, now, maxIdle, Do(p, a).conns[k])
  {
    assert a == Collect(t);
    assert Shard(p, p.tasks[t].next)[k] == p.conns[k];
  }

  /** The slot of a key new to the shards read is on the list, or is itself new. */
  lemma SweepsNew(p: Pool, a: Action, t: TaskId, now: Time, maxIdle: Time, k: Key)
    requires Enabled(p, a) && SweepsRead(p, t, now, maxIdle)
    requires t in Do(p, a).tasks && Do(p, a).tasks[t].Scanning?
    requires k in Do(p, a).conns && p.layout.Of(k) < Do(p, a).tasks[t].next
    requires k !in p.conns || p.layout.Of(k) >= p.tasks[t].next
    ensures Sweeps(Do(p, a), t, now, maxIdle, Do(p, a).conns[k])
  {
    hide Do, Enabled, Sweeps;
    if k in p.conns { SweepsCollected(p, a, t, now, maxIdle, k); } else { SweepsInserted(p, a, t, now, maxIdle, k); }
  }

  lemma ScanStays(p: Pool, a: Action, t: TaskId)
    requires Enabled(p, a) && t in p.tasks && p.tasks[t].Scanning?
    ensures var q := Do(p, a);
            && q.layout == p.layout
            && t in q.tasks && q.tasks[t].Scanning? && q.tasks[t].now == p.tasks[t].now
            && q.tasks[t].maxIdle == p.tasks[t].maxIdle
  {}

  lemma SweepsReadStep(p: Pool, a: Action, t: TaskId, now: Time, maxIdle: Time)
    requires Inv(p) && Enabled(p, a) && SweepsRead(p, t, now, maxIdle)
    ensures SweepsRead(Do(p, a), t, now, maxIdle)
  {
    hide Do, Enabled, Sweeps;
    ScanStays(p, a, t);
    var q := Do(p, a);
    forall k | k in q.conns && q.layout.Of(k) < q.tasks[t].next ensures Sweeps(q, t, now, maxIdle, q.conns[k]) {
      if k !in p.conns || p.layout.Of(k) >= p.tasks[t].next {
        SweepsNew(p, a, t, now, maxIdle, k);
      } else {
        SweepsStep(p, a, t, now, maxIdle, p.conns[k]);
        MapStep(p, a, k);
      }
    }
  }

  lemma {:induction false} SweepsRun(
    states: seq<Pool>, actions: seq<Action>, i: nat, j: nat, t: TaskId, maxIdle: Time)
    requires IsRun(states, actions) && i < j < |states| && actions[i] == ScanStart(t, maxIdle)
    ensures SweepsRead(states[j], t, states[i].clock, maxIdle)
    decreases j
  {
    hide SweepsRead, Do, Enabled;
    if j == i + 1 {
      ScanBegins(states, actions, i, t, maxIdle);
    } else {
      SweepsRun(states, actions, i, j - 1, t, maxIdle);
      RunInv(states, actions, j - 1);
      SweepsReadStep(states[j - 1], actions[j - 1], t, states[i].clock, maxIdle);
    }
  }

  lemma ScanBegins(states: seq<Pool>, actions: seq<Action>, i: nat, t: TaskId, maxIdle: Time)
    requires IsRun(states, actions) && i < |actions| && actions[i] == ScanStart(t, maxIdle)
    ensures SweepsRead(states[i + 1], t, states[i].clock, maxIdle)
  {}

  /** The scan has read every shard and visited every slot on its list. */
  ghost predicate ScanOver(p: Pool, t: TaskId) {
    Scans(p, t) && p.tasks[t].visit == {}
  }

  /**
   * When a scan is over, no key is left with a connection that had reached the limit when the scan
   * began, whatever happened meanwhile.
   */
  lemma ScanClosesIdle(states: seq<Pool>, actions: seq<Action>, i: nat, j: nat, t: TaskId, maxIdle: Time, key: Key)
    requires IsRun(states, actions) && i < j < |states| && actions[i] == ScanStart(t, maxIdle)
    requires ScanOver(states[j], t) && key in states[j].conns
    ensures var s := states[j].conns[key];
            && s in states[j].slots
            && (states[j].slots[s].cached.Some? ==>
                  states[i].clock < states[j].slots[s].cached.value.lastUsed + maxIdle)
  {
    hide Do, Enabled;
    SweepsRun(states, actions, i, j, t, maxIdle);
    assert Sweeps(states[j], t, states[i].clock, maxIdle, states[j].conns[key]);
  }

  /** The action is a step of `t` that reads the shard of `key`, and finds it. */
  predicate Reads(p: Pool, a: Action, t: TaskId, key: Key) {
    Enabled(p, a) && a == Collect(t) && key in p.conns && p.layout.Of(key) == p.tasks[t].next
  }

  lemma ReadListed(p: Pool, a: Action, t: TaskId, key: Key)
    requires Reads(p, a, t, key) && p.tasks[t].Scanning?
    ensures Sweeps(Do(p, a), t, p.tasks[t].now, p.tasks[t].maxIdle, p.conns[key])
  {
    assert Shard(p, p.tasks[t].next)[key] == p.conns[key];
  }

  /** The same for every slot that the scan found, also if its key was removed meanwhile. */
  lemma {:induction false} ScanClosesListed(
    states: seq<Pool>, actions: seq<Action>, c: nat, j: nat, t: TaskId, key: Key)
    requires IsRun(states, actions) && c < j < |states|
    requires Reads(states[c], actions[c], t, key) && states[c].tasks[t].Scanning?
    ensures var task := states[c].tasks[t];
            Sweeps(states[j], t, task.now, task.maxIdle, states[c].conns[key])
    decreases j
  {
    var task, s := states[c].tasks[t], states[c].conns[key];
    hide Do, Enabled, Sweeps, Reads;
    if j == c + 1 {
      ReadListed(states[c], actions[c], t, key);
    } else {
      ScanClosesListed(states, actions, c, j - 1, t, key);
      RunInv(states, actions, j - 1);
      SweepsStep(states[j - 1], actions[j - 1], t, task.now, task.maxIdle, s);
    }
  }
}
