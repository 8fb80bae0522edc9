/** What pruning the pool to the active endpoints leaves, spares and closes, over every interleaving. */
module GrpcPoolPruning {
  import opened Prelude
  import opened PoolKeys
  import opened GrpcPool
  import opened GrpcPoolTheorems
  import opened Nodes
  import Routing

  // ---------------------------------------------------------------------------------------------
  // What is left
  // ---------------------------------------------------------------------------------------------

  /** Key `k` was inserted by one of the actions from `i` up to `j`. */
  ghost predicate Inserted(states: seq<Pool>, i: nat, j: nat, k: Key)
    requires i <= j < |states|
  {
    exists c :: i <= c < j && k !in states[c].conns && k in states[c + 1].conns
  }

  predicate PrunesFor(p: Pool, t: TaskId, active: set<Key>) {
    t in p.tasks && p.tasks[t].Pruning? && p.tasks[t].active == active
  }

  /** The key is on the pruner's list or in a shard it has not read. */
  ghost predicate Pending(p: Pool, t: TaskId, k: Key)
    requires t in p.tasks && p.tasks[t].Pruning?
  {
    k in p.tasks[t].todo || p.layout.Of(k) >= p.tasks[t].next
  }

  lemma PruneProgress(p: Pool, a: Action, t: TaskId, active: set<Key>)
    requires Enabled(p, a) && PrunesFor(p, t, active)
    ensures a != PruneDone(t) ==> PrunesFor(Do(p, a), t, active)
    ensures a == PruneDone(t) ==> t in Do(p, a).tasks && Do(p, a).tasks[t].Pruned?
  {}

  lemma PendingRead(p: Pool, t: TaskId, active: set<Key>, k: Key)
    requires Enabled(p, Collect(t)) && PrunesFor(p, t, active)
    requires k in p.conns && k !in active && Pending(p, t, k)
    ensures var q := Do(p, Collect(t)); PrunesFor(q, t, active) && Pending(q, t, k)
  {
    assert p.layout.Of(k) == p.tasks[t].next ==> k in Shard(p, p.tasks[t].next) - active;
  }

  lemma PendingRemove(p: Pool, t: TaskId, active: set<Key>, key: Key, k: Key)
    requires Enabled(p, PruneRemove(t, key)) && PrunesFor(p, t, active) && Pending(p, t, k)
    requires k in Do(p, PruneRemove(t, key)).conns
    ensures var q := Do(p, PruneRemove(t, key)); PrunesFor(q, t, active) && Pending(q, t, k)
  {}

  /** No other action touches the list of a pruner or how far it has read. */
  lemma ListKept(p: Pool, a: Action, t: TaskId)
    requires Enabled(p, a) && t in p.tasks && p.tasks[t].Pruning? && a != PruneDone(t) && a != Collect(t)
    requires !a.PruneRemove? || a.t != t
    ensures var q := Do(p, a);
            && q.layout == p.layout && t in q.tasks
            && (q.tasks[t] == p.tasks[t] || q.tasks[t] == p.tasks[t].(clearing := None))
  {}

  lemma PendingStep(p: Pool, a: Action, t: TaskId, active: set<Key>, k: Key)
    requires Enabled(p, a) && PrunesFor(p, t, active) && a != PruneDone(t)
    requires k in p.conns && k in Do(p, a).conns && k !in active && Pending(p, t, k)
    ensures PrunesFor(Do(p, a), t, active) && Pending(Do(p, a), t, k)
  {
    hide Do, Enabled;
    if a == Collect(t) {
      PendingRead(p, t, active, k);
    } else if a.PruneRemove? && a.t == t {
      PendingRemove(p, t, active, a.key, k);
    } else {
      ListKept(p, a, t);
    }
  }

  lemma PrunedStays(p: Pool, a: Action, t: TaskId)
    requires Enabled(p, a) && t in p.tasks && p.tasks[t].Pruned?
    ensures t in Do(p, a).tasks && Do(p, a).tasks[t].Pruned?
  {}

  lemma PruneBegins(p: Pool, t: TaskId, active: set<Key>)
    requires Enabled(p, PruneStart(t, active))
    ensures PrunesFor(Do(p, PruneStart(t, active)), t, active) && Do(p, PruneStart(t, active)).tasks[t].next == 0
  {}

  lemma {:induction false} PruneTracks(
    states: seq<Pool>, actions: seq<Action>, i: nat, j: nat, t: TaskId, active: set<Key>)
    requires IsRun(states, actions) && i < j < |states| && actions[i] == PruneStart(t, active)
    ensures PrunesFor(states[j], t, active) || (t in states[j].tasks && states[j].tasks[t].Pruned?)
    ensures PrunesFor(states[j], t, active) ==>
              forall k :: k in states[j].conns && k !in active ==>
                Pending(states[j], t, k) || Inserted(states, i + 1, j, k)
    decreases j
  {
    hide Do, Enabled;
    if j == i + 1 {
      PruneBegins(states[i], t, active);
    } else {
      PruneTracks(states, actions, i, j - 1, t, active);
      var p, q := states[j - 1], states[j];
      if p.tasks[t].Pruned? {
        PrunedStays(p, actions[j - 1], t);
      } else {
        PruneProgress(p, actions[j - 1], t, active);
        if PrunesFor(q, t, active) {
          forall k | k in q.conns && k !in active ensures Pending(q, t, k) || Inserted(states, i + 1, j, k) {
            TracksKey(states, actions, i, j, t, active, k);
          }
        }
      }
    }
  }

  lemma TracksKey(states: seq<Pool>, actions: seq<Action>, i: nat, j: nat, t: TaskId, active: set<Key>, k: Key)
    requires IsRun(states, actions) && i + 1 < j < |states|
    requires PrunesFor(states[j - 1], t, active) && PrunesFor(states[j], t, active)
    requires k in states[j].conns && k !in active
    requires k in states[j - 1].conns ==> Pending(states[j - 1], t, k) || Inserted(states, i + 1, j - 1, k)
    ensures Pending(states[j], t, k) || Inserted(states, i + 1, j, k)
  {
    hide Do, Enabled, Pending;
    if k !in states[j - 1].conns {
      assert k !in states[j - 1].conns && k in states[j - 1 + 1].conns;
    } else if Inserted(states, i + 1, j - 1, k) {
      var c :| i + 1 <= c < j - 1 && k !in states[c].conns && k in states[c + 1].conns;
    } else {
      PruneProgress(states[j - 1], actions[j - 1], t, active);
      PendingStep(states[j - 1], actions[j - 1], t, active, k);
    }
  }

  lemma DoneListsNothing(p: Pool, t: TaskId, k: Key)
    requires Enabled(p, PruneDone(t))
    ensures t in p.tasks && p.tasks[t].Pruning? && !Pending(p, t, k)
  {}

  /**
   * When `prune_to_endpoints` ends, every key left in the pool is that of an active endpoint or was
   * inserted after the pruner began.
   */
  lemma PruneLeavesActive(
    states: seq<Pool>, actions: seq<Action>, i: nat, j: nat, t: TaskId, endpoints: set<Endpoint>, e: Endpoint)
    requires IsRun(states, actions) && i < j < |actions|
    requires actions[i] == PruneStart(t, KeysOf(endpoints)) && actions[j] == PruneDone(t)
    requires SocketAddrText(e.addr) && forall x :: x in endpoints ==> SocketAddrText(x.addr)
    requires PoolKey(e) in states[j].conns
    ensures e in endpoints || Inserted(states, i + 1, j, PoolKey(e))
  {
    hide Do, Enabled, KeysOf;
    PruneTracks(states, actions, i, j, t, KeysOf(endpoints));
    DoneListsNothing(states[j], t, PoolKey(e));
    ActiveKeysExact(endpoints, e);
  }

  /**
   * So after a reload to a table of these nodes, each gRPC endpoint left in the pool is the address and
   * TLS server name of one of its gRPC nodes, or was inserted after the pruner began.
   */
  lemma PruneLeavesRouted(
    states: seq<Pool>, actions: seq<Action>, i: nat, j: nat, t: TaskId,
    parsers: Routing.Parsers, nodes: seq<VMessNode>, e: Endpoint)
    requires IsRun(states, actions) && i < j < |actions|
    requires actions[i] == PruneStart(t, KeysOf(Routing.GrpcEndpoints(Routing.Entries(nodes))))
    requires actions[j] == PruneDone(t)
    requires Routing.Routable(parsers, nodes) && forall text :: parsers.socketAddr(text) ==> SocketAddrText(text)
    requires SocketAddrText(e.addr) && PoolKey(e) in states[j].conns
    ensures || Inserted(states, i + 1, j, PoolKey(e))
            || exists k :: && 0 <= k < |nodes| && nodes[k].network == "grpc" && e.sni == nodes[k].sni
                           && e.addr == nodes[k].server + ":" + Decimal(nodes[k].port)
  {
    hide Do, Enabled, KeysOf, Decimal, Routing.GrpcEndpoints, Routing.Routable, IsRun;
    var endpoints := Routing.GrpcEndpoints(Routing.Entries(nodes));
    Routing.RoutableExactly(parsers, nodes);
    forall x | x in endpoints ensures SocketAddrText(x.addr) {
      Routing.EndpointsExactly(nodes, x);
    }
    PruneLeavesActive(states, actions, i, j, t, endpoints, e);
    Routing.EndpointsExactly(nodes, e);
  }

  /** A pruner removes no key of an endpoint that is active for it, and leaves the others' slots alone. */
  lemma PruneSparesActive(states: seq<Pool>, actions: seq<Action>, i: nat, t: TaskId, key: Key, k: Key)
    requires IsRun(states, actions) && i < |actions| && actions[i] == PruneRemove(t, key)
    requires k in states[i].conns
    ensures t in states[i].tasks && states[i].tasks[t].Pruning?
    ensures k in states[i].tasks[t].active ==>
              k in states[i + 1].conns && states[i + 1].conns[k] == states[i].conns[k]
  {
    RunInv(states, actions, i);
    assert Enabled(states[i], actions[i]);
  }

  // ---------------------------------------------------------------------------------------------
  // What is closed
  // ---------------------------------------------------------------------------------------------

  /** Task `t` waits for the lock of the slot whose key it removed. */
  predicate Clearing(p: Pool, t: TaskId, s: SlotId) {
    t in p.tasks && p.tasks[t].Pruning? && p.tasks[t].clearing == Some(s)
  }

  lemma ClearingStep(p: Pool, a: Action, t: TaskId, s: SlotId)
    requires Enabled(p, a) && Clearing(p, t, s)
    ensures a == PruneClear(t) || Clearing(Do(p, a), t, s)
    ensures a == PruneClear(t) ==> s in Do(p, a).slots && Do(p, a).slots[s] == Slot(None, None)
  {}

  lemma {:induction false} ClearedBefore(states: seq<Pool>, actions: seq<Action>, i: nat, j: nat, t: TaskId, s: SlotId)
    returns (c: nat)
    requires IsRun(states, actions) && i <= j < |states| && Clearing(states[i], t, s) && !Clearing(states[j], t, s)
    ensures i <= c < j && actions[c] == PruneClear(t)
    ensures s in states[c + 1].slots && states[c + 1].slots[s] == Slot(None, None)
    decreases j - i
  {
    hide Do, Enabled, Clearing;
    if i < j { ClearingStep(states[i], actions[i], t, s); }
    if i < j && actions[i] == PruneClear(t) {
      c := i;
    } else {
      c := ClearedBefore(states, actions, i + 1, j, t, s);
    }
  }

  /** The pruner lists the key with slot `s`. */
  predicate Lists(p: Pool, t: TaskId, key: Key, s: SlotId) {
    t in p.tasks && p.tasks[t].Pruning? && key in p.tasks[t].todo && p.tasks[t].todo[key] == s
  }

  lemma ListsStep(p: Pool, a: Action, t: TaskId, key: Key, s: SlotId)
    requires Enabled(p, a) && Lists(Do(p, a), t, key, s)
    ensures Lists(p, t, key, s) || (Reads(p, a, t, key) && p.conns[key] == s)
  {}

  /** Finds the step that put a key on the list, where it has been since. */
  lemma {:induction false} ListedSince(states: seq<Pool>, actions: seq<Action>, i: nat, t: TaskId, key: Key, s: SlotId)
    returns (r: nat)
    requires IsRun(states, actions) && i < |states| && Lists(states[i], t, key, s)
    ensures r < i && Reads(states[r], actions[r], t, key) && states[r].conns[key] == s
    ensures forall d :: r < d <= i ==> Lists(states[d], t, key, s)
  {
    hide Do, Enabled, Reads;
    if i > 0 {
      ListsStep(states[i - 1], actions[i - 1], t, key, s);
      if Lists(states[i - 1], t, key, s) {
        r := ListedSince(states, actions, i - 1, t, key, s);
      } else {
        r := i - 1;
        assert Reads(states[r], actions[r], t, key);
      }
    }
  }

  lemma RemoveStep(p: Pool, t: TaskId, key: Key)
    requires Enabled(p, PruneRemove(t, key))
    ensures t in p.tasks && p.tasks[t].Pruning? && key in p.tasks[t].todo
    ensures key in p.conns ==> Clearing(Do(p, PruneRemove(t, key)), t, p.tasks[t].todo[key])
    ensures key !in Do(p, PruneRemove(t, key)).conns
    ensures forall s :: !Lists(Do(p, PruneRemove(t, key)), t, key, s)
  {}

  lemma NoneClearing(p: Pool, t: TaskId, s: SlotId)
    requires Enabled(p, PruneDone(t))
    ensures !Clearing(p, t, s)
  {}

  /**
   * A pruner that removes a key empties, before it ends, the slot it had read for that key. That is the
   * slot it removes exactly if the key was never out of the pool since it was read.
   */
  lemma PruneClosesRemoved(states: seq<Pool>, actions: seq<Action>, i: nat, j: nat, t: TaskId, key: Key)
    returns (r: nat, c: nat)
    requires IsRun(states, actions) && i < j < |actions|
    requires actions[i] == PruneRemove(t, key) && actions[j] == PruneDone(t) && key in states[i].conns
    ensures r < i && Reads(states[r], actions[r], t, key)
    ensures forall d :: r < d <= i ==> Lists(states[d], t, key, states[r].conns[key])
    ensures i < c < j && actions[c] == PruneClear(t)
    ensures var s := states[r].conns[key]; s in states[c + 1].slots && states[c + 1].slots[s] == Slot(None, None)
    ensures states[i].conns[key] == states[r].conns[key] <==> MappedThroughout(states, r, i, key)
  {
    hide Do, Enabled;
    RemoveStep(states[i], t, key);
    var s := states[i].tasks[t].todo[key];
    r := ListedSince(states, actions, i, t, key, s);
    NoneClearing(states[j], t, s);
    c := ClearedBefore(states, actions, i + 1, j, t, s);
    SameSlotExactly(states, actions, r, i, key);
  }

  lemma ClearingBefore(p: Pool, a: Action, t: TaskId, s: SlotId)
    requires Enabled(p, a) && Clearing(Do(p, a), t, s)
    ensures Clearing(p, t, s) ||
            (a.PruneRemove? && a.t == t && a.key in p.conns && a.key !in Do(p, a).conns && Lists(p, t, a.key, s))
  {}

  lemma {:induction false} ClearingSince(states: seq<Pool>, actions: seq<Action>, j: nat, t: TaskId, s: SlotId)
    returns (i: nat, key: Key)
    requires IsRun(states, actions) && j < |states| && Clearing(states[j], t, s)
    ensures i < j && actions[i] == PruneRemove(t, key) && Lists(states[i], t, key, s)
    ensures key in states[i].conns && key !in states[i + 1].conns
  {
    hide Do, Enabled, Clearing, Lists;
    if j == 0 {
      NoneClearingAtStart(states[0], t, s);
    } else {
      ClearingBefore(states[j - 1], actions[j - 1], t, s);
      if Clearing(states[j - 1], t, s) {
        i, key := ClearingSince(states, actions, j - 1, t, s);
      } else {
        i, key := j - 1, actions[j - 1].key;
      }
    }
  }

  lemma NoneClearingAtStart(p: Pool, t: TaskId, s: SlotId)
    requires p == Empty(p.layout)
    ensures !Clearing(p, t, s)
  {}

  lemma ClearNeeds(p: Pool, t: TaskId)
    requires Enabled(p, PruneClear(t))
    ensures t in p.tasks && p.tasks[t].Pruning? && p.tasks[t].clearing.Some?
    ensures Clearing(p, t, p.tasks[t].clearing.value)
  {}

  /** A pruner empties a slot only after it removed the key for which it had read that slot. */
  lemma PruneClearsOnlyRemoved(states: seq<Pool>, actions: seq<Action>, j: nat, t: TaskId)
    returns (i: nat, key: Key, s: SlotId)
    requires IsRun(states, actions) && j < |actions| && actions[j] == PruneClear(t)
    ensures Clearing(states[j], t, s)
    ensures i < j && actions[i] == PruneRemove(t, key) && Lists(states[i], t, key, s)
    ensures key in states[i].conns && key !in states[i + 1].conns
  {
    hide Do, Enabled, Lists;
    ClearNeeds(states[j], t);
    s := states[j].tasks[t].clearing.value;
    i, key := ClearingSince(states, actions, j, t, s);
  }

  /** Since task `t` exists no other task has removed a key: pruners run one at a time. */
  ghost predicate OnlyPruner(states: seq<Pool>, actions: seq<Action>, t: TaskId, i: nat)
    requires i <= |actions| <= |states|
  {
    forall d :: 0 <= d < i && actions[d].PruneRemove? && t in states[d].tasks ==> actions[d].t == t
  }

  lemma LeavesOnlyRemoved(p: Pool, a: Action, key: Key)
    requires Enabled(p, a) && key in p.conns && key !in Do(p, a).conns
    ensures a.PruneRemove? && a.key == key
  {}

  /** With one pruner at a time, the slot of every key that is removed is emptied before the pruner ends. */
  lemma PruneClosesAlone(states: seq<Pool>, actions: seq<Action>, i: nat, j: nat, t: TaskId, key: Key) returns (c: nat)
    requires IsRun(states, actions) && i < j < |actions| && OnlyPruner(states, actions, t, i)
    requires actions[i] == PruneRemove(t, key) && actions[j] == PruneDone(t) && key in states[i].conns
    ensures i < c < j && actions[c] == PruneClear(t)
    ensures var s := states[i].conns[key]; s in states[c + 1].slots && states[c + 1].slots[s] == Slot(None, None)
  {
    var r;
    r, c := PruneClosesRemoved(states, actions, i, j, t, key);
    assert key in states[r].conns;
    ghost var s := states[r].conns[key];
    hide Do, Enabled, Reads;
    StaysMapped(states, actions, r, i, t, key, s);
  }

  lemma {:induction false} StaysMapped(
    states: seq<Pool>, actions: seq<Action>, r: nat, i: nat, t: TaskId, key: Key, s: SlotId)
    requires IsRun(states, actions) && r <= i < |states| && OnlyPruner(states, actions, t, i)
    requires key in states[r].conns && t in states[r].tasks
    requires forall d :: r < d <= i ==> Lists(states[d], t, key, s)
    ensures MappedThroughout(states, r, i, key)
    decreases i
  {
    hide Do, Enabled;
    if r < i {
      StaysMapped(states, actions, r, i - 1, t, key, s);
      if key !in states[i].conns {
        LeavesOnlyRemoved(states[i - 1], actions[i - 1], key);
        assert Lists(states[i], t, key, s);
        RemoveStep(states[i - 1], t, key);
      }
    }
  }
}
