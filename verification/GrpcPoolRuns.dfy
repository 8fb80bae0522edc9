/** Concrete runs of the connection pool that show where its promises need their conditions. */
module GrpcPoolRuns {
  import opened Prelude
  import opened GrpcPool
  import opened GrpcPoolTheorems

  const OneShard: Layout := Layout(k => 0, 1)

  lemma EmptyRun()
    ensures IsRun([Empty(OneShard)], [])
  {}

  lemma Extend(states: seq<Pool>, actions: seq<Action>, a: Action) returns (states': seq<Pool>, actions': seq<Action>)
    requires IsRun(states, actions) && Enabled(states[|actions|], a)
    ensures IsRun(states', actions')
    ensures actions' == actions + [a] && states' == states + [Do(states[|actions|], a)]
  {
    hide Do, Enabled;
    states', actions' := states + [Do(states[|actions|], a)], actions + [a];
  }

  /** Task `t` can perform a handshake for connection `id` in slot `s`. */
  ghost predicate ReadyFor(p: Pool, t: TaskId, s: SlotId, id: ConnId) {
    && t !in p.tasks && p.nextId == id && 9 !in p.slots
    && (if "k" in p.conns then p.conns["k"] == s && s in p.slots && p.slots[s] == Slot(None, None) else s !in p.slots)
  }

  /** Slot `s` holds connection `id` for the key, and `q` differs from `p` only there and in the caller `t`. */
  ghost predicate Connected(p: Pool, q: Pool, t: TaskId, s: SlotId, id: ConnId) {
    && q.layout == p.layout && q.nextId == id + 1
    && q.conns == p.conns["k" := s]
    && q.slots == p.slots[s := Slot(Some(Conn(id, p.clock)), None)]
    && q.tasks == p.tasks[t := Returned("k", s, id)]
  }

  function EnterK(p: Pool, t: TaskId, s: SlotId): Action {
    Enter(t, "k", if "k" in p.conns then 9 else s)
  }

  lemma Enters(p: Pool, t: TaskId, s: SlotId, id: ConnId)
    requires ReadyFor(p, t, s, id)
    ensures Enabled(p, EnterK(p, t, s))
    ensures Do(p, EnterK(p, t, s)) ==
            p.(conns := p.conns["k" := s], slots := p.slots[s := Slot(None, None)],
               tasks := p.tasks[t := Waiting("k", s)])
  {}

  lemma Starts(p: Pool, t: TaskId, s: SlotId)
    requires t in p.tasks && p.tasks[t] == Waiting("k", s) && s in p.slots && p.slots[s] == Slot(None, None)
    ensures Enabled(p, StartHandshake(t))
    ensures Do(p, StartHandshake(t)) ==
            p.(slots := p.slots[s := Slot(None, Some(t))], tasks := p.tasks[t := Handshake("k", s, p.nextId, false)],
               nextId := p.nextId + 1)
  {}

  lemma SpawnsAndStores(p: Pool, t: TaskId, s: SlotId, id: ConnId)
    requires t in p.tasks && p.tasks[t] == Handshake("k", s, id, false) && s in p.slots
    ensures Enabled(p, SpawnWatcher(t))
    ensures var q := Do(p, SpawnWatcher(t)); Enabled(q, Store(t)) && Returns(q, Store(t), s, id)
    ensures var q := Do(Do(p, SpawnWatcher(t)), Store(t));
            && q.layout == p.layout && q.conns == p.conns && q.nextId == p.nextId
            && q.slots == p.slots[s := Slot(Some(Conn(id, p.clock)), None)]
            && q.tasks == p.tasks[t := Returned("k", s, id)]
  {}

  /** The four actions of a `get_or_create` that performs a handshake. */
  lemma Connects(p: Pool, t: TaskId, s: SlotId, id: ConnId) returns (p1: Pool, p2: Pool, p3: Pool)
    requires ReadyFor(p, t, s, id)
    ensures Enabled(p, EnterK(p, t, s)) && p1 == Do(p, EnterK(p, t, s))
    ensures Enabled(p1, StartHandshake(t)) && p2 == Do(p1, StartHandshake(t))
    ensures Enabled(p2, SpawnWatcher(t)) && p3 == Do(p2, SpawnWatcher(t))
    ensures Enabled(p3, Store(t)) && Returns(p3, Store(t), s, id)
    ensures Connected(p, Do(p3, Store(t)), t, s, id)
  {
    hide Do, Enabled, Returns, EnterK;
    Enters(p, t, s, id);
    p1 := Do(p, EnterK(p, t, s));
    Starts(p1, t, s);
    p2 := Do(p1, StartHandshake(t));
    SpawnsAndStores(p2, t, s, id);
    p3 := Do(p2, SpawnWatcher(t));
  }

  lemma OneConnection(states: seq<Pool>, actions: seq<Action>, t: TaskId, s: SlotId, id: ConnId)
    returns (states': seq<Pool>, actions': seq<Action>)
    requires IsRun(states, actions) && |states| == |actions| + 1 && ReadyFor(states[|actions|], t, s, id)
    ensures IsRun(states', actions') && |actions'| == |actions| + 4 && |states'| == |states| + 4
    ensures states'[..|states|] == states && actions'[..|actions|] == actions
    ensures Returns(states'[|actions| + 3], actions'[|actions| + 3], s, id) && actions'[|actions| + 3] == Store(t)
    ensures Connected(states[|actions|], states'[|actions| + 4], t, s, id)
  {
    hide Do, Enabled, Connected, IsRun, EnterK, Returns;
    var p := states[|actions|];
    var p1, p2, p3 := Connects(p, t, s, id);
    states', actions' := Extend(states, actions, EnterK(p, t, s));
    states', actions' := Extend(states', actions', StartHandshake(t));
    states', actions' := Extend(states', actions', SpawnWatcher(t));
    states', actions' := Extend(states', actions', Store(t));
  }

  /** A second caller is given the stored connection. */
  lemma Shares(p: Pool, q: Pool, u: TaskId) returns (q1: Pool)
    requires Connected(p, q, 0, 0, 1) && p == Empty(OneShard) && u == 1
    ensures Enabled(q, EnterK(q, u, 0)) && q1 == Do(q, EnterK(q, u, 0))
    ensures Enabled(q1, Reuse(u)) && Returns(q1, Reuse(u), 0, 1)
    ensures var r := Do(q1, Reuse(u)); Enabled(r, Evict(0)) && ReadyFor(Do(r, Evict(0)), 2, 0, 2)
    ensures var e := Do(Do(q1, Reuse(u)), Evict(0)); 1 in e.tasks && e.tasks[1] == Returned("k", 0, 1)
  {
    q1 := Do(q, EnterK(q, u, 0));
  }

  lemma EvictsNewer(p: Pool, q: Pool)
    requires Connected(p, q, 2, 0, 2) && 1 in p.tasks && p.tasks[1] == Returned("k", 0, 1)
    ensures Enabled(q, Evict(1)) && CachedIs(q, 0, 2) && Clears(q, Evict(1), 0)
  {}

  /** Two callers share connection 1 and the first evicts it. */
  lemma SharedAndEvicted() returns (states: seq<Pool>, actions: seq<Action>)
    ensures IsRun(states, actions) && |actions| == 7 && |states| == 8
    ensures Returns(states[5], actions[5], 0, 1) && actions[5] == Reuse(1) && actions[6] == Evict(0)
    ensures ReadyFor(states[7], 2, 0, 2)
    ensures 1 in states[7].tasks && states[7].tasks[1] == Returned("k", 0, 1)
  {
    assert ReadyFor(Empty(OneShard), 0, 0, 1);
    hide Do, Enabled, IsRun, Returns, Connected, EnterK, ReadyFor;
    EmptyRun();
    var s1, a1 := OneConnection([Empty(OneShard)], [], 0, 0, 1);
    var q1 := Shares(Empty(OneShard), s1[4], 1);
    var s2, a2 := Extend(s1, a1, EnterK(s1[4], 1, 0));
    var s3, a3 := Extend(s2, a2, Reuse(1));
    states, actions := Extend(s3, a3, Evict(0));
  }

  /**
   * `evict` looks at no id. After that a third caller connects anew; the eviction of the second caller,
   * who still holds connection 1, then drops connection 2.
   */
  lemma EvictDropsNewer() returns (states: seq<Pool>, actions: seq<Action>)
    ensures IsRun(states, actions) && |actions| == 12
    ensures Returns(states[5], actions[5], 0, 1) && actions[5] == Reuse(1) && actions[6] == Evict(0)
    ensures Returns(states[10], actions[10], 0, 2)
    ensures actions[11] == Evict(1) && CachedIs(states[11], 0, 2) && Clears(states[11], actions[11], 0)
  {
    hide Do, Enabled, IsRun, Returns, Clears, Connected, ReadyFor, CachedIs;
    var s1, a1 := SharedAndEvicted();
    var s2, a2 := OneConnection(s1, a1, 2, 0, 2);
    EvictsNewer(s1[7], s2[11]);
    states, actions := Extend(s2, a2, Evict(1));
    assert states[5] == s2[5] == s1[5] && states[10] == s2[10] && states[11] == s2[11];
  }

  /** The pool after a caller entered and two pruners, which both list the key, read it. */
  function TwoPruners(): Pool {
    Pool(OneShard, map["k" := 0], map[0 := Slot(None, None)],
         map[0 := Waiting("k", 0), 1 := Pruning({}, 1, map["k" := 0], None), 2 := Pruning({}, 1, map["k" := 0], None)],
         map[], 1, 0)
  }

  lemma BothRead() returns (states: seq<Pool>, actions: seq<Action>)
    ensures IsRun(states, actions) && |actions| == 5 && states[5] == TwoPruners()
  {
    EmptyRun();
    states, actions := Extend([Empty(OneShard)], [], Enter(0, "k", 0));
    var p1 := states[1];
    assert p1.conns == map["k" := 0] && p1.slots == map[0 := Slot(None, None)];
    assert p1.tasks == map[0 := Waiting("k", 0)];
    states, actions := Extend(states, actions, PruneStart(1, {}));
    states, actions := Extend(states, actions, PruneStart(2, {}));
    var p3 := states[3];
    assert p3.tasks == map[0 := Waiting("k", 0), 1 := Pruning({}, 0, map[], None), 2 := Pruning({}, 0, map[], None)];
    ReadsK(p3, 1);
    states, actions := Extend(states, actions, Collect(1));
    ReadsK(states[4], 2);
    states, actions := Extend(states, actions, Collect(2));
  }

  lemma ReadsK(p: Pool, t: TaskId)
    requires p.layout == OneShard && p.conns == map["k" := 0]
    requires t in p.tasks && p.tasks[t] == Pruning({}, 0, map[], None)
    ensures Enabled(p, Collect(t))
    ensures Do(p, Collect(t)) == p.(tasks := p.tasks[t := Pruning({}, 1, map["k" := 0], None)])
  {
    assert map[] + (Shard(p, 0) - {}) == map["k" := 0];
  }

  lemma SecondRemoves(p: Pool, q: Pool)
    requires p == Do(TwoPruners(), PruneRemove(1, "k")) && Connected(p, q, 3, 1, 1)
    ensures Enabled(q, PruneRemove(2, "k"))
    ensures var q1 := Do(q, PruneRemove(2, "k")); Enabled(q1, PruneClear(2))
    ensures var q2 := Do(Do(q, PruneRemove(2, "k")), PruneClear(2)); Enabled(q2, PruneDone(2))
    ensures var q3 := Do(Do(Do(q, PruneRemove(2, "k")), PruneClear(2)), PruneDone(2));
            && 2 in q3.tasks && q3.tasks[2].Pruned? && q3.conns == map[] && CachedIs(q3, 1, 1)
  {
    assert p.conns == map[] && q.conns == map["k" := 1];
    assert q.tasks[2] == Pruning({}, 1, map["k" := 0], None);
    var q1 := Do(q, PruneRemove(2, "k"));
    assert q1.tasks[2] == Pruning({}, 1, map[], Some(0)) && q1.conns == map[];
  }

  lemma FirstRemoves()
    ensures Enabled(TwoPruners(), PruneRemove(1, "k"))
    ensures ReadyFor(Do(TwoPruners(), PruneRemove(1, "k")), 3, 1, 1)
  {}

  /**
   * Two pruners at once: both read slot 0 for the key, the first removes it, a caller brings the key
   * back with slot 1 and connects, and the second pruner removes slot 1, empties slot 0 and ends. The
   * connection in slot 1 stays, out of reach of every key.
   */
  lemma PruneOrphans() returns (states: seq<Pool>, actions: seq<Action>)
    ensures IsRun(states, actions) && |actions| == 13
    ensures actions[5] == PruneRemove(1, "k") && actions[10] == PruneRemove(2, "k") && actions[12] == PruneDone(2)
    ensures "k" in states[10].conns && states[10].conns["k"] == 1
    ensures states[13].conns == map[] && CachedIs(states[13], 1, 1)
  {
    hide Do, Enabled, IsRun, Returns, Connected, EnterK, TwoPruners;
    var s1, a1 := BothRead();
    FirstRemoves();
    var s2, a2 := Extend(s1, a1, PruneRemove(1, "k"));
    var s3, a3 := OneConnection(s2, a2, 3, 1, 1);
    assert s3[10].conns == s2[6].conns["k" := 1] by { ConnectedMaps(s2[6], s3[10], 3, 1, 1); }
    SecondRemoves(s2[6], s3[10]);
    var s4, a4 := Extend(s3, a3, PruneRemove(2, "k"));
    var s5, a5 := Extend(s4, a4, PruneClear(2));
    states, actions := Extend(s5, a5, PruneDone(2));
  }

  lemma ConnectedMaps(p: Pool, q: Pool, t: TaskId, s: SlotId, id: ConnId)
    requires Connected(p, q, t, s, id)
    ensures q.conns == p.conns["k" := s]
  {}
}
