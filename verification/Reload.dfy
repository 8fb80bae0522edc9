/** The daemon's shared state over boot and reloads (src/main.rs, src/http/server.rs). */
module Reload {
  import opened Prelude
  import opened Nodes
  import opened Pipeline
  import opened Routing
  import opened Uuid

  datatype RelayNetwork = TcpNetwork | GrpcNetwork

  datatype RelayConfig = RelayConfig(
    listen: string,
    port: nat,
    network: RelayNetwork,
    serviceName: string,
    idleTimeout: nat,
    grpcPoolIdleTimeout: nat)

  datatype OutputConfig = OutputConfig(
    name: string,
    host: string,
    port: nat,
    sni: Option<string>,
    process: seq<ProcessStep>)

  datatype Source = Source(
    name: string,
    url: Option<string>,
    path: Option<string>,
    userAgent: string,
    process: seq<ProcessStep>)

  datatype SubscriptionConfig = SubscriptionConfig(
    cacheFile: Option<string>,
    updateInterval: nat,
    sources: seq<Source>,
    deduplication: string)

  datatype Config = Config(
    logLevel: string,
    relay: RelayConfig,
    users: seq<string>,
    outputs: seq<OutputConfig>,
    subscription: SubscriptionConfig)

  /** Loading the subscriptions never fails: a source that cannot be fetched contributes what is cached. */
  type Loader = SubscriptionConfig -> seq<VMessNode>

  /** What every link format carries of a node: whom it identifies, and how to reach the relay. */
  datatype Link = Link(uuid: string, name: string, host: string, port: nat, network: RelayNetwork, serviceName: string)

  datatype RenderedOutput = RenderedOutput(name: string, links: seq<Link>)

  datatype Env = Env(compile: Compiler, parsers: Parsers)

  function LinkFor(node: VMessNode, output: OutputConfig, network: RelayNetwork, serviceName: string): (l: Link) {
    Link(node.uuid, node.name, output.host, output.port, network, if network.GrpcNetwork? then serviceName else "")
  }

  function RenderOutput(
    env: Env, output: OutputConfig, nodes: seq<VMessNode>, network: RelayNetwork, serviceName: string)
    : (r: RenderedOutput)
  {
    var processed := Apply(env.compile, output.process, nodes);
    RenderedOutput(
      output.name,
      seq(|processed|, i requires 0 <= i < |processed| => LinkFor(processed[i], output, network, serviceName)))
  }

  function RenderAll(
    env: Env, outputs: seq<OutputConfig>, nodes: seq<VMessNode>, network: RelayNetwork, serviceName: string)
    : (r: seq<RenderedOutput>)
    ensures |r| == |outputs|
    ensures forall i :: 0 <= i < |outputs| ==> r[i] == RenderOutput(env, outputs[i], nodes, network, serviceName)
  {
    seq(|outputs|, i requires 0 <= i < |outputs| => RenderOutput(env, outputs[i], nodes, network, serviceName))
  }

  function DurationFromSeconds(seconds: nat): (d: Option<nat>)
    ensures d.None? <==> seconds == 0
    ensures d.Some? ==> d.value == seconds
  {
    if seconds == 0 then None else Some(seconds)
  }

  predicate SameListener(a: RelayConfig, b: RelayConfig) {
    a.listen == b.listen && a.port == b.port && a.network == b.network && a.serviceName == b.serviceName
  }

  /** A reloaded configuration with the listener settings of the running one. */
  function PreserveRunningRelay(cfg: Config, running: RelayConfig): (r: (Config, bool))
    ensures SameListener(r.0.relay, running)
    ensures r.0 == cfg.(relay := running.(idleTimeout := cfg.relay.idleTimeout,
                                          grpcPoolIdleTimeout := cfg.relay.grpcPoolIdleTimeout))
    ensures r.1 <==> !SameListener(cfg.relay, running)
  {
    if SameListener(cfg.relay, running) then (cfg, false)
    else
      (cfg.(relay := cfg.relay.(listen := running.listen, port := running.port,
                                network := running.network, serviceName := running.serviceName)), true)
  }

  /** Everything a reload overwrites. */
  datatype State = State(
    config: Config,
    relayIdleTimeout: Option<nat>,
    poolIdleTimeout: Option<nat>,
    validator: seq<Entry>,
    users: seq<string>,
    outputs: seq<RenderedOutput>)

  /** Start-up fails if no routing table can be built. */
  function Boot(env: Env, cfg: Config, load: Loader): (s: Option<State>) {
    var nodes := load(cfg.subscription);
    if !Routable(env.parsers, nodes) then None
    else
      Some(State(cfg, DurationFromSeconds(cfg.relay.idleTimeout), DurationFromSeconds(cfg.relay.grpcPoolIdleTimeout),
                 Entries(nodes), cfg.users,
                 RenderAll(env, cfg.outputs, nodes, cfg.relay.network, cfg.relay.serviceName)))
  }

  /**
   * What happens to a running daemon. `loaded` is the configuration file read again, if it could be;
   * `load` what the subscriptions then give; `logHandleOk` whether the handle of the running subscriber could
   * exchange the log filter.
   */
  datatype Event =
    | FullReload(loaded: Option<Config>, load: Loader, logHandleOk: bool)
    | SubsReload(load: Loader)

  /** A full reload gets as far as writing the new configuration. */
  predicate Written(env: Env, e: Event) {
    e.FullReload? && e.loaded.Some? && Routable(env.parsers, e.load(e.loaded.value.subscription))
  }

  function Step(env: Env, s: State, e: Event): (t: State) {
    match e
    case FullReload(loaded, load, logHandleOk) =>
      if !Written(env, e) then s
      else
        var cfg := PreserveRunningRelay(loaded.value, s.config.relay).0;
        var nodes := load(loaded.value.subscription);
        if !logHandleOk then s.(config := cfg)
        else
          State(cfg, DurationFromSeconds(cfg.relay.idleTimeout), DurationFromSeconds(cfg.relay.grpcPoolIdleTimeout),
                Entries(nodes), cfg.users,
                RenderAll(env, cfg.outputs, nodes, cfg.relay.network, cfg.relay.serviceName))
    case SubsReload(load) =>
      var nodes := load(s.config.subscription);
      if !Routable(env.parsers, nodes) then s
      else
        s.(validator := Entries(nodes),
           outputs := RenderAll(env, s.config.outputs, nodes, s.config.relay.network, s.config.relay.serviceName))
  }

  class Daemon {
    const env: Env
    var config: Config
    var relayIdleTimeout: Option<nat>
    var poolIdleTimeout: Option<nat>
    var validator: seq<Entry>
    var users: seq<string>
    var outputs: seq<RenderedOutput>

    function Now(): (s: State)
      reads this
    {
      State(config, relayIdleTimeout, poolIdleTimeout, validator, users, outputs)
    }

    constructor (env: Env, s: State)
      ensures this.env == env && Now() == s
    {
      this.env := env;
      config, relayIdleTimeout, poolIdleTimeout := s.config, s.relayIdleTimeout, s.poolIdleTimeout;
      validator, users, outputs := s.validator, s.users, s.outputs;
    }

    method ReloadFull(loaded: Option<Config>, load: Loader, logHandleOk: bool) returns (r: Result<nat>)
      modifies this
      ensures Now() == Step(env, old(Now()), FullReload(loaded, load, logHandleOk))
      ensures r == if Written(env, FullReload(loaded, load, logHandleOk)) && logHandleOk
                   then Ok(|load(loaded.value.subscription)|) else Err
    {
      hide Routable, RenderAll, Entries;
      if loaded.None? {
        return Err;
      }
      var nodes := load(loaded.value.subscription);
      var built := BuildValidator(env.parsers, nodes);
      if built.Err? {
        return Err;
      }
      var (effective, relayChanged) := PreserveRunningRelay(loaded.value, config.relay);
      config := effective;
      if !logHandleOk {
        return Err;
      }
      relayIdleTimeout := DurationFromSeconds(effective.relay.idleTimeout);
      poolIdleTimeout := DurationFromSeconds(effective.relay.grpcPoolIdleTimeout);
      validator := built.value;
      users := effective.users;
      outputs := RenderAll(env, effective.outputs, nodes, effective.relay.network, effective.relay.serviceName);
      return Ok(|nodes|);
    }

    method ReloadSubs(load: Loader) returns (r: Result<nat>)
      modifies this
      ensures Now() == Step(env, old(Now()), SubsReload(load))
      ensures var nodes := load(old(config.subscription));
              r == if Routable(env.parsers, nodes) then Ok(|nodes|) else Err
    {
      hide Routable, RenderAll, Entries;
      var nodes := load(config.subscription);
      var built := BuildValidator(env.parsers, nodes);
      if built.Err? {
        return Err;
      }
      validator := built.value;
      outputs := RenderAll(env, config.outputs, nodes, config.relay.network, config.relay.serviceName);
      return Ok(|nodes|);
    }
  }

  // ---------------------------------------------------------------------------------------------
  // Agreement over every run
  // ---------------------------------------------------------------------------------------------

  function Run(env: Env, s: State, events: seq<Event>): (t: State)
    decreases |events|
  {
    if events == [] then s else Run(env, Step(env, s, events[0]), events[1..])
  }

  /** The table and all links come from one node list; the links show the listener started at boot. */
  ghost predicate FromNodes(env: Env, s: State, boot: RelayConfig, nodes: seq<VMessNode>, outputs: seq<OutputConfig>) {
    && Routable(env.parsers, nodes)
    && s.validator == Entries(nodes)
    && s.outputs == RenderAll(env, outputs, nodes, boot.network, boot.serviceName)
  }

  ghost predicate Agrees(env: Env, s: State, boot: RelayConfig) {
    && SameListener(s.config.relay, boot)
    && exists nodes, outputs :: FromNodes(env, s, boot, nodes, outputs)
  }

  lemma StepAgrees(env: Env, s: State, e: Event, boot: RelayConfig)
    requires Agrees(env, s, boot)
    ensures Agrees(env, Step(env, s, e), boot)
  {
    hide Routable, RenderAll, Entries;
    var t := Step(env, s, e);
    var nodes, outputs :| FromNodes(env, s, boot, nodes, outputs);
    match e {
      case FullReload(loaded, load, logHandleOk) =>
        if Written(env, e) && logHandleOk {
          assert FromNodes(env, t, boot, load(loaded.value.subscription), t.config.outputs);
        } else {
          assert FromNodes(env, t, boot, nodes, outputs);
        }
      case SubsReload(load) =>
        if Routable(env.parsers, load(s.config.subscription)) {
          assert FromNodes(env, t, boot, load(s.config.subscription), s.config.outputs);
        }
    }
  }

  lemma {:induction false} RunAgrees(env: Env, s: State, events: seq<Event>, boot: RelayConfig)
    requires Agrees(env, s, boot)
    ensures Agrees(env, Run(env, s, events), boot)
    decreases |events|
  {
    hide Agrees, Step;
    if events != [] {
      StepAgrees(env, s, events[0], boot);
      RunAgrees(env, Step(env, s, events[0]), events[1..], boot);
    }
  }

  lemma BootAgrees(env: Env, cfg: Config, load: Loader)
    requires Boot(env, cfg, load).Some?
    ensures Agrees(env, Boot(env, cfg, load).value, cfg.relay)
  {
    hide Routable, RenderAll, Entries;
    assert FromNodes(env, Boot(env, cfg, load).value, cfg.relay, load(cfg.subscription), cfg.outputs);
  }

  /**
   * An output renders one link per node that its pipeline leaves, in order: the node's UUID and name,
   * behind the output's host and port and the relay's transport.
   */
  lemma RenderedExactly(
    env: Env, output: OutputConfig, nodes: seq<VMessNode>, network: RelayNetwork, serviceName: string, k: nat)
    requires k < |Apply(env.compile, output.process, nodes)|
    ensures var r := RenderOutput(env, output, nodes, network, serviceName);
            var node := Apply(env.compile, output.process, nodes)[k];
            && r.name == output.name && |r.links| == |Apply(env.compile, output.process, nodes)|
            && r.links[k].uuid == node.uuid && r.links[k].name == node.name
            && r.links[k].host == output.host && r.links[k].port == output.port
            && r.links[k].network == network
            && r.links[k].serviceName == if network == GrpcNetwork then serviceName else ""
  {
    hide Apply;
  }

  /** The daemon starts exactly if the nodes of its configuration make a table. */
  lemma BootExactly(env: Env, cfg: Config, load: Loader)
    ensures Boot(env, cfg, load).Some? <==> Routable(env.parsers, load(cfg.subscription))
  {
    hide Routable, RenderAll, Entries;
  }

  /** A rendered link belongs to a node of the list it was rendered from. */
  lemma LinkHasNode(
    env: Env, output: OutputConfig, nodes: seq<VMessNode>, network: RelayNetwork, serviceName: string, k: nat)
    returns (i: nat)
    requires k < |RenderOutput(env, output, nodes, network, serviceName).links|
    ensures i < |nodes|
    ensures var l := RenderOutput(env, output, nodes, network, serviceName).links[k];
            && l.uuid == nodes[i].uuid && l.host == output.host && l.port == output.port && l.network == network
            && l.serviceName == (if network.GrpcNetwork? then serviceName else "")
  {
    hide Apply;
    var from := PipelineDerived(env.compile, output.process, nodes);
    i := from[k];
  }

  /**
   * Reload agreement: after start-up and any run of succeeding and failing reloads, the UUID of every
   * rendered link has exactly one entry in the routing table, and the link's transport and service
   * name are those of the listener started at boot.
   */
  lemma LinksAgree(env: Env, cfg: Config, load: Loader, events: seq<Event>, o: nat, k: nat)
    requires Boot(env, cfg, load).Some?
    requires var s := Run(env, Boot(env, cfg, load).value, events); o < |s.outputs| && k < |s.outputs[o].links|
    ensures var s := Run(env, Boot(env, cfg, load).value, events);
            var l := s.outputs[o].links[k];
            && l.network == cfg.relay.network
            && l.serviceName == (if cfg.relay.network.GrpcNetwork? then cfg.relay.serviceName else "")
            && exists i :: IsEntryOf(s.validator, i, l.uuid)
  {
    hide Run, Boot, RenderOutput, EntryOf;
    var s := Run(env, Boot(env, cfg, load).value, events);
    BootAgrees(env, cfg, load);
    RunAgrees(env, Boot(env, cfg, load).value, events, cfg.relay);
    var ns: seq<VMessNode>, outs: seq<OutputConfig> :| FromNodes(env, s, cfg.relay, ns, outs);
    var i := LinkHasNode(env, outs[o], ns, cfg.relay.network, cfg.relay.serviceName, k);
    EntryOfNode(env, ns, i);
    assert IsEntryOf(s.validator, i, s.outputs[o].links[k].uuid);
  }

  /** Entry `i` is the only one with that UUID text, and its verifier is made from it. */
  ghost predicate IsEntryOf(entries: seq<Entry>, i: nat, uuid: string) {
    && i < |entries| && entries[i].uuid == uuid && UuidOf(uuid) == Some(entries[i].key)
    && forall j :: 0 <= j < |entries| && entries[j].uuid == uuid ==> j == i
  }

  lemma EntryOfNode(env: Env, nodes: seq<VMessNode>, i: nat)
    requires Routable(env.parsers, nodes) && i < |nodes|
    ensures IsEntryOf(Entries(nodes), i, nodes[i].uuid)
  {
    hide UuidOf, Reachable, AddrOf, TransportOf;
    forall j | 0 <= j < |nodes| && Entries(nodes)[j].uuid == nodes[i].uuid ensures j == i {
      assert nodes[j].uuid == nodes[i].uuid;
    }
  }

  /**
   * End to end: whoever uses a rendered link, after any run of reloads, with an auth id that the link's
   * UUID accepts, is routed to the entry of that link exactly if no earlier entry accepts it. If an
   * earlier entry spells the same UUID no auth id is routed there; otherwise some is, given one that
   * this UUID alone accepts.
   */
  lemma LinkRoutedExactly(
    env: Env, cfg: Config, load: Loader, events: seq<Event>, o: nat, k: nat, accepts: Verifier) returns (i: nat)
    requires Boot(env, cfg, load).Some?
    requires var s := Run(env, Boot(env, cfg, load).value, events); o < |s.outputs| && k < |s.outputs[o].links|
    ensures var s := Run(env, Boot(env, cfg, load).value, events);
            IsEntryOf(s.validator, i, s.outputs[o].links[k].uuid)
    ensures var entries := Run(env, Boot(env, cfg, load).value, events).validator;
            forall id :: accepts(entries[i].key, id) ==>
              (FirstMatch(entries, accepts, id) == Some(i) <==> forall j :: 0 <= j < i ==> !accepts(entries[j].key, id))
    ensures var entries := Run(env, Boot(env, cfg, load).value, events).validator;
            var shadowed := exists j :: 0 <= j < i && Digits(entries[j].uuid) == Digits(entries[i].uuid);
            && (shadowed ==> forall id :: FirstMatch(entries, accepts, id) != Some(i))
            && (!shadowed && HasOwnId(entries, accepts, entries[i].key) ==>
                  exists id :: FirstMatch(entries, accepts, id) == Some(i))
  {
    hide Run, Boot, RenderOutput, FirstMatch, UuidOf, Digits, HasOwnId;
    var s := Run(env, Boot(env, cfg, load).value, events);
    LinksAgree(env, cfg, load, events, o, k);
    i :| IsEntryOf(s.validator, i, s.outputs[o].links[k].uuid);
    BootAgrees(env, cfg, load);
    RunAgrees(env, Boot(env, cfg, load).value, events, cfg.relay);
    var ns: seq<VMessNode>, outs: seq<OutputConfig> :| FromNodes(env, s, cfg.relay, ns, outs);
    EntryRouted(env, ns, i, accepts);
  }

  /** The same for an entry of any table that can be built. */
  lemma EntryRouted(env: Env, nodes: seq<VMessNode>, i: nat, accepts: Verifier)
    requires Routable(env.parsers, nodes) && i < |nodes|
    ensures var entries := Entries(nodes);
            forall id :: accepts(entries[i].key, id) ==>
              (FirstMatch(entries, accepts, id) == Some(i) <==> forall j :: 0 <= j < i ==> !accepts(entries[j].key, id))
    ensures var entries := Entries(nodes);
            var shadowed := exists j :: 0 <= j < i && Digits(entries[j].uuid) == Digits(entries[i].uuid);
            && (shadowed ==> forall id :: FirstMatch(entries, accepts, id) != Some(i))
            && (!shadowed && HasOwnId(entries, accepts, entries[i].key) ==>
                  exists id :: FirstMatch(entries, accepts, id) == Some(i))
  {
    hide FirstMatch, Digits, HasOwnId, Routable, EntryOf;
    var entries := Entries(nodes);
    forall id | accepts(entries[i].key, id)
      ensures FirstMatch(entries, accepts, id) == Some(i) <==> forall j :: 0 <= j < i ==> !accepts(entries[j].key, id)
    {
      MatchExactly(entries, accepts, id, i);
    }
    ReachedExactly(entries, accepts, i);
    forall j | 0 <= j < i
      ensures entries[j].key == entries[i].key <==> Digits(entries[j].uuid) == Digits(entries[i].uuid)
    {
      SameKeyExactly(env, nodes, i, j);
    }
  }

  lemma SameKeyExactly(env: Env, nodes: seq<VMessNode>, i: nat, j: nat)
    requires Routable(env.parsers, nodes) && i < |nodes| && j < |nodes|
    ensures var entries := Entries(nodes);
            entries[j].key == entries[i].key <==> Digits(entries[j].uuid) == Digits(entries[i].uuid)
  {
    hide Reachable, AddrOf, TransportOf, UuidOf, Digits;
    SameUuidExactly(nodes[i].uuid, nodes[j].uuid);
  }

  // ---------------------------------------------------------------------------------------------
  // Which nodes and outputs are in force
  // ---------------------------------------------------------------------------------------------

  /** A node list and the outputs it was rendered for. */
  datatype InForce = InForce(nodes: seq<VMessNode>, outputs: seq<OutputConfig>)

  /**
   * The node list of the last full reload that succeeded or subscription reload that made a table, and
   * the outputs of the configuration stored at that moment; `stored` and `now` are those before the events.
   */
  function LastInForce(env: Env, stored: Config, now: InForce, events: seq<Event>): (r: InForce)
    decreases |events|
  {
    if events == [] then now
    else
      var (e, rest) := (events[0], events[1..]);
      if e.SubsReload? then
        var nodes := e.load(stored.subscription);
        LastInForce(env, stored, if Routable(env.parsers, nodes) then InForce(nodes, stored.outputs) else now, rest)
      else if e.loaded.None? || !Routable(env.parsers, e.load(e.loaded.value.subscription)) then
        LastInForce(env, stored, now, rest)
      else if !e.logHandleOk then LastInForce(env, e.loaded.value, now, rest)
      else
        var loaded := e.loaded.value;
        LastInForce(env, loaded, InForce(e.load(loaded.subscription), loaded.outputs), rest)
  }

  /** Table and links are those of the list in force, and the stored configuration is `stored`. */
  ghost predicate Installed(env: Env, s: State, boot: RelayConfig, stored: Config, now: InForce) {
    && s.config == PreserveRunningRelay(stored, boot).0
    && |s.validator| == |now.nodes|
    && (forall i :: 0 <= i < |now.nodes| ==> s.validator[i] == EntryOf(now.nodes[i]))
    && |s.outputs| == |now.outputs|
    && (forall i :: 0 <= i < |now.outputs| ==>
          s.outputs[i] == RenderOutput(env, now.outputs[i], now.nodes, boot.network, boot.serviceName))
  }

  lemma {:induction false} InstalledRun(
    env: Env, s: State, events: seq<Event>, boot: RelayConfig, stored: Config, now: InForce) returns (last: Config)
    requires Installed(env, s, boot, stored, now)
    ensures Installed(env, Run(env, s, events), boot, last, LastInForce(env, stored, now, events))
    decreases |events|
  {
    hide Routable, RenderOutput, EntryOf;
    if events == [] {
      last := stored;
    } else {
      var e := events[0];
      var t := Step(env, s, e);
      if e.SubsReload? {
        var nodes := e.load(stored.subscription);
        var next := if Routable(env.parsers, nodes) then InForce(nodes, stored.outputs) else now;
        assert Installed(env, t, boot, stored, next);
        last := InstalledRun(env, t, events[1..], boot, stored, next);
      } else if e.loaded.None? || !Routable(env.parsers, e.load(e.loaded.value.subscription)) {
        last := InstalledRun(env, t, events[1..], boot, stored, now);
      } else {
        var loaded := e.loaded.value;
        var next := if e.logHandleOk then InForce(e.load(loaded.subscription), loaded.outputs) else now;
        assert Installed(env, t, boot, loaded, next);
        last := InstalledRun(env, t, events[1..], boot, loaded, next);
      }
    }
  }

  /**
   * After start-up and any run of reloads, the routing table has one entry per node of the list in force,
   * in order, and the links are rendered from that same list for the outputs in force.
   */
  lemma InForceOverRuns(env: Env, cfg: Config, load: Loader, events: seq<Event>)
    requires Boot(env, cfg, load).Some?
    ensures var s := Run(env, Boot(env, cfg, load).value, events);
            var now := LastInForce(env, cfg, InForce(load(cfg.subscription), cfg.outputs), events);
            && |s.validator| == |now.nodes|
            && (forall i :: 0 <= i < |now.nodes| ==> s.validator[i] == EntryOf(now.nodes[i]))
            && |s.outputs| == |now.outputs|
            && forall i :: 0 <= i < |now.outputs| ==>
                 s.outputs[i] ==
                 RenderOutput(env, now.outputs[i], now.nodes, cfg.relay.network, cfg.relay.serviceName)
  {
    hide Routable, RenderOutput, EntryOf, Run, LastInForce;
    var now := InForce(load(cfg.subscription), cfg.outputs);
    assert Installed(env, Boot(env, cfg, load).value, cfg.relay, cfg, now);
    var last := InstalledRun(env, Boot(env, cfg, load).value, events, cfg.relay, cfg, now);
  }

  // ---------------------------------------------------------------------------------------------
  // A failing log handle
  // ---------------------------------------------------------------------------------------------

  predicate Fails(env: Env, e: Event) {
    e.FullReload? && (!Written(env, e) || !e.logHandleOk)
  }

  /** Two configurations differ at most in the listener settings. */
  predicate SameButListener(a: Config, b: Config) {
    && a.logLevel == b.logLevel && a.users == b.users && a.outputs == b.outputs && a.subscription == b.subscription
    && a.relay.idleTimeout == b.relay.idleTimeout && a.relay.grpcPoolIdleTimeout == b.relay.grpcPoolIdleTimeout
  }

  /**
   * A failing full reload leaves the shared state alone exactly if the file could not be read, its nodes
   * make no table, or it changed nothing but listener settings: only a log handle that fails for a changed
   * configuration leaves a trace.
   */
  lemma FailedReloadExactly(env: Env, s: State, e: Event)
    requires Fails(env, e)
    ensures Step(env, s, e) == s <==>
            e.loaded.None? || !Routable(env.parsers, e.load(e.loaded.value.subscription))
            || SameButListener(e.loaded.value, s.config)
  {
    hide Routable, RenderAll, Entries;
    if Written(env, e) && SameButListener(e.loaded.value, s.config) {
      var kept := PreserveRunningRelay(e.loaded.value, s.config.relay).0;
      assert kept.relay == s.config.relay;
    }
  }

  /** The configuration of the last full reload that got as far as writing it, `cfg` if none did. */
  function LastWritten(env: Env, cfg: Config, events: seq<Event>): (r: Config)
    decreases |events|
  {
    if events == [] then cfg
    else LastWritten(env, if Written(env, events[0]) then events[0].loaded.value else cfg, events[1..])
  }

  /** The configuration of the last full reload that succeeded, `cfg` if none did. */
  function LastApplied(env: Env, cfg: Config, events: seq<Event>): (r: Config)
    decreases |events|
  {
    if events == [] then cfg
    else
      var now := if Written(env, events[0]) && events[0].logHandleOk then events[0].loaded.value else cfg;
      LastApplied(env, now, events[1..])
  }

  /** The state stores `written`, and the users and timeouts in force are those of `applied`. */
  predicate Settings(s: State, boot: RelayConfig, written: Config, applied: Config) {
    && s.config == PreserveRunningRelay(written, boot).0
    && s.users == applied.users
    && s.relayIdleTimeout == DurationFromSeconds(applied.relay.idleTimeout)
    && s.poolIdleTimeout == DurationFromSeconds(applied.relay.grpcPoolIdleTimeout)
  }

  lemma SettingsStep(env: Env, s: State, e: Event, boot: RelayConfig, written: Config, applied: Config)
    requires Settings(s, boot, written, applied)
    ensures Settings(Step(env, s, e), boot,
                     if Written(env, e) then e.loaded.value else written,
                     if Written(env, e) && e.logHandleOk then e.loaded.value else applied)
  {
    hide Routable, RenderAll, Entries;
  }

  lemma {:induction false} SettingsRun(
    env: Env, s: State, events: seq<Event>, boot: RelayConfig, written: Config, applied: Config)
    requires Settings(s, boot, written, applied)
    ensures Settings(Run(env, s, events), boot, LastWritten(env, written, events), LastApplied(env, applied, events))
    decreases |events|
  {
    hide Settings, Step, Routable;
    if events != [] {
      var e := events[0];
      SettingsStep(env, s, e, boot, written, applied);
      SettingsRun(env, Step(env, s, e), events[1..], boot,
                  if Written(env, e) then e.loaded.value else written,
                  if Written(env, e) && e.logHandleOk then e.loaded.value else applied);
    }
  }

  /**
   * No rollback, over every run: the stored configuration is that of the last full reload that wrote
   * one, while users and both timeouts are those of the last full reload that succeeded. Each setting
   * in force agrees with the stored configuration exactly if these two agree on it.
   */
  lemma SettingsOverRuns(env: Env, cfg: Config, load: Loader, events: seq<Event>)
    requires Boot(env, cfg, load).Some?
    ensures var s := Run(env, Boot(env, cfg, load).value, events);
            var written, applied := LastWritten(env, cfg, events), LastApplied(env, cfg, events);
            && Settings(s, cfg.relay, written, applied)
            && (s.users == s.config.users <==> applied.users == written.users)
            && (s.relayIdleTimeout == DurationFromSeconds(s.config.relay.idleTimeout) <==>
                applied.relay.idleTimeout == written.relay.idleTimeout)
            && (s.poolIdleTimeout == DurationFromSeconds(s.config.relay.grpcPoolIdleTimeout) <==>
                applied.relay.grpcPoolIdleTimeout == written.relay.grpcPoolIdleTimeout)
  {
    hide Routable, RenderAll, Entries, Run, LastWritten, LastApplied;
    SettingsRun(env, Boot(env, cfg, load).value, events, cfg.relay, cfg, cfg);
  }

  /** The nodes of the last subscription reload that made a table, with the given subscriptions. */
  function LastNodes(env: Env, subscription: SubscriptionConfig, loads: seq<Loader>): (r: Option<seq<VMessNode>>) {
    if loads == [] then None
    else
      var n := |loads| - 1;
      var nodes := loads[n](subscription);
      if Routable(env.parsers, nodes) then Some(nodes) else LastNodes(env, subscription, loads[..n])
  }

  function AfterSubs(env: Env, s: State, loads: seq<Loader>): (t: State) {
    if loads == [] then s
    else
      var n := |loads| - 1;
      Step(env, AfterSubs(env, s, loads[..n]), SubsReload(loads[n]))
  }

  /**
   * After a log handle failed, any number of subscription reloads fetch the new sources and render the
   * new outputs, behind the old users and timeouts; until one makes a table, table and links stay old.
   */
  lemma {:induction false} SubsAfterLogFailure(env: Env, s: State, e: Event, loads: seq<Loader>)
    requires Fails(env, e) && Written(env, e)
    ensures var cfg := PreserveRunningRelay(e.loaded.value, s.config.relay).0;
            var t := AfterSubs(env, Step(env, s, e), loads);
            var nodes := LastNodes(env, cfg.subscription, loads);
            && t.config == cfg && t.users == s.users
            && t.relayIdleTimeout == s.relayIdleTimeout && t.poolIdleTimeout == s.poolIdleTimeout
            && (nodes.None? ==> t.validator == s.validator && t.outputs == s.outputs)
            && (nodes.Some? ==>
                  && t.validator == Entries(nodes.value)
                  && t.outputs == RenderAll(env, e.loaded.value.outputs, nodes.value,
                                            s.config.relay.network, s.config.relay.serviceName))
  {
    hide Routable, RenderAll, Entries;
    if loads != [] {
      SubsAfterLogFailure(env, s, e, loads[..|loads| - 1]);
    }
  }
}
