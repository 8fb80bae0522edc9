/** Loading subscriptions with a cache to fall back on (src/subscription/manager.rs). */
module Manager {
  import opened Prelude
  import opened Nodes
  import opened Selecting
  import opened Rename

  /** The nodes of each source, by source name: the cache file's content. */
  type Cache = map<string, seq<VMessNode>>

  /** What fetching, parsing and processing one source came to. */
  type Fetch = Option<seq<VMessNode>>

  function Tagged(nodes: seq<VMessNode>, source: string): (r: seq<VMessNode>)
    ensures |r| == |nodes|
  {
    seq(|nodes|, i requires 0 <= i < |nodes| => nodes[i].(source := source))
  }

  /** Tagging gives each node the name of its source and leaves the proxy itself alone. */
  lemma TaggedExactly(nodes: seq<VMessNode>, source: string, i: nat)
    requires i < |nodes|
    ensures var n := Tagged(nodes, source)[i];
            n.source == source && n.(source := nodes[i].source) == nodes[i]
  {}

  /** The strategy named in the configuration; `None` is renaming. */
  function ParseStrategy(text: string): (s: Option<Strategy>) {
    match text
    case "" => None
    case "rename" => None
    case "first" => Some(First)
    case "last" => Some(Last)
    case "prefer_ipv4" => Some(PreferIpv4)
    case "prefer_ipv6" => Some(PreferIpv6)
    case "prefer_domain_then_ipv4" => Some(PreferDomainThenIpv4)
    case "prefer_domain_then_ipv6" => Some(PreferDomainThenIpv6)
    case _ => Some(UnknownStrategy)
  }

  function Deduplicated(parser: AddressParser, strategy: string, nodes: seq<VMessNode>): (r: seq<VMessNode>) {
    match ParseStrategy(strategy)
    case None => seq(|nodes|, i requires 0 <= i < |nodes| => nodes[i].(name := NewName(Names(nodes), i)))
    case Some(s) => Select(parser, s, nodes)
  }

  method DeduplicateNodes(parser: AddressParser, strategy: string, nodes: seq<VMessNode>) returns (out: seq<VMessNode>)
    ensures out == Deduplicated(parser, strategy, nodes)
  {
    hide Select, NewName;
    var s := ParseStrategy(strategy);
    if s.None? {
      out := RenameDuplicates(nodes);
    } else {
      out := DeduplicateSelecting(parser, s.value, nodes);
    }
  }

  /** Between two servers, the documented strategy of this name wants the first one. */
  predicate Wants(parser: AddressParser, strategy: string, a: string, b: string) {
    var v4, v6 := parser.isIpv4, parser.isIpv6;
    match strategy
    case "prefer_ipv4" => a != "" && v4(a) && (b == "" || !v4(b))
    case "prefer_ipv6" => a != "" && !v4(a) && v6(a) && (b == "" || v4(b) || !v6(b))
    case "prefer_domain_then_ipv4" => a != "" && !v4(a) && !v6(a) && (b == "" || v4(b) || v6(b))
    case "prefer_domain_then_ipv6" => a != "" && !v4(a) && !v6(a) && (b == "" || v4(b) || v6(b))
    case _ => false
  }

  /** And between two that are neither its first choice, this is its second choice before its last. */
  predicate WantsSecond(parser: AddressParser, strategy: string, a: string, b: string) {
    var v4, v6 := parser.isIpv4, parser.isIpv6;
    match strategy
    case "prefer_ipv4" => a != "" && !v4(a) && !v6(a) && (b == "" || (!v4(b) && v6(b)))
    case "prefer_ipv6" => a != "" && !v4(a) && !v6(a) && (b == "" || v4(b))
    case "prefer_domain_then_ipv4" => a != "" && v4(a) && (b == "" || (!v4(b) && v6(b)))
    case "prefer_domain_then_ipv6" => a != "" && !v4(a) && v6(a) && (b == "" || v4(b))
    case _ => false
  }

  /**
   * The strategies under the names the configuration documents, over the address texts themselves: of two
   * nodes of one name, the one whose server is not wanted is not kept; "first", and any unknown name,
   * keeps none behind another of its name, and "last" none before one.
   */
  lemma DocumentedStrategies(parser: AddressParser, strategy: string, nodes: seq<VMessNode>, i: nat, j: nat)
    requires i < |nodes| && j < |nodes| && nodes[i].name == nodes[j].name && strategy != "" && strategy != "rename"
    requires || Wants(parser, strategy, nodes[i].server, nodes[j].server)
             || WantsSecond(parser, strategy, nodes[i].server, nodes[j].server)
             || (strategy == "last" && i > j)
             || (strategy == "first" && i < j)
             || (i < j && strategy !in {"last", "prefer_ipv4", "prefer_ipv6", "prefer_domain_then_ipv4",
                                        "prefer_domain_then_ipv6"})
    ensures ParseStrategy(strategy).Some? && !Chosen(parser, ParseStrategy(strategy).value, nodes, j)
  {
    hide AddressPriority, AddressTypeOf;
    var s := ParseStrategy(strategy).value;
    PreferenceByText(parser, strategy, nodes[i].server, nodes[j].server);
    NoPriority(parser, s, nodes);
    assert !AtLeastAsGood(parser, s, nodes, j, i);
  }

  lemma PreferenceByText(parser: AddressParser, strategy: string, a: string, b: string)
    requires Wants(parser, strategy, a, b) || WantsSecond(parser, strategy, a, b) ||
             strategy !in {"prefer_ipv4", "prefer_ipv6", "prefer_domain_then_ipv4", "prefer_domain_then_ipv6"}
    ensures Wants(parser, strategy, a, b) || WantsSecond(parser, strategy, a, b) ==>
              && ParseStrategy(strategy).Some? && !ParseStrategy(strategy).value.Last?
              && AddressPriority(ParseStrategy(strategy).value, AddressTypeOf(parser, a)) >
                 AddressPriority(ParseStrategy(strategy).value, AddressTypeOf(parser, b))
  {}

  /** Renaming, the default, keeps every node and changes nothing but names. */
  lemma RenamingKeepsAll(parser: AddressParser, strategy: string, nodes: seq<VMessNode>, i: nat)
    requires (strategy == "" || strategy == "rename") && i < |nodes|
    ensures var r := Deduplicated(parser, strategy, nodes);
            |r| == |nodes| && r[i] == nodes[i].(name := NewName(Names(nodes), i))
  {}

  datatype Loaded = Loaded(cache: Cache, bySource: Cache)

  /** The loop over the sources: a fetched source replaces its cache entry, a failed one reads it. */
  function LoadSources(cache: Cache, bySource: Cache, sources: seq<string>, fetches: seq<Fetch>): (r: Loaded)
    requires |sources| == |fetches|
    decreases |sources|
  {
    if sources == [] then Loaded(cache, bySource)
    else
      var name := sources[0];
      match fetches[0]
      case Some(nodes) =>
        var tagged := Tagged(nodes, name);
        LoadSources(cache[name := tagged], bySource[name := tagged], sources[1..], fetches[1..])
      case None =>
        var next := if name in cache then bySource[name := Tagged(cache[name], name)] else bySource;
        LoadSources(cache, next, sources[1..], fetches[1..])
  }

  function Contribution(bySource: Cache, name: string): (nodes: seq<VMessNode>) {
    if name in bySource then bySource[name] else []
  }

  /** All contributions, in the order of the configuration. */
  function Merged(bySource: Cache, sources: seq<string>): (nodes: seq<VMessNode>) {
    if sources == [] then [] else Contribution(bySource, sources[0]) + Merged(bySource, sources[1..])
  }

  method FetchAll(cached: Cache, sources: seq<string>, fetches: seq<Fetch>) returns (cache: Cache, bySource: Cache)
    requires |fetches| == |sources|
    ensures Loaded(cache, bySource) == LoadSources(cached, map[], sources, fetches)
  {
    hide Tagged;
    cache, bySource := cached, map[];
    var i := 0;
    while i < |sources|
      invariant 0 <= i <= |sources|
      invariant LoadSources(cache, bySource, sources[i..], fetches[i..]) == LoadSources(cached, map[], sources, fetches)
    {
      var name := sources[i];
      assert sources[i..][1..] == sources[i + 1..] && fetches[i..][1..] == fetches[i + 1..];
      match fetches[i] {
        case Some(nodes) =>
          var tagged := Tagged(nodes, name);
          cache := cache[name := tagged];
          bySource := bySource[name := tagged];
        case None =>
          if name in cache {
            bySource := bySource[name := Tagged(cache[name], name)];
          }
      }
      i := i + 1;
    }
  }

  method MergeAll(bySource: Cache, sources: seq<string>) returns (all: seq<VMessNode>)
    ensures all == Merged(bySource, sources)
  {
    all := [];
    var i := 0;
    while i < |sources|
      invariant 0 <= i <= |sources|
      invariant all + Merged(bySource, sources[i..]) == Merged(bySource, sources)
    {
      assert sources[i..][1..] == sources[i + 1..];
      all := all + Contribution(bySource, sources[i]);
      i := i + 1;
    }
    assert all + [] == all;
  }

  class SubscriptionManager {
    const sources: seq<string>
    const deduplication: string
    const parser: AddressParser
    var nodesBySource: Cache
    var allNodes: seq<VMessNode>

    constructor (sources: seq<string>, deduplication: string, parser: AddressParser)
      ensures this.sources == sources && this.deduplication == deduplication && this.parser == parser
      ensures nodesBySource == map[] && allNodes == []
    {
      this.sources, this.deduplication, this.parser := sources, deduplication, parser;
      nodesBySource, allNodes := map[], [];
    }

    /** `cacheFile` is what the configured cache file holds, `None` if none is configured. */
    method Reload(cacheFile: Option<Cache>, fetches: seq<Fetch>) returns (saved: Option<Cache>)
      requires |fetches| == |sources|
      modifies this
      ensures var loaded := LoadSources(if cacheFile.Some? then cacheFile.value else map[], map[], sources, fetches);
              && saved == (if cacheFile.Some? then Some(loaded.cache) else None)
              && nodesBySource == loaded.bySource
              && allNodes == Deduplicated(parser, deduplication, Merged(loaded.bySource, sources))
    {
      hide Deduplicated, LoadSources, Merged;
      var cache, bySource := FetchAll(if cacheFile.Some? then cacheFile.value else map[], sources, fetches);
      saved := if cacheFile.Some? then Some(cache) else None;
      var all := MergeAll(bySource, sources);
      all := DeduplicateNodes(parser, deduplication, all);
      nodesBySource := bySource;
      allNodes := all;
    }
  }

  /** Where the contribution of place `i` begins: behind those of all places before it. */
  function BlockStart(bySource: Cache, sources: seq<string>, i: nat): (n: nat)
    requires i <= |sources|
  {
    if i == 0 then 0 else BlockStart(bySource, sources, i - 1) + |Contribution(bySource, sources[i - 1])|
  }

  lemma {:induction false} BlockStartTail(bySource: Cache, sources: seq<string>, i: nat)
    requires i < |sources|
    ensures BlockStart(bySource, sources, i + 1) ==
            |Contribution(bySource, sources[0])| + BlockStart(bySource, sources[1..], i)
  {
    if i > 0 { BlockStartTail(bySource, sources, i - 1); }
  }

  lemma {:induction false} MergedLength(bySource: Cache, sources: seq<string>)
    ensures |Merged(bySource, sources)| == BlockStart(bySource, sources, |sources|)
  {
    if sources != [] {
      MergedLength(bySource, sources[1..]);
      BlockStartTail(bySource, sources, |sources| - 1);
    }
  }

  /** The contribution of place `i` is the block of `all` that begins where the earlier ones end. */
  ghost predicate HasBlock(all: seq<VMessNode>, bySource: Cache, sources: seq<string>, i: nat)
    requires i < |sources|
  {
    var from := BlockStart(bySource, sources, i);
    var to := BlockStart(bySource, sources, i + 1);
    from <= to <= |all| && all[from..to] == Contribution(bySource, sources[i])
  }

  lemma FirstBlock(bySource: Cache, sources: seq<string>)
    requires sources != []
    ensures HasBlock(Merged(bySource, sources), bySource, sources, 0)
  {
    hide Contribution;
    var head := Contribution(bySource, sources[0]);
    assert BlockStart(bySource, sources, 0) == 0 && BlockStart(bySource, sources, 1) == |head|;
    assert Merged(bySource, sources)[0..|head|] == head;
  }

  lemma NextBlock(bySource: Cache, sources: seq<string>, i: nat)
    requires i + 1 < |sources| && HasBlock(Merged(bySource, sources[1..]), bySource, sources[1..], i)
    ensures HasBlock(Merged(bySource, sources), bySource, sources, i + 1)
  {
    var rest := sources[1..];
    var head, tail := Contribution(bySource, sources[0]), Merged(bySource, rest);
    assert Merged(bySource, sources) == head + tail;
    hide Merged, Contribution, BlockStart;
    BlockStartTail(bySource, sources, i);
    BlockStartTail(bySource, sources, i + 1);
    SliceBehind(head, tail, BlockStart(bySource, rest, i), BlockStart(bySource, rest, i + 1));
  }

  /**
   * Order of the configuration: the contribution of each place stands in the merged list as one block,
   * right behind the blocks of the places before it, and the blocks make up the whole list.
   */
  lemma {:induction false} MergedBlocks(bySource: Cache, sources: seq<string>, i: nat)
    requires i < |sources|
    ensures HasBlock(Merged(bySource, sources), bySource, sources, i)
    ensures |Merged(bySource, sources)| == BlockStart(bySource, sources, |sources|)
    decreases |sources|
  {
    hide Merged, HasBlock;
    MergedLength(bySource, sources);
    if i == 0 {
      FirstBlock(bySource, sources);
    } else {
      MergedBlocks(bySource, sources[1..], i - 1);
      NextBlock(bySource, sources, i - 1);
    }
  }

  lemma SliceBehind(head: seq<VMessNode>, tail: seq<VMessNode>, from: nat, to: nat)
    requires from <= to <= |tail|
    ensures (head + tail)[|head| + from..|head| + to] == tail[from..to]
  {}

  // ---------------------------------------------------------------------------------------------
  // Runs of reloads
  // ---------------------------------------------------------------------------------------------

  /** One reload: the sources configured then, what each fetch gave, and whether the file was written. */
  datatype Round = Round(sources: seq<string>, fetches: seq<Fetch>, written: bool)

  predicate Proper(round: Round) {
    |round.sources| == |round.fetches|
  }

  predicate AllProper(history: seq<Round>) {
    forall i :: 0 <= i < |history| ==> Proper(history[i])
  }

  /** The last place at which a source of that name was fetched. */
  function LastFetch(sources: seq<string>, fetches: seq<Fetch>, name: string): (r: Option<nat>)
    requires |sources| == |fetches|
    ensures r.Some? ==> r.value < |sources| && sources[r.value] == name && fetches[r.value].Some?
    ensures forall i :: 0 <= i < |sources| && sources[i] == name && fetches[i].Some? ==> r.Some? && i <= r.value
  {
    var n := |sources|;
    if n == 0 then None
    else if sources[n - 1] == name && fetches[n - 1].Some? then Some(n - 1)
    else LastFetch(sources[..n - 1], fetches[..n - 1], name)
  }

  /** What a round fetched for a source name, if it did; a later place of the same name wins. */
  function Fetched(sources: seq<string>, fetches: seq<Fetch>, name: string): (r: Option<seq<VMessNode>>)
    requires |sources| == |fetches|
    ensures r.Some? ==> name in sources
  {
    var k := LastFetch(sources, fetches, name);
    if k.None? then None else Some(Tagged(fetches[k.value].value, name))
  }

  /** The content of the cache file after the rounds, starting from none. */
  function CacheAfter(history: seq<Round>): (cache: Cache)
    requires AllProper(history)
  {
    if history == [] then map[]
    else
      var n := |history| - 1;
      var (before, round) := (CacheAfter(history[..n]), history[n]);
      if round.written then LoadSources(before, map[], round.sources, round.fetches).cache else before
  }

  /** The nodes of the latest successful fetch of a source that reached the cache file. */
  function Latest(history: seq<Round>, name: string): (r: Option<seq<VMessNode>>)
    requires AllProper(history)
  {
    if history == [] then None
    else
      var n := |history| - 1;
      var now := Fetched(history[n].sources, history[n].fetches, name);
      if history[n].written && now.Some? then now else Latest(history[..n], name)
  }

  lemma TaggedTwice(nodes: seq<VMessNode>, name: string)
    ensures Tagged(Tagged(nodes, name), name) == Tagged(nodes, name)
  {}

  /** The fetch of a later place wins over the first one. */
  lemma FetchedTail(sources: seq<string>, fetches: seq<Fetch>, name: string)
    requires |sources| == |fetches| && sources != []
    ensures var later := Fetched(sources[1..], fetches[1..], name);
            Fetched(sources, fetches, name) ==
            if later.Some? then later
            else if sources[0] == name && fetches[0].Some? then Some(Tagged(fetches[0].value, name))
            else None
  {
    hide Tagged;
    var k, later := LastFetch(sources, fetches, name), LastFetch(sources[1..], fetches[1..], name);
    if later.Some? { assert sources[later.value + 1] == name && fetches[later.value + 1].Some?; }
    if k.Some? && k.value > 0 { assert sources[1..][k.value - 1] == name && fetches[1..][k.value - 1].Some?; }
  }

  /** What the loop leaves for one source name, in the cache and among the contributions. */
  lemma {:induction false} LoadedFor(
    cache: Cache, bySource: Cache, sources: seq<string>, fetches: seq<Fetch>, name: string)
    requires |sources| == |fetches|
    ensures var r := LoadSources(cache, bySource, sources, fetches);
            var got := Fetched(sources, fetches, name);
            && (if got.Some? then name in r.cache && r.cache[name] == got.value
                else (name in r.cache <==> name in cache) && (name in cache ==> r.cache[name] == cache[name]))
            && Contribution(r.bySource, name) ==
               if name !in sources then Contribution(bySource, name)
               else if got.Some? then got.value
               else if name in cache then Tagged(cache[name], name)
               else Contribution(bySource, name)
    decreases |sources|
  {
    hide Tagged, Fetched;
    if sources == [] {
      NothingFetched(fetches, name);
    } else {
      var first, rest, fs := sources[0], sources[1..], fetches[1..];
      assert name in sources <==> name == first || name in rest;
      FetchedTail(sources, fetches, name);
      match fetches[0] {
        case Some(nodes) =>
          TaggedTwice(nodes, first);
          LoadedFor(cache[first := Tagged(nodes, first)], bySource[first := Tagged(nodes, first)], rest, fs, name);
        case None =>
          var next := if first in cache then bySource[first := Tagged(cache[first], first)] else bySource;
          LoadedFor(cache, next, rest, fs, name);
      }
    }
  }

  lemma NothingFetched(fetches: seq<Fetch>, name: string)
    requires fetches == []
    ensures Fetched([], fetches, name) == None
  {}

  lemma FetchedTagged(sources: seq<string>, fetches: seq<Fetch>, name: string)
    requires |sources| == |fetches|
    ensures var got := Fetched(sources, fetches, name); got.Some? ==> Tagged(got.value, name) == got.value
  {
    var k := LastFetch(sources, fetches, name);
    if k.Some? { TaggedTwice(fetches[k.value].value, name); }
  }

  /** After any run of reloads the cache holds exactly the latest successful fetch of each source. */
  lemma {:induction false} CacheHoldsLatest(history: seq<Round>, name: string)
    requires AllProper(history)
    ensures name in CacheAfter(history) <==> Latest(history, name).Some?
    ensures Latest(history, name).Some? ==>
              && CacheAfter(history)[name] == Latest(history, name).value
              && Tagged(CacheAfter(history)[name], name) == CacheAfter(history)[name]
  {
    hide Tagged;
    if history != [] {
      var n := |history| - 1;
      var round := history[n];
      CacheHoldsLatest(history[..n], name);
      LoadedFor(CacheAfter(history[..n]), map[], round.sources, round.fetches, name);
      FetchedTagged(round.sources, round.fetches, name);
    }
  }

  /**
   * Cache fallback over runs: in every reload after any history, a configured source contributes
   * what was fetched for it now or else its latest successful fetch, and nothing if there was none.
   */
  lemma LatestContribution(history: seq<Round>, round: Round, name: string)
    requires AllProper(history) && Proper(round) && name in round.sources
    ensures var loaded := LoadSources(CacheAfter(history), map[], round.sources, round.fetches);
            var now := Fetched(round.sources, round.fetches, name);
            var before := Latest(history, name);
            Contribution(loaded.bySource, name) ==
            if now.Some? then now.value else if before.Some? then before.value else []
  {
    hide Tagged, LoadSources, CacheAfter, Latest, Fetched;
    CacheHoldsLatest(history, name);
    LoadedFor(CacheAfter(history), map[], round.sources, round.fetches, name);
  }

  /** Without a cache file a source contributes what was fetched for it now, and otherwise nothing. */
  lemma NoCacheContribution(round: Round, name: string)
    requires Proper(round) && name in round.sources
    ensures var loaded := LoadSources(map[], map[], round.sources, round.fetches);
            var now := Fetched(round.sources, round.fetches, name);
            Contribution(loaded.bySource, name) == if now.Some? then now.value else []
  {
    hide LoadSources, Fetched;
    LoadedFor(map[], map[], round.sources, round.fetches, name);
  }

  /**
   * A place of the configuration that was fetched contributes its own nodes exactly if the last place of
   * that name that was fetched gave the same nodes; with distinct names that is the place itself.
   */
  lemma OwnFetchExactly(cache: Cache, sources: seq<string>, fetches: seq<Fetch>, i: nat)
    requires |sources| == |fetches| && i < |sources| && fetches[i].Some?
    ensures var loaded := LoadSources(cache, map[], sources, fetches);
            var k := LastFetch(sources, fetches, sources[i]);
            && k.Some? && i <= k.value
            && (Contribution(loaded.bySource, sources[i]) == Tagged(fetches[i].value, sources[i]) <==>
                Tagged(fetches[k.value].value, sources[i]) == Tagged(fetches[i].value, sources[i]))
    ensures (forall j :: i < j < |sources| ==> sources[j] != sources[i]) ==>
              LastFetch(sources, fetches, sources[i]) == Some(i)
  {
    hide LoadSources, Tagged;
    assert sources[i] in sources;
    LoadedFor(cache, map[], sources, fetches, sources[i]);
  }

  /** With a source name given twice, both places contribute the nodes of the later fetch. */
  lemma DuplicateSourceFails(a: VMessNode, b: VMessNode)
    requires a.(source := "s") != b.(source := "s")
    ensures var loaded := LoadSources(map[], map[], ["s", "s"], [Some([a]), Some([b])]);
            Merged(loaded.bySource, ["s", "s"]) == [b.(source := "s"), b.(source := "s")]
  {
    var fetches: seq<Fetch> := [Some([a]), Some([b])];
    var sources := ["s", "s"];
    assert sources[1..] == ["s"] && fetches[1..] == [Some([b])];
    assert ["s"][1..] == [] && [Some([b])][1..] == [];
    assert Tagged([b], "s") == [b.(source := "s")];
    var m: Cache := map["s" := Tagged([b], "s")];
    assert LoadSources(map[], map[], sources, fetches).bySource == m;
    assert Merged(m, sources) == Contribution(m, "s") + Merged(m, ["s"]);
    assert Merged(m, ["s"]) == Contribution(m, "s") + Merged(m, []);
  }
}
