/** The routing table built from the nodes (src/subscription/manager.rs, src/vmess/validator.rs). */
module Routing {
  import opened Prelude
  import opened Nodes
  import opened Uuid
  import PoolKeys

  datatype Transport = Tcp | Grpc(serviceName: string, tlsSni: string, requestUri: string)

  datatype Upstream = Upstream(addr: string, transport: Transport)

  /** `key` stands for the verifier: everything in it is derived from the bytes of the UUID. */
  datatype Entry = Entry(uuid: string, key: Bytes, upstream: Upstream)

  /** The library parsers that can reject a node. */
  datatype Parsers = Parsers(
    socketAddr: string -> bool,
    requestUri: string -> bool)

  function KeyOf(uuid: string): (key: Bytes) {
    if UuidOf(uuid).Some? then UuidOf(uuid).value else []
  }

  function AddrOf(node: VMessNode): (addr: string) {
    node.server + ":" + Decimal(node.port)
  }

  function TransportOf(node: VMessNode): (t: Transport) {
    if node.network == "grpc" then
      Grpc(if node.grpcServiceName.Some? then node.grpcServiceName.value else "", node.sni, RequestUri(node))
    else Tcp
  }

  function RequestUri(node: VMessNode): (uri: string) {
    "https://" + node.sni + ":" + Decimal(node.port) + "/"
    + (if node.grpcServiceName.Some? then node.grpcServiceName.value else "") + "/Tun"
  }

  predicate Reachable(parsers: Parsers, node: VMessNode) {
    parsers.socketAddr(AddrOf(node)) && (node.network == "grpc" ==> parsers.requestUri(RequestUri(node)))
  }

  function EntryOf(node: VMessNode): (e: Entry) {
    Entry(node.uuid, KeyOf(node.uuid), Upstream(AddrOf(node), TransportOf(node)))
  }

  /** The gRPC endpoints that the table can reach. */
  function GrpcEndpoints(entries: seq<Entry>): (endpoints: set<PoolKeys.Endpoint>) {
    set e | e in entries && e.upstream.transport.Grpc? ::
      PoolKeys.Endpoint(e.upstream.addr, e.upstream.transport.tlsSni)
  }

  function Entries(nodes: seq<VMessNode>): (entries: seq<Entry>)
    ensures |entries| == |nodes|
    ensures forall i :: 0 <= i < |nodes| ==> entries[i] == EntryOf(nodes[i])
  {
    seq(|nodes|, i requires 0 <= i < |nodes| => EntryOf(nodes[i]))
  }

  /** A table can be built: every node can be reached and identified, and no UUID occurs twice. */
  predicate Routable(parsers: Parsers, nodes: seq<VMessNode>) {
    && (forall i :: 0 <= i < |nodes| ==> Reachable(parsers, nodes[i]) && UuidOf(nodes[i].uuid).Some?)
    && (forall i, j :: 0 <= i < j < |nodes| ==> nodes[i].uuid != nodes[j].uuid)
  }

  /** `Validator::new`. */
  method NewValidator(pairs: seq<(string, Upstream)>) returns (r: Result<seq<Entry>>)
    ensures r.Ok? <==>
              && (forall i :: 0 <= i < |pairs| ==> UuidOf(pairs[i].0).Some?)
              && (forall i, j :: 0 <= i < j < |pairs| ==> pairs[i].0 != pairs[j].0)
    ensures r.Ok? ==> |r.value| == |pairs|
    ensures r.Ok? ==> forall i :: 0 <= i < |pairs| ==> r.value[i] == Entry(pairs[i].0, KeyOf(pairs[i].0), pairs[i].1)
  {
    hide UuidOf;
    var seen: set<string> := {};
    var entries: seq<Entry> := [];
    var i := 0;
    while i < |pairs|
      invariant 0 <= i <= |pairs| && |entries| == i
      invariant forall u :: u in seen <==> exists j :: 0 <= j < i && pairs[j].0 == u
      invariant forall j :: 0 <= j < i ==> UuidOf(pairs[j].0).Some?
      invariant forall j :: 0 <= j < i ==> entries[j] == Entry(pairs[j].0, KeyOf(pairs[j].0), pairs[j].1)
      invariant forall j, k :: 0 <= j < k < i ==> pairs[j].0 != pairs[k].0
    {
      var (uuid, upstream) := pairs[i];
      if uuid in seen {
        return Err;
      }
      seen := seen + {uuid};
      var parsed := ParseUuid(uuid);
      if parsed.None? {
        return Err;
      }
      entries := entries + [Entry(uuid, parsed.value, upstream)];
      i := i + 1;
    }
    return Ok(entries);
  }

  method BuildValidator(parsers: Parsers, nodes: seq<VMessNode>) returns (r: Result<seq<Entry>>)
    ensures r.Ok? <==> Routable(parsers, nodes)
    ensures r.Ok? ==> r.value == Entries(nodes)
  {
    hide AddrOf, TransportOf, RequestUri, UuidOf;
    var pairs: seq<(string, Upstream)> := [];
    var i := 0;
    while i < |nodes|
      invariant 0 <= i <= |nodes| && |pairs| == i
      invariant forall j :: 0 <= j < i ==> Reachable(parsers, nodes[j])
      invariant forall j :: 0 <= j < i ==> pairs[j] == (nodes[j].uuid, EntryOf(nodes[j]).upstream)
    {
      var node := nodes[i];
      var addr := AddrOf(node);
      if !parsers.socketAddr(addr) {
        return Err;
      }
      var transport := TransportOf(node);
      if node.network == "grpc" && !parsers.requestUri(RequestUri(node)) {
        return Err;
      }
      pairs := pairs + [(node.uuid, Upstream(addr, transport))];
      i := i + 1;
    }
    r := NewValidator(pairs);
  }

  /** The text is a server and a port, split at its last colon. */
  predicate IsAddress(text: string, server: string, port: nat) {
    var n := |server|;
    && n < |text| && text[..n] == server && text[n] == ':' && ':' !in text[n + 1..]
    && text[n + 1..] != "" && (forall i :: n < i < |text| ==> IsDigit(text[i])) && DecimalValue(text[n + 1..]) == port
  }

  lemma AddressSplits(node: VMessNode)
    ensures IsAddress(AddrOf(node), node.server, node.port)
  {
    hide Decimal, DecimalValue;
    DecimalRoundTrip(node.port);
    var (text, n, d) := (AddrOf(node), |node.server|, Decimal(node.port));
    assert text[n + 1..] == d;
    assert forall i :: n < i < |text| ==> text[i] == d[i - n - 1];
  }

  function ServiceOf(node: VMessNode): (s: string) {
    if node.grpcServiceName.Some? then node.grpcServiceName.value else ""
  }

  /**
   * The table, over the nodes' own fields: entry `i` is for the UUID of node `i`, leads to its server and
   * port, and is a gRPC one exactly if the node's network is "grpc"; then service name, TLS server name
   * and request URI are the node's.
   */
  lemma TableExactly(nodes: seq<VMessNode>, i: nat)
    requires i < |nodes|
    ensures var node := nodes[i];
            var entry := Entries(nodes)[i];
            var t := entry.upstream.transport;
            && |Entries(nodes)| == |nodes|
            && entry.uuid == node.uuid && (UuidOf(node.uuid).Some? ==> UuidOf(node.uuid) == Some(entry.key))
            && IsAddress(entry.upstream.addr, node.server, node.port)
            && (t.Grpc? <==> node.network == "grpc")
            && (t.Grpc? ==>
                  && t.serviceName == ServiceOf(node) && t.tlsSni == node.sni
                  && t.requestUri == "https://" + node.sni + ":" + Decimal(node.port) + "/" + ServiceOf(node) + "/Tun")
  {
    hide Decimal, UuidOf;
    AddressSplits(nodes[i]);
  }

  /** A table can be built exactly if every node passes the parsers, over the texts they are given. */
  lemma RoutableExactly(parsers: Parsers, nodes: seq<VMessNode>)
    ensures Routable(parsers, nodes) <==>
            && (forall i :: 0 <= i < |nodes| ==> parsers.socketAddr(nodes[i].server + ":" + Decimal(nodes[i].port)))
            && (forall i :: 0 <= i < |nodes| && nodes[i].network == "grpc" ==>
                  parsers.requestUri("https://" + nodes[i].sni + ":" + Decimal(nodes[i].port) + "/"
                                     + ServiceOf(nodes[i]) + "/Tun"))
            && (forall i :: 0 <= i < |nodes| ==> |Digits(nodes[i].uuid)| == 32)
            && (forall i, j :: 0 <= i < j < |nodes| ==> nodes[i].uuid != nodes[j].uuid)
  {
    hide Decimal, Digits;
  }

  /** The endpoints given to the pruner are exactly those of the gRPC nodes. */
  lemma EndpointsExactly(nodes: seq<VMessNode>, e: PoolKeys.Endpoint)
    ensures e in GrpcEndpoints(Entries(nodes)) <==>
            exists i :: && 0 <= i < |nodes| && nodes[i].network == "grpc" && e.sni == nodes[i].sni
                        && e.addr == nodes[i].server + ":" + Decimal(nodes[i].port)
  {
    hide Decimal, UuidOf, RequestUri;
    var entries := Entries(nodes);
    if e in GrpcEndpoints(entries) {
      var x :| && x in entries && x.upstream.transport.Grpc?
               && e == PoolKeys.Endpoint(x.upstream.addr, x.upstream.transport.tlsSni);
      var i :| 0 <= i < |entries| && entries[i] == x;
      assert nodes[i].network == "grpc";
    }
    if i :| && 0 <= i < |nodes| && nodes[i].network == "grpc" && e.sni == nodes[i].sni
            && e.addr == nodes[i].server + ":" + Decimal(nodes[i].port) {
      assert entries[i] in entries;
    }
  }

  /** Whether the verifier made from a key, the first argument, accepts an auth id, the second. */
  type Verifier = (Bytes, Bytes) -> bool

  /** The first entry that accepts an auth id. */
  function FirstMatch(entries: seq<Entry>, accepts: Verifier, id: Bytes): (r: Option<nat>)
    ensures r.Some? ==> r.value < |entries| && accepts(entries[r.value].key, id)
    ensures r.Some? ==> forall j :: 0 <= j < r.value ==> !accepts(entries[j].key, id)
    ensures r.None? ==> forall j :: 0 <= j < |entries| ==> !accepts(entries[j].key, id)
  {
    if entries == [] then None
    else if accepts(entries[0].key, id) then Some(0)
    else
      var later := FirstMatch(entries[1..], accepts, id);
      if later.None? then None else Some(later.value + 1)
  }

  method MatchAuthId(entries: seq<Entry>, accepts: Verifier, id: Bytes) returns (r: Option<Upstream>)
    ensures r.None? <==> forall i :: 0 <= i < |entries| ==> !accepts(entries[i].key, id)
    ensures r.Some? ==>
              exists i :: && 0 <= i < |entries| && accepts(entries[i].key, id) && r.value == entries[i].upstream
                          && forall j :: 0 <= j < i ==> !accepts(entries[j].key, id)
    ensures var m := FirstMatch(entries, accepts, id); r == if m.None? then None else Some(entries[m.value].upstream)
  {
    var i := 0;
    while i < |entries|
      invariant 0 <= i <= |entries|
      invariant forall j :: 0 <= j < i ==> !accepts(entries[j].key, id)
    {
      if accepts(entries[i].key, id) {
        return Some(entries[i].upstream);
      }
      i := i + 1;
    }
    return None;
  }

  /** The auth id is accepted by this key and by no other key of the table. */
  predicate OwnId(entries: seq<Entry>, accepts: Verifier, key: Bytes, id: Bytes) {
    && accepts(key, id)
    && forall i :: 0 <= i < |entries| && entries[i].key != key ==> !accepts(entries[i].key, id)
  }

  ghost predicate HasOwnId(entries: seq<Entry>, accepts: Verifier, key: Bytes) {
    exists id :: OwnId(entries, accepts, key, id)
  }

  /** An auth id is routed to an entry exactly if that accepts it and no earlier one does. */
  lemma MatchExactly(entries: seq<Entry>, accepts: Verifier, id: Bytes, j: nat)
    requires j < |entries|
    ensures FirstMatch(entries, accepts, id) == Some(j) <==>
            accepts(entries[j].key, id) && forall i :: 0 <= i < j ==> !accepts(entries[i].key, id)
  {
    hide FirstMatch;
  }

  /**
   * For every verifier, an entry behind one with the same UUID bytes is reached by no auth id; and for one
   * that can tell the keys apart, an entry is reached by some auth id exactly if it is not behind such a one.
   */
  lemma ReachedExactly(entries: seq<Entry>, accepts: Verifier, j: nat)
    requires j < |entries|
    ensures (exists i :: 0 <= i < j && entries[i].key == entries[j].key) ==>
              forall id :: FirstMatch(entries, accepts, id) != Some(j)
    ensures HasOwnId(entries, accepts, entries[j].key) ==>
              ((exists id :: FirstMatch(entries, accepts, id) == Some(j)) <==>
               forall i :: 0 <= i < j ==> entries[i].key != entries[j].key)
  {
    hide FirstMatch;
    var key := entries[j].key;
    if (forall i :: 0 <= i < j ==> entries[i].key != key) && HasOwnId(entries, accepts, key) {
      var id :| OwnId(entries, accepts, key, id);
      MatchExactly(entries, accepts, id, j);
    }
  }

  /**
   * The check for duplicates compares texts: with any two spellings of one UUID both nodes are accepted,
   * and no auth id is ever routed to the second.
   */
  lemma SpellingShadows(parsers: Parsers, a: VMessNode, b: VMessNode, accepts: Verifier, id: Bytes)
    requires Reachable(parsers, a) && Reachable(parsers, b)
    requires UuidOf(a.uuid).Some? && b.uuid != a.uuid && Digits(b.uuid) == Digits(a.uuid)
    ensures Routable(parsers, [a, b])
    ensures FirstMatch(Entries([a, b]), accepts, id) != Some(1)
  {
    hide Reachable, AddrOf, TransportOf, FirstMatch;
    SameUuidExactly(a.uuid, b.uuid);
    assert Entries([a, b])[0].key == Entries([a, b])[1].key;
  }

  /** Every node has such a double. */
  lemma SpellingShadowsAny(parsers: Parsers, a: VMessNode, accepts: Verifier, id: Bytes) returns (b: VMessNode)
    requires Reachable(parsers, a) && UuidOf(a.uuid).Some?
    ensures b == a.(uuid := b.uuid) && b.uuid != a.uuid
    ensures Routable(parsers, [a, b]) && FirstMatch(Entries([a, b]), accepts, id) != Some(1)
  {
    hide Routable, FirstMatch, UuidOf, Digits;
    b := a.(uuid := "-" + a.uuid);
    OtherSpelling(a.uuid);
    SpellingShadows(parsers, a, b, accepts, id);
  }
}
