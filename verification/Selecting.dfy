/** Deduplication that keeps one node per name (`deduplicate_nodes` of src/subscription/process.rs). */
module Selecting {
  import opened Nodes

  datatype AddressType = Domain | Ipv4 | Ipv6 | UnknownAddress

  /** The strategies other than renaming. */
  datatype Strategy =
    | First
    | Last
    | PreferIpv4
    | PreferIpv6
    | PreferDomainThenIpv4
    | PreferDomainThenIpv6
    | UnknownStrategy

  /** Which texts the standard library parses as IPv4 and as IPv6 addresses. */
  datatype AddressParser = AddressParser(isIpv4: string -> bool, isIpv6: string -> bool)

  function AddressTypeOf(parser: AddressParser, address: string): (t: AddressType) {
    if address == "" then UnknownAddress
    else if parser.isIpv4(address) then Ipv4
    else if parser.isIpv6(address) then Ipv6
    else Domain
  }

  function AddressPriority(strategy: Strategy, t: AddressType): (p: nat) {
    match strategy
    case PreferIpv4 => (match t case Ipv4 => 3 case Domain => 2 case Ipv6 => 1 case UnknownAddress => 0)
    case PreferIpv6 => (match t case Ipv6 => 3 case Domain => 2 case Ipv4 => 1 case UnknownAddress => 0)
    case PreferDomainThenIpv4 => (match t case Domain => 3 case Ipv4 => 2 case Ipv6 => 1 case UnknownAddress => 0)
    case PreferDomainThenIpv6 => (match t case Domain => 3 case Ipv6 => 2 case Ipv4 => 1 case UnknownAddress => 0)
    case _ => 0
  }

  function PriorityAt(parser: AddressParser, strategy: Strategy, nodes: seq<VMessNode>, i: nat): (p: nat)
    requires i < |nodes|
  {
    AddressPriority(strategy, AddressTypeOf(parser, nodes[i].server))
  }

  /** Between nodes `i` and `j` of one name, `i` is not the worse choice. */
  predicate AtLeastAsGood(parser: AddressParser, strategy: Strategy, nodes: seq<VMessNode>, i: nat, j: nat)
    requires i < |nodes| && j < |nodes|
  {
    if strategy.Last? then j <= i
    else
      var (p, q) := (PriorityAt(parser, strategy, nodes, i), PriorityAt(parser, strategy, nodes, j));
      p > q || (p == q && i <= j)
  }

  /** Node `i` is the earliest of highest priority of its name, or the latest under `Last`. */
  predicate Chosen(parser: AddressParser, strategy: Strategy, nodes: seq<VMessNode>, i: nat)
    requires i < |nodes|
  {
    forall j :: 0 <= j < |nodes| && nodes[j].name == nodes[i].name ==>
      AtLeastAsGood(parser, strategy, nodes, i, j)
  }

  function Kept(parser: AddressParser, strategy: Strategy, nodes: seq<VMessNode>): (keep: set<nat>) {
    set i: nat | i < |nodes| && Chosen(parser, strategy, nodes, i)
  }

  /** The items at the kept indices, in their order. */
  function Pick<T>(items: seq<T>, keep: set<nat>): (r: seq<T>) {
    if items == [] then []
    else
      var n := |items| - 1;
      Pick(items[..n], keep) + if n in keep then [items[n]] else []
  }

  function Select(parser: AddressParser, strategy: Strategy, nodes: seq<VMessNode>): (r: seq<VMessNode>) {
    Pick(nodes, Kept(parser, strategy, nodes))
  }

  // ---------------------------------------------------------------------------------------------
  // The source's loops
  // ---------------------------------------------------------------------------------------------

  /** `indices` is exactly where `key` occurs among the first `n` keys, in ascending order. */
  ghost predicate Occurrences<K>(keys: seq<K>, n: nat, key: K, indices: seq<nat>)
    requires n <= |keys|
  {
    && (forall k :: 0 <= k < |indices| ==> indices[k] < n && keys[indices[k]] == key)
    && (forall k, l :: 0 <= k < l < |indices| ==> indices[k] < indices[l])
    && (forall i :: 0 <= i < n && keys[i] == key ==> i in indices)
  }

  ghost predicate Covered<K>(keys: seq<K>, n: nat, byKey: map<K, seq<nat>>)
    requires n <= |keys|
  {
    forall i :: 0 <= i < n ==> keys[i] in byKey
  }

  ghost predicate Right<K>(keys: seq<K>, n: nat, byKey: map<K, seq<nat>>)
    requires n <= |keys|
  {
    forall key :: key in byKey ==> byKey[key] != [] && Occurrences(keys, n, key, byKey[key])
  }

  /** The map has an entry for each key that occurs, and the entries are right. */
  ghost predicate Indexed<K>(keys: seq<K>, n: nat, byKey: map<K, seq<nat>>)
    requires n <= |keys|
  {
    Covered(keys, n, byKey) && Right(keys, n, byKey)
  }

  /** The first pass: the indices of each name, in order. */
  method CollectIndices<K(==)>(keys: seq<K>) returns (byKey: map<K, seq<nat>>)
    ensures Indexed(keys, |keys|, byKey)
  {
    hide Occurrences;
    byKey := map[];
    var i := 0;
    while i < |keys|
      invariant 0 <= i <= |keys|
      invariant Indexed(keys, i, byKey)
    {
      IndexedStep(keys, i, byKey);
      byKey := byKey[keys[i] := (if keys[i] in byKey then byKey[keys[i]] else []) + [i]];
      i := i + 1;
    }
  }

  lemma OccurrencesHere<K>(keys: seq<K>, i: nat, indices: seq<nat>)
    requires i < |keys| && Occurrences(keys, i, keys[i], indices)
    ensures Occurrences(keys, i + 1, keys[i], indices + [i])
  {
    var next := indices + [i];
    forall j | 0 <= j < i + 1 && keys[j] == keys[i] ensures j in next {
      if j < i {
        assert j in indices;
      } else {
        assert next[|indices|] == j;
      }
    }
  }

  lemma OccurrencesElsewhere<K>(keys: seq<K>, i: nat, key: K, indices: seq<nat>)
    requires i < |keys| && key != keys[i] && Occurrences(keys, i, key, indices)
    ensures Occurrences(keys, i + 1, key, indices)
  {}

  lemma RightStep<K>(keys: seq<K>, i: nat, byKey: map<K, seq<nat>>, indices: seq<nat>)
    requires i < |keys| && Right(keys, i, byKey) && Occurrences(keys, i, keys[i], indices)
    ensures Right(keys, i + 1, byKey[keys[i] := indices + [i]])
  {
    hide Occurrences;
    var next := byKey[keys[i] := indices + [i]];
    OccurrencesHere(keys, i, indices);
    forall key | key in next ensures next[key] != [] && Occurrences(keys, i + 1, key, next[key]) {
      if key != keys[i] { OccurrencesElsewhere(keys, i, key, byKey[key]); }
    }
  }

  lemma CoveredStep<K>(keys: seq<K>, i: nat, byKey: map<K, seq<nat>>, indices: seq<nat>)
    requires i < |keys| && Covered(keys, i, byKey)
    ensures Covered(keys, i + 1, byKey[keys[i] := indices])
  {}

  lemma IndexedStep<K>(keys: seq<K>, i: nat, byKey: map<K, seq<nat>>)
    requires i < |keys| && Indexed(keys, i, byKey)
    ensures var indices := if keys[i] in byKey then byKey[keys[i]] else [];
            Indexed(keys, i + 1, byKey[keys[i] := indices + [i]])
  {
    var indices := if keys[i] in byKey then byKey[keys[i]] else [];
    SoFar(keys, i, byKey);
    hide Covered, Right, Occurrences;
    RightStep(keys, i, byKey, indices);
    CoveredStep(keys, i, byKey, indices + [i]);
  }

  /** A key without an entry does not occur yet. */
  lemma SoFar<K>(keys: seq<K>, i: nat, byKey: map<K, seq<nat>>)
    requires i < |keys| && Indexed(keys, i, byKey)
    ensures Occurrences(keys, i, keys[i], if keys[i] in byKey then byKey[keys[i]] else [])
  {}

  /** The index kept for one name. */
  method SelectIndex(parser: AddressParser, strategy: Strategy, nodes: seq<VMessNode>, name: string, indices: seq<nat>)
    returns (selected: nat)
    requires indices != [] && Occurrences(Names(nodes), |nodes|, name, indices)
    ensures selected < |nodes| && nodes[selected].name == name
    ensures Chosen(parser, strategy, nodes, selected)
  {
    hide AddressPriority, AddressTypeOf;
    NoPriority(parser, strategy, nodes);
    if |indices| == 1 {
      return indices[0];
    }
    if strategy.First? {
      return indices[0];
    } else if strategy.Last? {
      return indices[|indices| - 1];
    }
    var bestIdx := indices[0];
    var bestPriority: int := -1;
    var k := 0;
    while k < |indices|
      invariant 0 <= k <= |indices|
      invariant bestIdx in indices
      invariant bestPriority == -1 <==> k == 0
      invariant k > 0 ==> bestPriority == PriorityAt(parser, strategy, nodes, bestIdx)
      invariant k > 0 ==> forall l :: 0 <= l < k ==> AtLeastAsGood(parser, strategy, nodes, bestIdx, indices[l])
      invariant k > 0 ==> exists l :: 0 <= l < k && indices[l] == bestIdx
    {
      var idx := indices[k];
      var priority := AddressPriority(strategy, AddressTypeOf(parser, nodes[idx].server));
      if priority > bestPriority {
        bestPriority := priority;
        bestIdx := idx;
      }
      k := k + 1;
    }
    return bestIdx;
  }

  /** Without preferred addresses every priority is zero. */
  lemma NoPriority(parser: AddressParser, strategy: Strategy, nodes: seq<VMessNode>)
    ensures strategy.First? || strategy.Last? || strategy.UnknownStrategy? ==>
              forall i: nat :: i < |nodes| ==> PriorityAt(parser, strategy, nodes, i) == 0
  {}

  /** The loop over the name map: its entries are visited in any order whatsoever. */
  method ChooseAll(parser: AddressParser, strategy: Strategy, nodes: seq<VMessNode>, byName: map<string, seq<nat>>)
    returns (keep: set<nat>)
    requires Indexed(Names(nodes), |nodes|, byName)
    ensures keep == Kept(parser, strategy, nodes)
  {
    hide Chosen, Occurrences;
    keep := {};
    var names := byName.Keys;
    while names != {}
      invariant names <= byName.Keys
      invariant forall i: nat :: i in keep <==>
                  i < |nodes| && nodes[i].name !in names && Chosen(parser, strategy, nodes, i)
    {
      var name :| name in names;
      var selected := SelectIndex(parser, strategy, nodes, name, byName[name]);
      OnlyOneChosen(parser, strategy, nodes, selected);
      keep := keep + {selected};
      names := names - {name};
    }
  }

  method DeduplicateSelecting(parser: AddressParser, strategy: Strategy, nodes: seq<VMessNode>)
    returns (out: seq<VMessNode>)
    ensures out == Select(parser, strategy, nodes)
  {
    hide Kept, Indexed;
    var byName := CollectIndices(Names(nodes));
    var keep := ChooseAll(parser, strategy, nodes, byName);
    out := [];
    var i := 0;
    while i < |nodes|
      invariant 0 <= i <= |nodes|
      invariant out == Pick(nodes[..i], keep)
    {
      assert nodes[..i + 1][..i] == nodes[..i];
      if i in keep {
        out := out + [nodes[i]];
      }
      i := i + 1;
    }
    assert nodes[..i] == nodes;
  }

  // ---------------------------------------------------------------------------------------------
  // Proofs
  // ---------------------------------------------------------------------------------------------

  /** The documented orders of preference, for any two nodes of one name. */
  lemma DocumentedPreference(parser: AddressParser, strategy: Strategy, nodes: seq<VMessNode>, i: nat, j: nat)
    requires i < |nodes| && j < |nodes|
    requires var (a, b) := (AddressTypeOf(parser, nodes[i].server), AddressTypeOf(parser, nodes[j].server));
             match strategy
             case PreferIpv4 => (a.Ipv4? && !b.Ipv4?) || (a.Domain? && (b.Ipv6? || b.UnknownAddress?))
             case PreferIpv6 => (a.Ipv6? && !b.Ipv6?) || (a.Domain? && (b.Ipv4? || b.UnknownAddress?))
             case PreferDomainThenIpv4 => (a.Domain? && !b.Domain?) || (a.Ipv4? && (b.Ipv6? || b.UnknownAddress?))
             case PreferDomainThenIpv6 => (a.Domain? && !b.Domain?) || (a.Ipv6? && (b.Ipv4? || b.UnknownAddress?))
             case Last => i > j
             case _ => i < j
    ensures AtLeastAsGood(parser, strategy, nodes, i, j) && !AtLeastAsGood(parser, strategy, nodes, j, i)
  {}

  /** At most one node of each name is chosen. */
  lemma OnlyOneChosen(parser: AddressParser, strategy: Strategy, nodes: seq<VMessNode>, i: nat)
    requires i < |nodes| && Chosen(parser, strategy, nodes, i)
    ensures forall j: nat :: j < |nodes| && nodes[j].name == nodes[i].name && Chosen(parser, strategy, nodes, j) ==>
              j == i
  {
    hide PriorityAt;
    forall j: nat | j < |nodes| && nodes[j].name == nodes[i].name && Chosen(parser, strategy, nodes, j)
      ensures j == i
    {
      assert AtLeastAsGood(parser, strategy, nodes, i, j) && AtLeastAsGood(parser, strategy, nodes, j, i);
    }
  }

  /** And at least one: the loop over all nodes of the name finds it. */
  lemma {:induction false} SomeChosen(
    parser: AddressParser, strategy: Strategy, nodes: seq<VMessNode>, name: string, n: nat)
    returns (i: nat)
    requires n <= |nodes| && exists j :: 0 <= j < n && nodes[j].name == name
    ensures i < n && nodes[i].name == name
    ensures forall j :: 0 <= j < n && nodes[j].name == name ==> AtLeastAsGood(parser, strategy, nodes, i, j)
    decreases n
  {
    hide PriorityAt;
    if exists j :: 0 <= j < n - 1 && nodes[j].name == name {
      i := SomeChosen(parser, strategy, nodes, name, n - 1);
      if nodes[n - 1].name == name && AtLeastAsGood(parser, strategy, nodes, n - 1, i) {
        i := n - 1;
      }
    } else {
      i := n - 1;
    }
  }

  /** The kept indices below `n`, ascending: where each node of the result comes from. */
  function Indices(n: nat, keep: set<nat>): (from: seq<nat>) {
    if n == 0 then [] else Indices(n - 1, keep) + if n - 1 in keep then [n - 1] else []
  }

  lemma {:induction false} IndicesSound(n: nat, keep: set<nat>)
    ensures forall k :: 0 <= k < |Indices(n, keep)| ==> Indices(n, keep)[k] < n && Indices(n, keep)[k] in keep
    ensures forall k, l :: 0 <= k < l < |Indices(n, keep)| ==> Indices(n, keep)[k] < Indices(n, keep)[l]
  {
    if n > 0 {
      IndicesSound(n - 1, keep);
      var front := Indices(n - 1, keep);
      assert Indices(n, keep) == if n - 1 in keep then front + [n - 1] else front;
    }
  }

  lemma {:induction false} IndicesComplete(n: nat, keep: set<nat>, i: nat)
    requires i < n && i in keep
    ensures i in Indices(n, keep)
  {
    if i < n - 1 { IndicesComplete(n - 1, keep, i); }
  }

  lemma {:induction false} PickFrom<T>(items: seq<T>, keep: set<nat>)
    ensures |Pick(items, keep)| == |Indices(|items|, keep)|
    ensures forall k :: 0 <= k < |Pick(items, keep)| ==>
              Indices(|items|, keep)[k] < |items| && Pick(items, keep)[k] == items[Indices(|items|, keep)[k]]
  {
    if items != [] {
      PickFrom(items[..|items| - 1], keep);
    }
  }

  /**
   * Selecting: the result is a subsequence with distinct names that loses no name, and each kept
   * node is, among all nodes of its name, the earliest of highest priority (the latest for `Last`).
   */
  lemma SelectKeepsBest(parser: AddressParser, strategy: Strategy, nodes: seq<VMessNode>) returns (from: seq<nat>)
    ensures var out := Select(parser, strategy, nodes);
            && |from| == |out|
            && (forall k :: 0 <= k < |from| ==>
                  from[k] < |nodes| && out[k] == nodes[from[k]] && Chosen(parser, strategy, nodes, from[k]))
            && (forall k, l :: 0 <= k < l < |from| ==> from[k] < from[l] && out[k].name != out[l].name)
            && (forall i :: 0 <= i < |nodes| ==> nodes[i].name in Names(out))
  {
    hide PriorityAt, AtLeastAsGood;
    var keep := Kept(parser, strategy, nodes);
    var out := Select(parser, strategy, nodes);
    from := Indices(|nodes|, keep);
    PickFrom(nodes, keep);
    IndicesSound(|nodes|, keep);
    forall k, l | 0 <= k < l < |from| ensures out[k].name != out[l].name {
      OnlyOneChosen(parser, strategy, nodes, from[k]);
    }
    forall i | 0 <= i < |nodes| ensures nodes[i].name in Names(out) {
      var c := SomeChosen(parser, strategy, nodes, nodes[i].name, |nodes|);
      IndicesComplete(|nodes|, keep, c);
      var k :| 0 <= k < |from| && from[k] == c;
      assert Names(out)[k] == nodes[i].name;
    }
  }

  lemma {:induction false} PickAll<T>(items: seq<T>, keep: set<nat>)
    requires forall i: nat :: i < |items| ==> i in keep
    ensures Pick(items, keep) == items
  {
    if items != [] {
      var n := |items| - 1;
      PickAll(items[..n], keep);
      assert items == items[..n] + [items[n]];
    }
  }

  /** Selecting twice changes nothing more. */
  lemma SelectIdempotent(parser: AddressParser, strategy: Strategy, nodes: seq<VMessNode>)
    ensures var out := Select(parser, strategy, nodes); Select(parser, strategy, out) == out
  {
    var out := Select(parser, strategy, nodes);
    var from := SelectKeepsBest(parser, strategy, nodes);
    hide Select;
    forall i: nat | i < |out| ensures Chosen(parser, strategy, out, i) {
      forall j | 0 <= j < |out| && out[j].name == out[i].name
        ensures AtLeastAsGood(parser, strategy, out, i, j)
      {
        assert i == j;
      }
    }
    DistinctUnchanged(parser, strategy, out);
  }

  lemma DistinctUnchanged(parser: AddressParser, strategy: Strategy, nodes: seq<VMessNode>)
    requires forall i: nat :: i < |nodes| ==> Chosen(parser, strategy, nodes, i)
    ensures Select(parser, strategy, nodes) == nodes
  {
    PickAll(nodes, Kept(parser, strategy, nodes));
  }
}
