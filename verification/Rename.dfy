/** Deduplication by renaming (`deduplicate_nodes` of src/subscription/process.rs). */
module Rename {
  import opened Nodes

  function Count(names: seq<string>, name: string): (n: nat) {
    if names == [] then 0
    else Count(names[..|names| - 1], name) + if names[|names| - 1] == name then 1 else 0
  }

  /** The name with " (k)" appended. */
  function Numbered(name: string, k: nat): (s: string) {
    name + " (" + Decimal(k) + ")"
  }

  /** The first of equal names stays; the next ones are numbered by how many came before. */
  function NewName(names: seq<string>, i: nat): (s: string)
    requires i < |names|
  {
    var k := Count(names[..i], names[i]);
    if k == 0 then names[i] else Numbered(names[i], k)
  }

  method RenameDuplicates(nodes: seq<VMessNode>) returns (out: seq<VMessNode>)
    ensures |out| == |nodes|
    ensures forall i :: 0 <= i < |nodes| ==> out[i] == nodes[i].(name := NewName(Names(nodes), i))
  {
    hide Count, Numbered;
    ghost var names := Names(nodes);
    var seen: map<string, nat> := map[];
    TallyEmpty();
    out := [];
    var i := 0;
    while i < |nodes|
      invariant 0 <= i <= |nodes| && |out| == i
      invariant Tally(seen, names[..i])
      invariant forall j :: 0 <= j < i ==> out[j] == nodes[j].(name := NewName(names, j))
    {
      var node := nodes[i];
      var tag := node.name;
      TallyStep(seen, names[..i], tag);
      assert names[..i] + [tag] == names[..i + 1];
      if tag in seen {
        seen := seen[tag := seen[tag] + 1];
        node := node.(name := Numbered(tag, seen[tag]));
      } else {
        seen := seen[tag := 0];
      }
      out := out + [node];
      i := i + 1;
    }
  }

  /** `seen` holds, for each name met so far, how often it was met again. */
  ghost predicate Tally(seen: map<string, nat>, names: seq<string>) {
    forall n :: (n in seen <==> Count(names, n) > 0) && (n in seen ==> seen[n] == Count(names, n) - 1)
  }

  lemma TallyEmpty()
    ensures Tally(map[], [])
  {}

  lemma TallyStep(seen: map<string, nat>, names: seq<string>, tag: string)
    requires Tally(seen, names)
    ensures Tally(seen[tag := if tag in seen then seen[tag] + 1 else 0], names + [tag])
    ensures tag in seen <==> Count(names, tag) > 0
    ensures tag in seen ==> seen[tag] + 1 == Count(names, tag)
  {
    assert (names + [tag])[..|names|] == names;
  }

  // ---------------------------------------------------------------------------------------------
  // Proofs
  // ---------------------------------------------------------------------------------------------

  lemma LastParen(name: string, k: nat)
    ensures var s := Numbered(name, k);
            s[|name| + 1] == '(' && forall i :: |name| + 1 < i < |s| ==> s[i] != '('
  {
    var s, d := Numbered(name, k), Decimal(k);
    assert forall i :: |name| + 2 <= i < |name| + 2 + |d| ==> s[i] == d[i - |name| - 2] && IsDigit(s[i]);
  }

  /** Numbered names coincide only if both the name and the number do. */
  lemma NumberedInjective(a: string, j: nat, b: string, k: nat)
    ensures Numbered(a, j) == Numbered(b, k) <==> a == b && j == k
  {
    if Numbered(a, j) == Numbered(b, k) {
      LastParen(a, j);
      LastParen(b, k);
      var s := Numbered(a, j);
      assert |a| == |b|;
      assert s[..|a|] == a && s[..|b|] == b;
      assert s[|a| + 2..|s| - 1] == Decimal(j) && s[|b| + 2..|s| - 1] == Decimal(k);
      DecimalRoundTrip(j);
      DecimalRoundTrip(k);
    }
  }

  lemma {:induction false} CountMonotone(names: seq<string>, name: string, i: nat, j: nat)
    requires i <= j <= |names|
    ensures Count(names[..i], name) <= Count(names[..j], name)
    ensures i < j && names[i] == name ==> Count(names[..i], name) < Count(names[..j], name)
    decreases j
  {
    if i < j {
      assert names[..j][..j - 1] == names[..j - 1];
      CountMonotone(names, name, i, j - 1);
    }
  }

  /** Every number below the count of a name is the number of some occurrence. */
  lemma {:induction false} NthOccurrence(names: seq<string>, name: string, k: nat) returns (i: nat)
    requires k < Count(names, name)
    ensures i < |names| && names[i] == name && Count(names[..i], name) == k
    decreases |names|
  {
    var n := |names| - 1;
    var front := names[..n];
    if k < Count(front, name) {
      i := NthOccurrence(front, name, k);
      assert front[..i] == names[..i];
    } else {
      i := n;
    }
  }

  lemma {:induction false} CountMember(names: seq<string>, name: string)
    ensures Count(names, name) > 0 <==> name in names
  {
    if names != [] {
      var n := |names| - 1;
      assert names == names[..n] + [names[n]];
      CountMember(names[..n], name);
    }
  }

  /** Some input name already looks like the number `k` given to a later occurrence of `n`. */
  predicate Taken(names: seq<string>, n: string, k: nat) {
    1 <= k < Count(names, n) && Numbered(n, k) in names
  }

  /** Two outputs agree exactly when one is a kept name and the other the same text generated. */
  lemma OutputsDiffer(names: seq<string>, i: nat, j: nat)
    requires i < j < |names|
    requires forall n, k :: !Taken(names, n, k)
    ensures NewName(names, i) != NewName(names, j)
  {
    var (a, b) := (names[i], names[j]);
    var (k, l) := (Count(names[..i], a), Count(names[..j], b));
    CountMonotone(names, a, i, j);
    CountMonotone(names, a, i, |names|);
    CountMonotone(names, b, j, |names|);
    assert names[..|names|] == names;
    NumberedInjective(a, k, b, l);
    assert !Taken(names, a, k) && !Taken(names, b, l);
  }

  /**
   * All output names are distinct exactly when no input name equals "n (k)" for an input name n
   * that occurs more than k times, k at least 1.
   */
  lemma RenameDistinctExactly(names: seq<string>)
    ensures (forall i, j :: 0 <= i < j < |names| ==> NewName(names, i) != NewName(names, j))
            <==> (forall n, k :: !Taken(names, n, k))
  {
    if forall n, k :: !Taken(names, n, k) {
      forall i, j | 0 <= i < j < |names| ensures NewName(names, i) != NewName(names, j) {
        OutputsDiffer(names, i, j);
      }
    } else {
      var n, k :| Taken(names, n, k);
      var i, j := TakenCollides(names, n, k);
      if i < j {
        assert NewName(names, i) == NewName(names, j);
      } else {
        assert NewName(names, j) == NewName(names, i);
      }
    }
  }

  lemma TakenCollides(names: seq<string>, n: string, k: nat) returns (i: nat, j: nat)
    requires Taken(names, n, k)
    ensures i < |names| && j < |names| && i != j && NewName(names, i) == NewName(names, j)
  {
    var m := Numbered(n, k);
    CountMember(names, m);
    i := NthOccurrence(names, m, 0);
    j := NthOccurrence(names, n, k);
    assert |m| > |n|;
  }

  /** Two generated names never coincide, whatever the input. */
  lemma GeneratedDiffer(names: seq<string>, i: nat, j: nat)
    requires i < j < |names|
    requires Count(names[..i], names[i]) > 0 && Count(names[..j], names[j]) > 0
    ensures NewName(names, i) != NewName(names, j)
  {
    CountMonotone(names, names[i], i, j);
    NumberedInjective(names[i], Count(names[..i], names[i]), names[j], Count(names[..j], names[j]));
  }

  /** Renaming leaves distinct names alone. */
  lemma RenameKeepsDistinct(names: seq<string>, i: nat)
    requires i < |names| && forall a, b :: 0 <= a < b < |names| ==> names[a] != names[b]
    ensures NewName(names, i) == names[i]
  {
    CountMember(names[..i], names[i]);
  }

  /** The output can contain a name twice. */
  lemma RenameCollides()
    ensures var names := ["a", "a", "a (1)"]; NewName(names, 1) == NewName(names, 2)
  {
    var names := ["a", "a", "a (1)"];
    assert names[..1] == ["a"] && names[..2] == ["a", "a"];
    assert ["a", "a"][..1] == ["a"] && ["a"][..0] == [];
    assert Decimal(1) == "1";
    assert Count(["a"], "a") == 1;
    assert Count(["a"], "a (1)") == 0;
    assert Count(["a", "a"], "a (1)") == 0;
  }
}
