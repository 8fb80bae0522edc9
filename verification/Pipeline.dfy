/** The processing pipeline of src/subscription/process.rs. */
module Pipeline {
  import opened Prelude
  import opened Nodes

  /** A compiled regular expression: what it matches, and what replacing all its matches yields. */
  datatype Regex = Regex(isMatch: string -> bool, replaceAll: (string, string) -> string)

  /** `Regex::new`: a pattern may fail to compile. */
  type Compiler = string -> Option<Regex>

  datatype ProcessStep = ProcessStep(
    filter: seq<string>,
    filterSource: seq<string>,
    rename: seq<(string, string)>,
    removeEmoji: bool,
    overrideSecurity: Option<string>,
    packetEncoding: Option<PacketEncoding>,
    remove: bool,
    invert: bool)

  /** The patterns that compile, in order; the others are dropped. */
  function CompilePatterns(compile: Compiler, patterns: seq<string>): (r: seq<Regex>) {
    if patterns == [] then []
    else
      var rest := CompilePatterns(compile, patterns[1..]);
      match compile(patterns[0])
      case None => rest
      case Some(re) => [re] + rest
  }

  predicate IsEmoji(c: char) {
    var r := c as int;
    || 0x1F600 <= r <= 0x1F64F
    || 0x1F300 <= r <= 0x1F5FF
    || 0x1F680 <= r <= 0x1F6FF
    || 0x1F1E0 <= r <= 0x1F1FF
    || 0x2600 <= r <= 0x26FF
    || 0x2700 <= r <= 0x27BF
    || 0xFE00 <= r <= 0xFE0F
    || 0x1F900 <= r <= 0x1F9FF
    || 0x1FA70 <= r <= 0x1FAFF
  }

  function StripEmoji(s: string): (r: string) {
    if s == "" then "" else (if IsEmoji(s[0]) then "" else [s[0]]) + StripEmoji(s[1..])
  }

  predicate MatchesAny(res: seq<Regex>, text: string) {
    res == [] || exists i :: 0 <= i < |res| && res[i].isMatch(text)
  }

  predicate Selected(compile: Compiler, step: ProcessStep, node: VMessNode) {
    var matched := MatchesAny(CompilePatterns(compile, step.filter), node.name)
                   && MatchesAny(CompilePatterns(compile, step.filterSource), node.source);
    if step.invert then !matched else matched
  }

  function Renamed(compile: Compiler, rules: seq<(string, string)>, name: string): (r: string) {
    if rules == [] then name
    else
      var next := match compile(rules[0].0) { case None => name case Some(re) => re.replaceAll(name, rules[0].1) };
      Renamed(compile, rules[1..], next)
  }

  function Transformed(compile: Compiler, step: ProcessStep, node: VMessNode): (r: VMessNode) {
    var renamed := Renamed(compile, step.rename, node.name);
    node.(name := if step.removeEmoji then StripEmoji(renamed) else renamed,
          security := if step.overrideSecurity.Some? then step.overrideSecurity.value else node.security,
          packetEncoding := if step.packetEncoding.Some? then step.packetEncoding.value else node.packetEncoding)
  }

  function ApplyStep(compile: Compiler, step: ProcessStep, nodes: seq<VMessNode>): (r: seq<VMessNode>) {
    if nodes == [] then []
    else
      var rest := ApplyStep(compile, step, nodes[1..]);
      if !Selected(compile, step, nodes[0]) then [nodes[0]] + rest
      else if step.remove then rest
      else [Transformed(compile, step, nodes[0])] + rest
  }

  function Apply(compile: Compiler, steps: seq<ProcessStep>, nodes: seq<VMessNode>): (r: seq<VMessNode>)
    decreases |steps|
  {
    if steps == [] then nodes else Apply(compile, steps[1..], ApplyStep(compile, steps[0], nodes))
  }

  method ApplyPipeline(compile: Compiler, steps: seq<ProcessStep>, nodes: seq<VMessNode>) returns (out: seq<VMessNode>)
    ensures out == Apply(compile, steps, nodes)
  {
    out := nodes;
    var i := 0;
    while i < |steps|
      invariant 0 <= i <= |steps|
      invariant Apply(compile, steps, nodes) == Apply(compile, steps[i..], out)
    {
      out := ApplyStep(compile, steps[i], out);
      assert steps[i..][1..] == steps[i + 1..];
      i := i + 1;
    }
  }

  // ---------------------------------------------------------------------------------------------
  // Proofs
  // ---------------------------------------------------------------------------------------------

  predicate SomeMatch(res: seq<Regex>, text: string) {
    exists i :: 0 <= i < |res| && res[i].isMatch(text)
  }

  lemma SomeMatchCons(re: Regex, res: seq<Regex>, text: string)
    ensures SomeMatch([re] + res, text) <==> re.isMatch(text) || SomeMatch(res, text)
  {
    var all := [re] + res;
    assert all[0] == re && forall i :: 0 <= i < |res| ==> all[i + 1] == res[i];
  }

  lemma {:induction false} CompiledExactly(compile: Compiler, patterns: seq<string>, text: string)
    ensures CompilePatterns(compile, patterns) == [] <==> forall p :: p in patterns ==> compile(p).None?
    ensures SomeMatch(CompilePatterns(compile, patterns), text) <==>
            exists p :: p in patterns && compile(p).Some? && compile(p).value.isMatch(text)
  {
    hide SomeMatch;
    if patterns == [] {
      NoMatch(text);
    } else {
      var (first, rest) := (patterns[0], patterns[1..]);
      CompiledExactly(compile, rest, text);
      assert forall p :: p in patterns <==> p == first || p in rest;
      if compile(first).Some? { SomeMatchCons(compile(first).value, CompilePatterns(compile, rest), text); }
    }
  }

  lemma NoMatch(text: string)
    ensures !SomeMatch([], text)
  {}

  /** A list of patterns lets a text through if none of them compiles or one that compiles matches. */
  ghost predicate LetsThrough(compile: Compiler, patterns: seq<string>, text: string) {
    || (forall p :: p in patterns ==> compile(p).None?)
    || (exists p :: p in patterns && compile(p).Some? && compile(p).value.isMatch(text))
  }

  /** A node is selected exactly if both lists let it through, its name and its source; inverted, if not. */
  lemma SelectedExactly(compile: Compiler, step: ProcessStep, node: VMessNode)
    ensures Selected(compile, step, node) <==>
            step.invert != (&& LetsThrough(compile, step.filter, node.name)
                            && LetsThrough(compile, step.filterSource, node.source))
  {
    hide CompilePatterns;
    CompiledExactly(compile, step.filter, node.name);
    CompiledExactly(compile, step.filterSource, node.source);
  }

  /** Stripping emoji works character by character: an emoji disappears, any other character stays in its place. */
  lemma {:induction false} StripEmojiParts(a: string, c: char, b: string)
    ensures StripEmoji(a + [c] + b) == StripEmoji(a) + (if IsEmoji(c) then "" else [c]) + StripEmoji(b)
  {
    hide IsEmoji;
    var s := a + [c] + b;
    if a == "" {
      assert s == [c] + b && s[1..] == b;
    } else {
      assert s[0] == a[0] && s[1..] == a[1..] + [c] + b;
      StripEmojiParts(a[1..], c, b);
      var (x, y) := (if IsEmoji(a[0]) then "" else [a[0]], StripEmoji(a[1..]));
      var (m, z) := (if IsEmoji(c) then "" else [c], StripEmoji(b));
      assert StripEmoji(s) == x + (y + m + z);
      assert x + (y + m + z) == (x + y) + m + z;
    }
  }

  lemma {:induction false} NoEmojiLeft(s: string)
    ensures forall c :: c in StripEmoji(s) ==> c in s && !IsEmoji(c)
  {
    hide IsEmoji;
    if s != "" { NoEmojiLeft(s[1..]); }
  }

  /** The edges of the blocks of emoji. */
  lemma EmojiBlocks()
    ensures IsEmoji(0x2600 as char) && IsEmoji(0x26FF as char) && IsEmoji(0x2700 as char) && IsEmoji(0x27BF as char)
    ensures IsEmoji(0xFE00 as char) && IsEmoji(0xFE0F as char) && IsEmoji(0x1F1E0 as char) && IsEmoji(0x1F1FF as char)
    ensures IsEmoji(0x1F300 as char) && IsEmoji(0x1F5FF as char) && IsEmoji(0x1F600 as char) && IsEmoji(0x1F64F as char)
    ensures IsEmoji(0x1F680 as char) && IsEmoji(0x1F6FF as char) && IsEmoji(0x1F900 as char) && IsEmoji(0x1F9FF as char)
    ensures IsEmoji(0x1FA70 as char) && IsEmoji(0x1FAFF as char)
    ensures !IsEmoji(0x25FF as char) && !IsEmoji(0x27C0 as char) && !IsEmoji(0xFDFF as char) && !IsEmoji(0xFE10 as char)
    ensures !IsEmoji(0x1F1DF as char) && !IsEmoji(0x1F200 as char) && !IsEmoji(0x1F2FF as char)
    ensures !IsEmoji(0x1F650 as char) && !IsEmoji(0x1F67F as char) && !IsEmoji(0x1F700 as char)
    ensures !IsEmoji(0x1F8FF as char) && !IsEmoji(0x1FA00 as char) && !IsEmoji(0x1FA6F as char)
    ensures !IsEmoji(0x1FB00 as char)
  {}

  /** Rules apply one after the other, the last one last; a rule that does not compile is skipped. */
  lemma {:induction false} RenamedInOrder(
    compile: Compiler, rules: seq<(string, string)>, rule: (string, string), name: string)
    ensures var before := Renamed(compile, rules, name);
            Renamed(compile, rules + [rule], name) ==
            if compile(rule.0).None? then before else compile(rule.0).value.replaceAll(before, rule.1)
    decreases |rules|
  {
    var all := rules + [rule];
    if rules == [] {
      assert all[1..] == [];
    } else {
      assert all[1..] == rules[1..] + [rule];
      var next := match compile(rules[0].0) { case None => name case Some(re) => re.replaceAll(name, rules[0].1) };
      RenamedInOrder(compile, rules[1..], rule, next);
    }
  }

  /** What a step makes of a node it selects: renamed, then without emoji if asked, with the overrides it gives. */
  lemma TransformedFields(compile: Compiler, step: ProcessStep, node: VMessNode)
    ensures var r := Transformed(compile, step, node);
            && (step.removeEmoji ==> forall c :: c in r.name ==> !IsEmoji(c))
            && (step.removeEmoji ==> r.name == StripEmoji(Renamed(compile, step.rename, node.name)))
            && (!step.removeEmoji ==> r.name == Renamed(compile, step.rename, node.name))
            && (step.overrideSecurity.None? ==> r.security == node.security)
            && (step.overrideSecurity.Some? ==> r.security == step.overrideSecurity.value)
            && (step.packetEncoding.None? ==> r.packetEncoding == node.packetEncoding)
            && (step.packetEncoding.Some? ==> r.packetEncoding == step.packetEncoding.value)
            && SameProxy(r, node)
  {
    hide IsEmoji, Renamed, StripEmoji;
    NoEmojiLeft(Renamed(compile, step.rename, node.name));
  }

  /** Steps apply one after the other, the last one last. */
  lemma {:induction false} StepsInOrder(
    compile: Compiler, steps: seq<ProcessStep>, step: ProcessStep, nodes: seq<VMessNode>)
    ensures Apply(compile, steps + [step], nodes) == ApplyStep(compile, step, Apply(compile, steps, nodes))
    decreases |steps|
  {
    hide ApplyStep;
    var all := steps + [step];
    if steps == [] {
      assert all[1..] == [];
    } else {
      assert all[1..] == steps[1..] + [step];
      StepsInOrder(compile, steps[1..], step, ApplyStep(compile, steps[0], nodes));
    }
  }

  /** Equal but for the three fields that a step may rewrite. */
  predicate SameProxy(a: VMessNode, b: VMessNode) {
    a == b.(name := a.name, security := a.security, packetEncoding := a.packetEncoding)
  }

  /** `out` is a subsequence of `nodes`, taken at the ascending indices `from`, up to those fields. */
  ghost predicate DerivedFrom(out: seq<VMessNode>, nodes: seq<VMessNode>, from: seq<nat>) {
    && |from| == |out|
    && (forall k :: 0 <= k < |from| ==> from[k] < |nodes| && SameProxy(out[k], nodes[from[k]]))
    && (forall k, l :: 0 <= k < l < |from| ==> from[k] < from[l])
  }

  lemma {:induction false} StepDerived(compile: Compiler, step: ProcessStep, nodes: seq<VMessNode>)
    returns (from: seq<nat>)
    ensures DerivedFrom(ApplyStep(compile, step, nodes), nodes, from)
    ensures !step.remove ==> |ApplyStep(compile, step, nodes)| == |nodes|
  {
    hide Selected, Transformed, SameProxy, DerivedFrom;
    if nodes == [] {
      from := [];
      DerivedNone();
    } else {
      var tail := StepDerived(compile, step, nodes[1..]);
      var rest := ApplyStep(compile, step, nodes[1..]);
      from := DerivedSkip(rest, nodes, tail);
      SameTransformed(compile, step, nodes[0]);
      if !Selected(compile, step, nodes[0]) {
        from := DerivedKeep(nodes[0], rest, nodes, tail);
      } else if !step.remove {
        from := DerivedKeep(Transformed(compile, step, nodes[0]), rest, nodes, tail);
      }
    }
  }

  lemma SameTransformed(compile: Compiler, step: ProcessStep, node: VMessNode)
    ensures SameProxy(Transformed(compile, step, node), node) && SameProxy(node, node)
  {}

  lemma DerivedNone()
    ensures DerivedFrom([], [], [])
  {}

  lemma DerivedSkip(rest: seq<VMessNode>, nodes: seq<VMessNode>, tail: seq<nat>) returns (from: seq<nat>)
    requires nodes != [] && DerivedFrom(rest, nodes[1..], tail)
    ensures DerivedFrom(rest, nodes, from)
  {
    hide SameProxy;
    from := seq(|tail|, k requires 0 <= k < |tail| => tail[k] + 1);
  }

  lemma DerivedKeep(first: VMessNode, rest: seq<VMessNode>, nodes: seq<VMessNode>, tail: seq<nat>)
    returns (from: seq<nat>)
    requires nodes != [] && SameProxy(first, nodes[0]) && DerivedFrom(rest, nodes[1..], tail)
    ensures DerivedFrom([first] + rest, nodes, from)
  {
    hide SameProxy;
    from := [0] + seq(|tail|, k requires 0 <= k < |tail| => tail[k] + 1);
  }

  /**
   * Whatever the steps and the patterns, the pipeline only drops nodes and rewrites names, security
   * and packet encoding: identities, addresses and order are the input's.
   */
  lemma {:induction false} PipelineDerived(compile: Compiler, steps: seq<ProcessStep>, nodes: seq<VMessNode>)
    returns (from: seq<nat>)
    ensures DerivedFrom(Apply(compile, steps, nodes), nodes, from)
    decreases |steps|
  {
    if steps == [] {
      from := seq(|nodes|, k => k);
    } else {
      var first := StepDerived(compile, steps[0], nodes);
      var mid := ApplyStep(compile, steps[0], nodes);
      var later := PipelineDerived(compile, steps[1..], mid);
      hide Apply, ApplyStep;
      from := seq(|later|, k requires 0 <= k < |later| => first[later[k]]);
    }
  }

  /** A removing step and its inverse split the nodes between them: none is lost, none kept twice. */
  lemma {:induction false} RemovePartitions(compile: Compiler, step: ProcessStep, nodes: seq<VMessNode>)
    requires step.remove
    ensures multiset(ApplyStep(compile, step, nodes))
            + multiset(ApplyStep(compile, step.(invert := !step.invert), nodes)) == multiset(nodes)
  {
    hide CompilePatterns, MatchesAny;
    if nodes != [] {
      RemovePartitions(compile, step, nodes[1..]);
      assert nodes == [nodes[0]] + nodes[1..];
    }
  }

  /** A step that does not remove rewrites exactly the selected nodes, each in its place. */
  lemma {:induction false} TransformPointwise(compile: Compiler, step: ProcessStep, nodes: seq<VMessNode>, i: nat)
    requires !step.remove && i < |nodes|
    ensures |ApplyStep(compile, step, nodes)| == |nodes|
    ensures ApplyStep(compile, step, nodes)[i] ==
            if Selected(compile, step, nodes[i]) then Transformed(compile, step, nodes[i]) else nodes[i]
  {
    hide Selected, Transformed;
    if i > 0 {
      TransformPointwise(compile, step, nodes[1..], i - 1);
    } else {
      var from := StepDerived(compile, step, nodes);
    }
  }

  /** A removing step leaves nothing exactly if it selects every node, and everything exactly if it selects none. */
  lemma {:induction false} RemovesAllExactly(compile: Compiler, step: ProcessStep, nodes: seq<VMessNode>)
    requires step.remove
    ensures ApplyStep(compile, step, nodes) == [] <==>
            forall i :: 0 <= i < |nodes| ==> Selected(compile, step, nodes[i])
    ensures ApplyStep(compile, step, nodes) == nodes <==>
            forall i :: 0 <= i < |nodes| ==> !Selected(compile, step, nodes[i])
    ensures |ApplyStep(compile, step, nodes)| <= |nodes|
  {
    hide Selected;
    if nodes != [] {
      var rest := nodes[1..];
      RemovesAllExactly(compile, step, rest);
      assert forall i :: 0 <= i < |rest| ==> nodes[i + 1] == rest[i];
      assert (forall i :: 0 <= i < |nodes| ==> Selected(compile, step, nodes[i])) <==>
             Selected(compile, step, nodes[0]) && forall i :: 0 <= i < |rest| ==> Selected(compile, step, rest[i]);
      if !Selected(compile, step, nodes[0]) {
        assert ApplyStep(compile, step, nodes)[1..] == ApplyStep(compile, step, rest);
      }
    }
  }

  /**
   * Patterns that fail to compile are dropped and an empty list selects all: a removing step none of
   * whose name and source patterns compiles removes every node, or no node if it is inverted.
   */
  lemma BrokenFilterRemovesAll(compile: Compiler, step: ProcessStep, nodes: seq<VMessNode>)
    requires step.remove
    requires forall p :: p in step.filter || p in step.filterSource ==> compile(p).None?
    ensures ApplyStep(compile, step, nodes) == if step.invert then nodes else []
  {
    NoneCompile(compile, step.filter);
    NoneCompile(compile, step.filterSource);
    RemovesAllExactly(compile, step, nodes);
  }

  lemma {:induction false} NoneCompile(compile: Compiler, patterns: seq<string>)
    requires forall p :: p in patterns ==> compile(p).None?
    ensures CompilePatterns(compile, patterns) == []
  {
    if patterns != [] { NoneCompile(compile, patterns[1..]); }
  }
}
