/** The recursive VMess key derivation of src/vmess/auth.rs. */
module Kdf {
  type Octets = seq<bv8>

  type Digest = d: Octets | |d| == 32 witness seq(32, i => 0)

  /** One HMAC block (B = 64 in section 2 of RFC 2104). */
  type Block = b: Octets | |b| == 64 witness seq(64, i => 0)

  type Key = k: Octets | |k| <= 64

  /** SHA-256 is any function from byte strings to 32 bytes. */
  type Hash = Octets -> Digest

  const IPAD: bv8 := 0x36
  const OPAD: bv8 := 0x5c

  /** b"VMess AEAD KDF" */
  const LABEL: Key := [0x56, 0x4d, 0x65, 0x73, 0x73, 0x20, 0x41, 0x45, 0x41, 0x44, 0x20, 0x4b, 0x44, 0x46]

  // ---------------------------------------------------------------------------------------------
  // Reference: HMAC of section 2 of RFC 2104, nested
  // ---------------------------------------------------------------------------------------------

  /** The key with zeros appended up to the block size. */
  function Padded(key: Key): (b: Block) {
    key + seq(64 - |key|, i => 0)
  }

  function Xor(block: Block, c: bv8): (b: Block) {
    seq(64, i requires 0 <= i < 64 => block[i] ^ c)
  }

  function Hmac(h: Hash, key: Key, msg: Octets): (d: Digest) {
    h(Xor(Padded(key), 0x5c) + h(Xor(Padded(key), 0x36) + msg))
  }

  /** Each key makes an HMAC whose hash function is the HMAC of the keys before it. */
  function NestedHmac(sha: Hash, keys: seq<Key>, msg: Octets): (d: Digest)
    decreases |keys|
  {
    if keys == [] then sha(msg)
    else Hmac(m => NestedHmac(sha, keys[..|keys| - 1], m), keys[|keys| - 1], msg)
  }

  // ---------------------------------------------------------------------------------------------
  // The value of a hash object
  // ---------------------------------------------------------------------------------------------

  datatype HashState =
    | Leaf(absorbed: Octets)
    | Node(inner: HashState, outer: HashState, defaultInner: Block, defaultOuter: Block)

  function Depth(h: HashState): (n: nat) {
    match h
    case Leaf(_) => 0
    case Node(inner, outer, _, _) => 1 + if Depth(inner) > Depth(outer) then Depth(inner) else Depth(outer)
  }

  function Absorb(h: HashState, data: Octets): (r: HashState)
    ensures Depth(r) == Depth(h)
  {
    match h
    case Leaf(absorbed) => Leaf(absorbed + data)
    case Node(inner, _, _, _) => h.(inner := Absorb(inner, data))
  }

  /** The digest, and what finalizing leaves behind in the object. */
  function Finish(sha: Hash, h: HashState): (r: (Digest, HashState))
    ensures Depth(r.1) == Depth(h)
    decreases Depth(h)
  {
    match h
    case Leaf(absorbed) => (sha(absorbed), h)
    case Node(inner, outer, defaultInner, defaultOuter) =>
      var (innerResult, inner') := Finish(sha, inner);
      var (digest, outer') := Finish(sha, Absorb(Absorb(outer, defaultOuter), innerResult));
      (digest, Node(inner', outer', defaultInner, defaultOuter))
  }

  lemma FinishUnfold(sha: Hash, h: HashState)
    ensures if h.Leaf? then Finish(sha, h) == (sha(h.absorbed), h)
            else
              var (innerResult, inner') := Finish(sha, h.inner);
              var (digest, outer') := Finish(sha, Absorb(Absorb(h.outer, h.defaultOuter), innerResult));
              Finish(sha, h) == (digest, Node(inner', outer', h.defaultInner, h.defaultOuter))
  {}

  function Create(key: Key, h: HashState): (r: HashState) {
    var (ipad, opad) := (Xor(Padded(key), IPAD), Xor(Padded(key), OPAD));
    Node(Absorb(h, ipad), h, ipad, opad)
  }

  function Build(keys: seq<Key>): (h: HashState) {
    if keys == [] then Leaf([]) else Create(keys[|keys| - 1], Build(keys[..|keys| - 1]))
  }

  lemma BuildUnfold(keys: seq<Key>, key: Key)
    ensures Build(keys + [key]) == Create(key, Build(keys))
    ensures Build([]) == Leaf([])
  {
    assert (keys + [key])[..|keys|] == keys;
  }

  // ---------------------------------------------------------------------------------------------
  // The objects
  // ---------------------------------------------------------------------------------------------

  /** The pads, xored in place over the first bytes of two filled blocks. */
  method Pads(key: Key) returns (inner: Block, outer: Block)
    ensures inner == Xor(Padded(key), IPAD) && outer == Xor(Padded(key), OPAD)
  {
    var defaultOuter := new bv8[64](i => OPAD);
    var defaultInner := new bv8[64](i => IPAD);
    var i := 0;
    while i < |key|
      invariant 0 <= i <= |key|
      invariant forall j :: 0 <= j < i ==> defaultOuter[j] == key[j] ^ OPAD && defaultInner[j] == key[j] ^ IPAD
      invariant forall j :: i <= j < 64 ==> defaultOuter[j] == OPAD && defaultInner[j] == IPAD
    {
      defaultOuter[i] := defaultOuter[i] ^ key[i];
      defaultInner[i] := defaultInner[i] ^ key[i];
      i := i + 1;
    }
    inner, outer := defaultInner[..], defaultOuter[..];
    assert forall j :: |key| <= j < 64 ==> Padded(key)[j] ^ OPAD == OPAD && Padded(key)[j] ^ IPAD == IPAD;
  }

  /**
   * A boxed `dyn VmessHash`: a SHA-256 state when `inner` and `outer` are null, and otherwise a
   * recursive hash over two such objects.
   */
  class VmessHash {
    const sha: Hash
    var absorbed: Octets
    var inner: VmessHash?
    var outer: VmessHash?
    var defaultInner: Block
    var defaultOuter: Block
    ghost const depth: nat
    ghost var state: HashState
    ghost var Repr: set<VmessHash>

    ghost predicate Valid()
      reads this, Repr
      ensures Valid() ==> this in Repr
      decreases depth
    {
      && this in Repr
      && if inner == null then outer == null && state == Leaf(absorbed)
         else
           && outer != null
           && inner in Repr && outer in Repr
           && inner.Repr + outer.Repr <= Repr && this !in inner.Repr + outer.Repr
           && inner.Repr !! outer.Repr
           && inner.depth < depth && outer.depth < depth
           && inner.sha == sha && outer.sha == sha
           && inner.Valid() && outer.Valid()
           && state == Node(inner.state, outer.state, defaultInner, defaultOuter)
    }

    constructor Sha256(sha: Hash, absorbed: Octets)
      ensures Valid() && fresh(Repr)
      ensures this.sha == sha && state == Leaf(absorbed)
    {
      this.sha := sha;
      this.absorbed := absorbed;
      inner, outer := null, null;
      defaultInner, defaultOuter := seq(64, i => 0), seq(64, i => 0);
      depth, state := 0, Leaf(absorbed);
      Repr := {this};
    }

    /** Takes over the two parts, which share no object. */
    constructor Over(inner: VmessHash, outer: VmessHash, defaultInner: Block, defaultOuter: Block)
      requires inner.Valid() && outer.Valid() && inner.sha == outer.sha
      requires inner.Repr !! outer.Repr
      ensures Valid() && Repr == {this} + inner.Repr + outer.Repr
      ensures sha == inner.sha
      ensures state == Node(inner.state, outer.state, defaultInner, defaultOuter)
    {
      this.sha := inner.sha;
      absorbed := [];
      this.inner, this.outer := inner, outer;
      this.defaultInner, this.defaultOuter := defaultInner, defaultOuter;
      depth := 1 + if inner.depth > outer.depth then inner.depth else outer.depth;
      state := Node(inner.state, outer.state, defaultInner, defaultOuter);
      Repr := {this} + inner.Repr + outer.Repr;
    }

    /** A copy that shares nothing with the original. */
    method CloneState() returns (c: VmessHash)
      requires Valid()
      ensures c.Valid() && fresh(c.Repr)
      ensures c.sha == sha && c.state == state
      decreases depth
    {
      if inner == null {
        c := new VmessHash.Sha256(sha, absorbed);
      } else {
        var i := inner.CloneState();
        var o := outer.CloneState();
        c := new VmessHash.Over(i, o, defaultInner, defaultOuter);
      }
    }

    method Update(data: Octets)
      requires Valid()
      modifies Repr
      ensures Valid() && Repr == old(Repr)
      ensures state == Absorb(old(state), data)
      decreases depth
    {
      if inner == null {
        absorbed := absorbed + data;
      } else {
        inner.Update(data);
      }
      state := Absorb(state, data);
    }

    method Finalize() returns (d: Digest)
      requires Valid()
      modifies Repr
      ensures Valid() && Repr == old(Repr)
      ensures (d, state) == Finish(sha, old(state))
      decreases depth, 1
    {
      hide Absorb, Finish;
      FinishUnfold(sha, state);
      if inner == null {
        d := sha(absorbed);
      } else {
        d := FinalizeParts(inner, outer, defaultOuter, depth);
        state := Node(inner.state, outer.state, defaultInner, defaultOuter);
      }
    }

    static method FinalizeParts(inner: VmessHash, outer: VmessHash, defaultOuter: Block, ghost above: nat)
      returns (d: Digest)
      requires inner.Valid() && outer.Valid() && inner.Repr !! outer.Repr && inner.sha == outer.sha
      requires inner.depth < above && outer.depth < above
      modifies inner.Repr, outer.Repr
      ensures inner.Valid() && outer.Valid()
      ensures inner.Repr == old(inner.Repr) && outer.Repr == old(outer.Repr)
      ensures var (innerResult, inner') := Finish(inner.sha, old(inner.state));
              && inner.state == inner'
              && (d, outer.state) == Finish(inner.sha, Absorb(Absorb(old(outer.state), defaultOuter), innerResult))
      decreases above, 0
    {
      hide Absorb, Finish;
      outer.Update(defaultOuter);
      var innerResult := inner.Finalize();
      outer.Update(innerResult);
      d := outer.Finalize();
    }
  }

  /** `RecursiveHash::create`: the clone absorbs the inner pad, the given object becomes the outer. */
  method CreateRecursive(key: Key, hash: VmessHash) returns (r: VmessHash)
    requires hash.Valid()
    ensures r.Valid() && fresh(r.Repr - hash.Repr)
    ensures r.sha == hash.sha && r.state == Create(key, hash.state)
  {
    hide Xor, Padded, Absorb, VmessHash.Valid;
    var defaultInner, defaultOuter := Pads(key);
    var inner := hash.CloneState();
    assert inner.Repr !! hash.Repr;
    label cloned:
    inner.Update(defaultInner);
    assert unchanged@cloned(hash.Repr) && hash.Valid();
    r := new VmessHash.Over(inner, hash, defaultInner, defaultOuter);
  }

  /** The loop of `kdf`: one recursive hash per path item, each over the one before. */
  method BuildHash(sha: Hash, path: seq<Key>) returns (current: VmessHash)
    ensures current.Valid() && fresh(current.Repr) && current.sha == sha
    ensures current.state == Build([LABEL] + path)
  {
    hide Create, NestedHmac, Finish, Absorb, Build, VmessHash.Valid;
    BuildUnfold([], LABEL);
    var base := new VmessHash.Sha256(sha, []);
    current := CreateRecursive(LABEL, base);
    var i := 0;
    assert [LABEL] + path[..0] == [] + [LABEL];
    while i < |path|
      invariant 0 <= i <= |path|
      invariant current.Valid() && fresh(current.Repr) && current.sha == sha
      invariant current.state == Build([LABEL] + path[..i])
    {
      BuildUnfold([LABEL] + path[..i], path[i]);
      assert [LABEL] + path[..i + 1] == ([LABEL] + path[..i]) + [path[i]];
      current := CreateRecursive(path[i], current);
      i := i + 1;
    }
    assert path[..i] == path;
  }

  method KdfDigest(sha: Hash, key: Octets, path: seq<Key>) returns (d: Digest)
    ensures d == NestedHmac(sha, [LABEL] + path, key)
  {
    hide Create, NestedHmac, Finish, Absorb, Build;
    var current := BuildHash(sha, path);
    current.Update(key);
    d := current.Finalize();
    FinishIsNestedHmac(sha, [LABEL] + path, key);
  }

  // ---------------------------------------------------------------------------------------------
  // Proofs
  // ---------------------------------------------------------------------------------------------

  lemma {:induction false} AbsorbTwice(h: HashState, a: Octets, b: Octets)
    ensures Absorb(Absorb(h, a), b) == Absorb(h, a + b)
  {
    match h
    case Leaf(absorbed) => assert (absorbed + a) + b == absorbed + (a + b);
    case Node(inner, _, _, _) => AbsorbTwice(inner, a, b);
  }

  /** At every depth, an object built over `keys` finalizes to the nested HMAC of what it absorbed. */
  lemma {:induction false} FinishIsNestedHmac(sha: Hash, keys: seq<Key>, msg: Octets)
    ensures Finish(sha, Absorb(Build(keys), msg)).0 == NestedHmac(sha, keys, msg)
    decreases |keys|
  {
    if keys == [] {
      assert [] + msg == msg;
    } else {
      var init, key := keys[..|keys| - 1], keys[|keys| - 1];
      var h, ipad, opad := Build(init), Xor(Padded(key), IPAD), Xor(Padded(key), OPAD);
      AbsorbTwice(h, ipad, msg);
      FinishIsNestedHmac(sha, init, ipad + msg);
      var innerResult := NestedHmac(sha, init, ipad + msg);
      AbsorbTwice(h, opad, innerResult);
      FinishIsNestedHmac(sha, init, opad + innerResult);
    }
  }

  function AbsorbAll(h: HashState, chunks: seq<Octets>): (r: HashState)
    decreases |chunks|
  {
    if chunks == [] then h else AbsorbAll(Absorb(h, chunks[0]), chunks[1..])
  }

  function Joined(chunks: seq<Octets>): (r: Octets) {
    if chunks == [] then [] else chunks[0] + Joined(chunks[1..])
  }

  lemma {:induction false} AbsorbNothing(h: HashState)
    ensures Absorb(h, []) == h
  {
    match h
    case Leaf(absorbed) => assert absorbed + [] == absorbed;
    case Node(inner, _, _, _) => AbsorbNothing(inner);
  }

  lemma {:induction false} AbsorbAllIsAbsorb(h: HashState, chunks: seq<Octets>)
    ensures AbsorbAll(h, chunks) == Absorb(h, Joined(chunks))
    decreases |chunks|
  {
    if chunks == [] {
      AbsorbNothing(h);
    } else {
      AbsorbAllIsAbsorb(Absorb(h, chunks[0]), chunks[1..]);
      AbsorbTwice(h, chunks[0], Joined(chunks[1..]));
    }
  }

  /** KDF refinement for every path and every split of the input into update calls. */
  lemma KdfRefinesNestedHmac(sha: Hash, path: seq<Key>, chunks: seq<Octets>)
    ensures Finish(sha, AbsorbAll(Build([LABEL] + path), chunks)).0 ==
            NestedHmac(sha, [LABEL] + path, Joined(chunks))
  {
    AbsorbAllIsAbsorb(Build([LABEL] + path), chunks);
    FinishIsNestedHmac(sha, [LABEL] + path, Joined(chunks));
  }

  /** The label is the text that VMess prescribes. */
  lemma LabelText()
    ensures |LABEL| == |"VMess AEAD KDF"|
    ensures forall i :: 0 <= i < |LABEL| ==> LABEL[i] as int == "VMess AEAD KDF"[i] as int
  {}

  /** Written out for one path item: HMAC keyed with the item, over HMAC keyed with the label, over SHA-256. */
  lemma KdfOneItem(sha: Hash, key: Octets, item: Key)
    ensures var base := (m: Octets) => Hmac(sha, LABEL, m);
            NestedHmac(sha, [LABEL] + [item], key) == Hmac(base, item, key)
    ensures NestedHmac(sha, [LABEL] + [], key) == Hmac(sha, LABEL, key)
  {
    var keys := [LABEL] + [item];
    assert keys[..1] == [LABEL] && [LABEL][..0] == [] && [LABEL] + [] == [LABEL];
    forall m: Octets ensures NestedHmac(sha, [LABEL], m) == Hmac(sha, LABEL, m) {
      HmacAgrees(x => NestedHmac(sha, [], x), sha, LABEL, m);
    }
    HmacAgrees(x => NestedHmac(sha, [LABEL], x), m => Hmac(sha, LABEL, m), item, key);
    HmacAgrees(x => NestedHmac(sha, [], x), sha, LABEL, key);
  }

  lemma HmacAgrees(f: Hash, g: Hash, key: Key, msg: Octets)
    requires forall x :: f(x) == g(x)
    ensures Hmac(f, key, msg) == Hmac(g, key, msg)
  {}

  // ---------------------------------------------------------------------------------------------
  // Finalizing more than once
  // ---------------------------------------------------------------------------------------------

  function Last(ms: seq<Octets>): (m: Octets) {
    if ms == [] then [] else ms[|ms| - 1]
  }

  function Prefixed(pad: Octets, ms: seq<Octets>): (r: seq<Octets>) {
    seq(|ms|, i requires 0 <= i < |ms| => pad + ms[i])
  }

  /** What the outer hash of an object has absorbed in all at each time the object was finalized. */
  function OuterInputs(sha: Hash, init: seq<Key>, key: Key, ms: seq<Octets>): (r: seq<Octets>)
    ensures |r| == |ms|
    decreases |init|, 1, |ms|
  {
    if ms == [] then []
    else
      var before := OuterInputs(sha, init, key, ms[..|ms| - 1]);
      before + [Last(before) + Xor(Padded(key), OPAD) + LastDigest(sha, init, Prefixed(Xor(Padded(key), IPAD), ms))]
  }

  /**
   * The digest of the last finalization of an object over `keys`, where `ms` are the messages it had
   * absorbed in all at each of its finalizations.
   */
  function LastDigest(sha: Hash, keys: seq<Key>, ms: seq<Octets>): (d: Digest)
    requires ms != []
    decreases |keys|, 0, 0
  {
    if keys == [] then sha(Last(ms))
    else
      var init, key := keys[..|keys| - 1], keys[|keys| - 1];
      LastDigest(sha, init, OuterInputs(sha, init, key, ms))
  }

  /** An object over `keys` that was finalized after each of `ms` and has absorbed `msg` in all. */
  function Used(sha: Hash, keys: seq<Key>, ms: seq<Octets>, msg: Octets): (h: HashState)
    decreases |keys|
  {
    if keys == [] then Leaf(msg)
    else
      var init, key := keys[..|keys| - 1], keys[|keys| - 1];
      var ipad, opad := Xor(Padded(key), IPAD), Xor(Padded(key), OPAD);
      var outers := OuterInputs(sha, init, key, ms);
      Node(Used(sha, init, Prefixed(ipad, ms), ipad + msg), Used(sha, init, outers, Last(outers)), ipad, opad)
  }

  lemma {:induction false} UsedAbsorbs(sha: Hash, keys: seq<Key>, ms: seq<Octets>, msg: Octets, data: Octets)
    ensures Absorb(Used(sha, keys, ms, msg), data) == Used(sha, keys, ms, msg + data)
    decreases |keys|
  {
    if keys != [] {
      var init, key := keys[..|keys| - 1], keys[|keys| - 1];
      var ipad := Xor(Padded(key), IPAD);
      UsedAbsorbs(sha, init, Prefixed(ipad, ms), ipad + msg, data);
      assert (ipad + msg) + data == ipad + (msg + data);
    }
  }

  lemma {:induction false} BuildIsUnused(sha: Hash, keys: seq<Key>)
    ensures Build(keys) == Used(sha, keys, [], [])
    decreases |keys|
  {
    if keys != [] {
      var init, key := keys[..|keys| - 1], keys[|keys| - 1];
      var ipad := Xor(Padded(key), IPAD);
      BuildIsUnused(sha, init);
      UsedAbsorbs(sha, init, [], [], ipad);
      assert [] + ipad == ipad && ipad + [] == ipad && Prefixed(ipad, []) == [];
    }
  }

  lemma OuterInputsAppend(sha: Hash, init: seq<Key>, key: Key, ms: seq<Octets>, msg: Octets)
    ensures var before := OuterInputs(sha, init, key, ms);
            OuterInputs(sha, init, key, ms + [msg]) ==
            before + [Last(before) + Xor(Padded(key), OPAD) +
                      LastDigest(sha, init, Prefixed(Xor(Padded(key), IPAD), ms) + [Xor(Padded(key), IPAD) + msg])]
  {
    hide Xor, Padded, LastDigest;
    assert (ms + [msg])[..|ms|] == ms;
    PrefixedAppend(Xor(Padded(key), IPAD), ms, msg);
  }

  lemma UsedUnfold(sha: Hash, init: seq<Key>, key: Key, ms: seq<Octets>, msg: Octets)
    ensures var ipad, opad := Xor(Padded(key), IPAD), Xor(Padded(key), OPAD);
            var outers := OuterInputs(sha, init, key, ms);
            && Used(sha, init + [key], ms, msg) ==
               Node(Used(sha, init, Prefixed(ipad, ms), ipad + msg), Used(sha, init, outers, Last(outers)), ipad, opad)
            && (ms != [] ==> LastDigest(sha, init + [key], ms) == LastDigest(sha, init, outers))
  {
    assert (init + [key])[..|init|] == init;
  }

  lemma UsedAbsorbsTwice(sha: Hash, keys: seq<Key>, ms: seq<Octets>, msg: Octets, a: Octets, b: Octets)
    ensures Absorb(Absorb(Used(sha, keys, ms, msg), a), b) == Used(sha, keys, ms, msg + a + b)
  {
    hide Used, Absorb;
    UsedAbsorbs(sha, keys, ms, msg, a);
    UsedAbsorbs(sha, keys, ms, msg + a, b);
  }

  /** Finalizing, at every depth and after any number of earlier finalizations. */
  lemma {:induction false} FinishUsed(sha: Hash, keys: seq<Key>, ms: seq<Octets>, msg: Octets)
    ensures Finish(sha, Used(sha, keys, ms, msg)) ==
            (LastDigest(sha, keys, ms + [msg]), Used(sha, keys, ms + [msg], msg))
    decreases |keys|
  {
    if keys != [] {
      var init, key := keys[..|keys| - 1], keys[|keys| - 1];
      assert keys == init + [key];
      FinishUsed(sha, init, Prefixed(Xor(Padded(key), IPAD), ms), Xor(Padded(key), IPAD) + msg);
      var outers := OuterInputs(sha, init, key, ms + [msg]);
      FinishUsed(sha, init, OuterInputs(sha, init, key, ms), Last(outers));
      FinishUsedStep(sha, init, key, ms, msg);
    }
  }

  lemma FinishUsedStep(sha: Hash, init: seq<Key>, key: Key, ms: seq<Octets>, msg: Octets)
    requires var ipad := Xor(Padded(key), IPAD);
             var ms', msg' := Prefixed(ipad, ms), ipad + msg;
             Finish(sha, Used(sha, init, ms', msg')) ==
             (LastDigest(sha, init, ms' + [msg']), Used(sha, init, ms' + [msg'], msg'))
    requires var ms', msg' := OuterInputs(sha, init, key, ms), Last(OuterInputs(sha, init, key, ms + [msg]));
             Finish(sha, Used(sha, init, ms', msg')) ==
             (LastDigest(sha, init, ms' + [msg']), Used(sha, init, ms' + [msg'], msg'))
    ensures Finish(sha, Used(sha, init + [key], ms, msg)) ==
            (LastDigest(sha, init + [key], ms + [msg]), Used(sha, init + [key], ms + [msg], msg))
  {
    hide Xor, Padded, Finish, Absorb, OuterInputs, Used, LastDigest, Prefixed;
    var ipad, opad := Xor(Padded(key), IPAD), Xor(Padded(key), OPAD);
    UsedUnfold(sha, init, key, ms, msg);
    UsedUnfold(sha, init, key, ms + [msg], msg);
    FinishUnfold(sha, Used(sha, init + [key], ms, msg));
    PrefixedAppend(ipad, ms, msg);
    var before := OuterInputs(sha, init, key, ms);
    OuterInputsAppend(sha, init, key, ms, msg);
    UsedAbsorbsTwice(sha, init, before, Last(before), opad, LastDigest(sha, init, Prefixed(ipad, ms + [msg])));
  }

  lemma PrefixedAppend(pad: Octets, ms: seq<Octets>, msg: Octets)
    ensures Prefixed(pad, ms + [msg]) == Prefixed(pad, ms) + [pad + msg]
  {}

  lemma PrefixedNothing(pad: Octets)
    ensures Prefixed(pad, []) == []
  {}

  /** With one finalization the outer hash has absorbed its pad and one inner digest. */
  lemma OuterInputOnce(sha: Hash, init: seq<Key>, key: Key, msg: Octets)
    ensures OuterInputs(sha, init, key, [msg]) ==
            [Xor(Padded(key), OPAD) + LastDigest(sha, init, [Xor(Padded(key), IPAD) + msg])]
  {
    var ipad, opad := Xor(Padded(key), IPAD), Xor(Padded(key), OPAD);
    assert OuterInputs(sha, init, key, []) == [];
    hide Xor, Padded, LastDigest, OuterInputs, Prefixed;
    OuterInputsAppend(sha, init, key, [], msg);
    PrefixedNothing(ipad);
    assert [] + [msg] == [msg] && [] + [ipad + msg] == [ipad + msg] && Last([]) + opad == opad;
  }

  lemma NestedUnfold(sha: Hash, init: seq<Key>, key: Key, msg: Octets)
    ensures var inner := NestedHmac(sha, init, Xor(Padded(key), IPAD) + msg);
            NestedHmac(sha, init + [key], msg) == NestedHmac(sha, init, Xor(Padded(key), OPAD) + inner)
  {
    hide Xor, Padded;
    assert (init + [key])[..|init|] == init;
  }

  /** The first finalization gives the nested HMAC. */
  lemma {:induction false} FirstDigest(sha: Hash, keys: seq<Key>, msg: Octets)
    ensures LastDigest(sha, keys, [msg]) == NestedHmac(sha, keys, msg)
    decreases |keys|
  {
    if keys != [] {
      var init, key := keys[..|keys| - 1], keys[|keys| - 1];
      assert keys == init + [key];
      hide Xor, Padded, LastDigest, NestedHmac, OuterInputs, Used;
      var ipad, opad := Xor(Padded(key), IPAD), Xor(Padded(key), OPAD);
      FirstDigest(sha, init, ipad + msg);
      FirstDigest(sha, init, opad + NestedHmac(sha, init, ipad + msg));
      OuterInputOnce(sha, init, key, msg);
      UsedUnfold(sha, init, key, [msg], msg);
      NestedUnfold(sha, init, key, msg);
    }
  }

  /** The calls made on one hash object. */
  datatype Call = Feed(data: Octets) | Final

  /** The digests that the calls return, and what they leave. */
  function Calls(sha: Hash, h: HashState, calls: seq<Call>): (r: (seq<Digest>, HashState))
    decreases |calls|
  {
    if calls == [] then ([], h)
    else
      match calls[0]
      case Feed(data) => Calls(sha, Absorb(h, data), calls[1..])
      case Final =>
        var (d, h') := Finish(sha, h);
        var (ds, end) := Calls(sha, h', calls[1..]);
        ([d] + ds, end)
  }

  /** What the object has absorbed in all at each finalization among the calls. */
  function Totals(msg: Octets, calls: seq<Call>): (ms: seq<Octets>)
    decreases |calls|
  {
    if calls == [] then []
    else
      match calls[0]
      case Feed(data) => Totals(msg + data, calls[1..])
      case Final => [msg] + Totals(msg, calls[1..])
  }

  lemma {:induction false} CallsUsed(sha: Hash, keys: seq<Key>, ms: seq<Octets>, msg: Octets, calls: seq<Call>)
    ensures var ds := Calls(sha, Used(sha, keys, ms, msg), calls).0;
            var totals := Totals(msg, calls);
            && |ds| == |totals|
            && forall i :: 0 <= i < |ds| ==> ds[i] == LastDigest(sha, keys, ms + totals[..i + 1])
    decreases |calls|
  {
    hide Used, LastDigest, Finish, Absorb;
    if calls != [] {
      match calls[0] {
        case Feed(data) =>
          UsedAbsorbs(sha, keys, ms, msg, data);
          CallsUsed(sha, keys, ms, msg + data, calls[1..]);
        case Final =>
          FinishUsed(sha, keys, ms, msg);
          CallsUsed(sha, keys, ms + [msg], msg, calls[1..]);
          var totals, rest := Totals(msg, calls), Totals(msg, calls[1..]);
          assert ms + totals[..1] == ms + [msg];
          forall i | 0 < i < |totals| ensures ms + totals[..i + 1] == (ms + [msg]) + rest[..i] {}
      }
    }
  }

  /**
   * Whatever is called in whatever order on an object over any number of keys, its n-th finalization
   * returns the digest of the first n totals; the first one is the nested HMAC.
   */
  lemma EveryFinalize(sha: Hash, keys: seq<Key>, calls: seq<Call>)
    ensures var ds := Calls(sha, Build(keys), calls).0;
            var totals := Totals([], calls);
            && |ds| == |totals|
            && (forall i :: 0 <= i < |ds| ==> ds[i] == LastDigest(sha, keys, totals[..i + 1]))
            && (|ds| > 0 ==> ds[0] == NestedHmac(sha, keys, totals[0]))
  {
    hide Used, LastDigest, Finish, Absorb, NestedHmac, Build, Calls, Totals;
    BuildIsUnused(sha, keys);
    CallsUsed(sha, keys, [], [], calls);
    var totals := Totals([], calls);
    var ds := Calls(sha, Build(keys), calls).0;
    forall i | 0 <= i < |ds| ensures ds[i] == LastDigest(sha, keys, totals[..i + 1]) {
      assert [] + totals[..i + 1] == totals[..i + 1];
    }
    if |totals| > 0 {
      assert totals[..1] == [totals[0]];
      FirstDigest(sha, keys, totals[0]);
    }
  }

  /** Finalizing a one-level object again does not repeat the digest: the outer hash goes on from it. */
  lemma SecondFinalize(sha: Hash, key: Key, msg: Octets)
    ensures var opad := Xor(Padded(key), OPAD);
            var innerDigest := sha(Xor(Padded(key), IPAD) + msg);
            var once := Finish(sha, Absorb(Build([key]), msg));
            && once.0 == sha(opad + innerDigest)
            && Finish(sha, once.1).0 == sha(opad + innerDigest + opad + innerDigest)
  {
    var ipad, opad := Xor(Padded(key), IPAD), Xor(Padded(key), OPAD);
    assert Build([key]) == Create(key, Build([])) && Build([]) == Leaf([]);
    assert [] + ipad == ipad && [] + opad == opad;
  }

  lemma XorCancels(a: bv8, b: bv8, c: bv8)
    ensures a ^ c == b ^ c <==> a == b
  {}

  lemma XorInjective(p: Block, q: Block, c: bv8)
    ensures Xor(p, c) == Xor(q, c) <==> p == q
  {
    hide Xor;
    if Xor(p, c) == Xor(q, c) {
      forall i | 0 <= i < 64 ensures p[i] == q[i] {
        XorAt(p, c, i);
        XorAt(q, c, i);
        XorCancels(p[i], q[i], c);
      }
    }
  }

  lemma XorAt(block: Block, c: bv8, i: nat)
    requires i < 64
    ensures Xor(block, c)[i] == block[i] ^ c
  {}

  /** Two keys make the same HMAC pads exactly if one is the other with zero bytes appended. */
  lemma SamePadsExactly(a: Key, b: Key, c: bv8)
    requires |a| <= |b|
    ensures Xor(Padded(a), c) == Xor(Padded(b), c) <==>
            a == b[..|a|] && forall i :: |a| <= i < |b| ==> b[i] == 0
  {
    hide Xor;
    XorInjective(Padded(a), Padded(b), c);
    if Padded(a) == Padded(b) {
      forall i | 0 <= i < |a| ensures a[i] == b[i] { assert Padded(a)[i] == Padded(b)[i]; }
      forall i | |a| <= i < |b| ensures b[i] == 0 { assert Padded(a)[i] == Padded(b)[i]; }
    }
  }
}
