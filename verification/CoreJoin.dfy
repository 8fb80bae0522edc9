/**
 * How `relay_grpc_via_core` of src/relay/inbound/grpc.rs waits for its three parts: two spawned
 * tasks, decode and relay, whose handles may be awaited only once, and the encode future, which
 * makes progress only while the parent polls it.
 */
module CoreJoin {
  datatype Status = Running | Ended(ok: bool) | Cancelled

  /** A spawned task: `taken` counts how often its result was taken from its handle. */
  datatype Task = Task(status: Status, aborted: bool, taken: nat)

  datatype Encode = Encoding | Encoded(ok: bool)

  /** Where the parent is. */
  datatype Place =
    | FirstSelect                   // decode, encode or relay, whichever is ready
    | SecondSelect                  // decode ended well: encode or relay
    | JoinBoth(result: bool)        // encode ended: both tasks aborted, decode awaited first
    | JoinRelay(result: bool)       // relay aborted and awaited, then return
    | JoinDecode(relayOk: bool)     // relay ended first: decode aborted and awaited
    | AwaitEncode                   // relay ended well: encode to completion
    | Exited(ok: bool)

  datatype State = State(decode: Task, relay: Task, encode: Encode, place: Place)

  const Start: State := State(Task(Running, false, 0), Task(Running, false, 0), Encoding, FirstSelect)

  datatype Action =
    | DecodeSettles(status: Status)
    | RelaySettles(status: Status)
    | EncodeSettles(ok: bool)
    | TakeDecode
    | TakeRelay
    | TakeEncode

  /** A running task may end by itself, and is cancelled only when aborted. */
  predicate MaySettle(t: Task, status: Status) {
    t.status.Running? && !status.Running? && (status.Cancelled? ==> t.aborted)
  }

  predicate Polled(place: Place) {
    place.FirstSelect? || place.SecondSelect? || place.AwaitEncode?
  }

  predicate Enabled(s: State, a: Action) {
    match a
    case DecodeSettles(status) => MaySettle(s.decode, status)
    case RelaySettles(status) => MaySettle(s.relay, status)
    case EncodeSettles(_) => s.encode.Encoding? && Polled(s.place)
    case TakeDecode =>
      !s.decode.status.Running? && (s.place.FirstSelect? || s.place.JoinBoth? || s.place.JoinDecode?)
    case TakeRelay =>
      !s.relay.status.Running? && (s.place.FirstSelect? || s.place.SecondSelect? || s.place.JoinRelay?)
    case TakeEncode => s.encode.Encoded? && Polled(s.place)
  }

  /** `decode_result_to_result`: a cancelled decode is an error. */
  function DecodeOk(status: Status): bool {
    status.Ended? && status.ok
  }

  /** `relay_result_to_result`: a cancelled relay is not. */
  function RelayOk(status: Status): bool {
    status.Cancelled? || (status.Ended? && status.ok)
  }

  function Take(t: Task): Task {
    t.(taken := t.taken + 1)
  }

  function Abort(t: Task): Task {
    t.(aborted := true)
  }

  function Do(s: State, a: Action): (t: State)
    requires Enabled(s, a)
  {
    match a
    case DecodeSettles(status) => s.(decode := s.decode.(status := status))
    case RelaySettles(status) => s.(relay := s.relay.(status := status))
    case EncodeSettles(ok) => s.(encode := Encoded(ok))
    case TakeDecode =>
      var s' := s.(decode := Take(s.decode));
      (match s.place
       case FirstSelect =>
         if DecodeOk(s.decode.status) then s'.(place := SecondSelect)
         else s'.(relay := Abort(s.relay), place := JoinRelay(false))
       case JoinBoth(result) => s'.(place := JoinRelay(result))
       case JoinDecode(relayOk) => s'.(place := if relayOk then AwaitEncode else Exited(false))
       case _ => s')
    case TakeRelay =>
      var ok := RelayOk(s.relay.status);
      var s' := s.(relay := Take(s.relay));
      (match s.place
       case FirstSelect => s'.(decode := Abort(s.decode), place := JoinDecode(ok))
       case SecondSelect => s'.(place := if ok then AwaitEncode else Exited(false))
       case JoinRelay(result) => s'.(place := Exited(result))
       case _ => s')
    case TakeEncode =>
      (match s.place
       case FirstSelect =>
         s.(decode := Abort(s.decode), relay := Abort(s.relay), place := JoinBoth(s.encode.ok))
       case SecondSelect => s.(relay := Abort(s.relay), place := JoinRelay(s.encode.ok))
       case _ => s.(place := Exited(s.encode.ok)))
  }

  predicate IsRun(states: seq<State>, actions: seq<Action>) {
    && |states| == |actions| + 1
    && states[0] == Start
    && forall i :: 0 <= i < |actions| ==> Enabled(states[i], actions[i]) && states[i + 1] == Do(states[i], actions[i])
  }

  /** Decode ended well, or was aborted because another part had ended first. */
  predicate DecodeHarmless(s: State) {
    s.decode.aborted || s.decode.status == Ended(true)
  }

  /** Relay ended well, or was aborted because another part had ended first. */
  predicate RelayHarmless(s: State) {
    s.relay.aborted || s.relay.status == Ended(true)
  }

  /** How often each result has been taken at each place, and what that says about its task. */
  predicate Inv(s: State) {
    && (s.decode.status.Cancelled? ==> s.decode.aborted) && (s.relay.status.Cancelled? ==> s.relay.aborted)
    && (s.decode.taken > 0 ==> !s.decode.status.Running?)
    && (s.relay.taken > 0 ==> !s.relay.status.Running?)
    && match s.place
       case FirstSelect => s.decode.taken == 0 && s.relay.taken == 0 && !s.decode.aborted && !s.relay.aborted
       case SecondSelect =>
         s.decode.taken == 1 && s.relay.taken == 0 && DecodeOk(s.decode.status) && !s.relay.aborted
       case JoinBoth(result) =>
         && s.decode.taken == 0 && s.relay.taken == 0 && s.decode.aborted && s.relay.aborted
         && s.encode == Encoded(result)
       case JoinRelay(result) =>
         && s.decode.taken == 1 && s.relay.taken == 0 && s.relay.aborted
         && (if DecodeHarmless(s) then s.encode == Encoded(result) else !result)
       case JoinDecode(ok) =>
         && s.decode.taken == 0 && s.relay.taken == 1 && s.decode.aborted && !s.relay.aborted
         && ok == RelayOk(s.relay.status)
       case AwaitEncode =>
         s.decode.taken == 1 && s.relay.taken == 1 && DecodeHarmless(s) && RelayOk(s.relay.status)
       case Exited(ok) =>
         && s.decode.taken == 1 && s.relay.taken == 1
         && (if DecodeHarmless(s) && RelayHarmless(s) then s.encode == Encoded(ok) else !ok)
  }

  lemma InvStep(s: State, a: Action)
    requires Inv(s) && Enabled(s, a)
    ensures Inv(Do(s, a))
  {}

  lemma {:induction false} RunInv(states: seq<State>, actions: seq<Action>, i: nat)
    requires IsRun(states, actions) && i < |states|
    ensures Inv(states[i])
  {
    if i > 0 {
      RunInv(states, actions, i - 1);
      InvStep(states[i - 1], actions[i - 1]);
    }
  }

  /**
   * Joining: in whatever order the three parts end or fail, when the parent returns both spawned tasks
   * have settled and each result was taken exactly once. If a task that was never aborted has failed, an
   * error is returned; otherwise encoding has run to completion and its outcome is returned. So success
   * is returned only if encoding ended well.
   */
  lemma ExitJoinsAll(states: seq<State>, actions: seq<Action>, i: nat)
    requires IsRun(states, actions) && i < |states| && states[i].place.Exited?
    ensures var s := states[i];
            && !s.decode.status.Running? && s.decode.taken == 1
            && !s.relay.status.Running? && s.relay.taken == 1
            && (if DecodeHarmless(s) && RelayHarmless(s) then s.encode == Encoded(s.place.ok) else !s.place.ok)
            && (s.place.ok ==> s.encode == Encoded(true))
  {
    RunInv(states, actions, i);
  }

  /**
   * When relay ended well, encoding has run to completion and its outcome is returned, but for a decode
   * that failed and was never aborted: then an error is returned, whatever became of encoding.
   */
  lemma RelayOkExactly(states: seq<State>, actions: seq<Action>, i: nat)
    requires IsRun(states, actions) && i < |states| && states[i].place.Exited?
    requires states[i].relay.status == Ended(true) || states[i].relay.status.Cancelled?
    ensures var s := states[i];
            if DecodeHarmless(s) then s.encode == Encoded(s.place.ok) else s.place == Exited(false)
  {
    ExitJoinsAll(states, actions, i);
    RunInv(states, actions, i);
  }

  /** In this run relay ends well and its result is taken, but decode failed: encoding is dropped unfinished. */
  lemma EncodingDropped() returns (states: seq<State>, actions: seq<Action>)
    ensures IsRun(states, actions) && |actions| == 4
    ensures var s := states[4];
            && s.place == Exited(false) && s.encode.Encoding?
            && s.relay.status == Ended(true) && s.relay.taken == 1 && !DecodeHarmless(s)
  {
    actions := [RelaySettles(Ended(true)), DecodeSettles(Ended(false)), TakeDecode, TakeRelay];
    var s1 := Do(Start, actions[0]);
    var s2 := Do(s1, actions[1]);
    var s3 := Do(s2, actions[2]);
    states := [Start, s1, s2, s3, Do(s3, actions[3])];
  }

  /** A select takes whichever part is ready, and a part that is not ready is never taken. */
  lemma ReadyTaken(s: State)
    ensures s.place.FirstSelect? ==>
              && (Enabled(s, TakeDecode) <==> !s.decode.status.Running?)
              && (Enabled(s, TakeRelay) <==> !s.relay.status.Running?)
              && (Enabled(s, TakeEncode) <==> s.encode.Encoded?)
    ensures s.place.SecondSelect? ==>
              && (Enabled(s, TakeRelay) <==> !s.relay.status.Running?)
              && (Enabled(s, TakeEncode) <==> s.encode.Encoded?)
  {}

  /** Encoding makes no progress while the parent joins the tasks, or once it has returned. */
  lemma EncodeOnlyPolled(s: State, a: Action)
    requires Enabled(s, a) && (s.place.JoinBoth? || s.place.JoinRelay? || s.place.JoinDecode? || s.place.Exited?)
    ensures Do(s, a).encode == s.encode
  {}

  /** No result is ever taken a second time. */
  lemma TakenAtMostOnce(states: seq<State>, actions: seq<Action>, i: nat)
    requires IsRun(states, actions) && i < |states|
    ensures states[i].decode.taken <= 1 && states[i].relay.taken <= 1
  {
    RunInv(states, actions, i);
  }

  function Rank(s: State): (n: nat) {
    (if s.decode.status.Running? then 1 else 0)
    + (if s.relay.status.Running? then 1 else 0)
    + (if s.encode.Encoding? then 1 else 0)
    + match s.place
      case FirstSelect => 4
      case SecondSelect => 3
      case JoinBoth(_) => 2
      case JoinDecode(_) => 2
      case JoinRelay(_) => 1
      case AwaitEncode => 1
      case Exited(_) => 0
  }

  /** While the parent has not returned something can still happen, and whatever happens is progress. */
  lemma Progress(s: State)
    requires Inv(s) && !s.place.Exited?
    ensures exists a :: Enabled(s, a)
    ensures forall a :: Enabled(s, a) ==> Rank(Do(s, a)) < Rank(s)
  {
    var a :=
      match s.place
      case FirstSelect => if s.encode.Encoding? then EncodeSettles(true) else TakeEncode
      case SecondSelect => if s.encode.Encoding? then EncodeSettles(true) else TakeEncode
      case AwaitEncode => if s.encode.Encoding? then EncodeSettles(true) else TakeEncode
      case JoinBoth(_) => if s.decode.status.Running? then DecodeSettles(Cancelled) else TakeDecode
      case JoinDecode(_) => if s.decode.status.Running? then DecodeSettles(Cancelled) else TakeDecode
      case JoinRelay(_) => if s.relay.status.Running? then RelaySettles(Cancelled) else TakeRelay;
    assert Enabled(s, a);
  }

  /** So every run has returned within seven steps. */
  lemma {:induction false} RunsEnd(states: seq<State>, actions: seq<Action>, i: nat)
    requires IsRun(states, actions) && i < |states| && !states[i].place.Exited?
    ensures i + Rank(states[i]) <= 7
  {
    if i > 0 {
      var p := states[i - 1];
      ExitedStays(p, actions[i - 1]);
      RunsEnd(states, actions, i - 1);
      RunInv(states, actions, i - 1);
      Progress(p);
    }
  }

  lemma ExitedStays(s: State, a: Action)
    requires Enabled(s, a)
    ensures s.place.Exited? ==> Do(s, a).place.Exited?
  {}
}
