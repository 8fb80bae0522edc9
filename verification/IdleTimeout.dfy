/** The idle watch of src/relay/activity.rs. Times are in seconds. */
module IdleTimeout {
  function Clamp(x: real, low: real, high: real): (r: real)
    requires low <= high
  {
    if x < low then low else if x > high then high else x
  }

  function IdleCheckInterval(idleTimeout: real): (p: real)
    ensures 1.0 <= p <= 5.0
    ensures 4.0 <= idleTimeout <= 20.0 ==> 4.0 * p == idleTimeout
    ensures (idleTimeout < 4.0 ==> p == 1.0) && (idleTimeout > 20.0 ==> p == 5.0)
  {
    Clamp(idleTimeout / 4.0, 1.0, 5.0)
  }

  class RelayActivity {
    var lastActivity: real

    constructor (now: real)
      ensures lastActivity == now
    {
      lastActivity := now;
    }

    method Mark(now: real)
      modifies this
      ensures lastActivity == now
    {
      lastActivity := now;
    }

    /** An instant in the future has not elapsed at all. */
    function IdleFor(now: real): (d: real)
      reads this
    {
      if now < lastActivity then 0.0 else now - lastActivity
    }
  }

  /** What the relay and its clock do, in order of time. */
  datatype Event = Activity(at: real) | Tick(at: real) | CopyEnds(at: real)

  datatype Outcome = Open | ClosedIdle(at: real) | Copied(at: real)

  function Watch(idleTimeout: real, last: real, events: seq<Event>): (r: Outcome)
    decreases |events|
  {
    if events == [] then Open
    else
      match events[0]
      case Activity(at) => Watch(idleTimeout, at, events[1..])
      case CopyEnds(at) => Copied(at)
      case Tick(at) =>
        if (if at < last then 0.0 else at - last) >= idleTimeout then ClosedIdle(at)
        else Watch(idleTimeout, last, events[1..])
  }

  /** The select loop of `copy_bidirectional_with_idle_timeout`. */
  method CopyWithIdleTimeout(idleTimeout: real, start: real, events: seq<Event>) returns (r: Outcome)
    ensures r == Watch(idleTimeout, start, events)
  {
    var activity := new RelayActivity(start);
    var i := 0;
    while i < |events|
      invariant 0 <= i <= |events|
      invariant fresh(activity)
      invariant Watch(idleTimeout, start, events) == Watch(idleTimeout, activity.lastActivity, events[i..])
    {
      assert events[i..][1..] == events[i + 1..];
      match events[i] {
        case CopyEnds(at) => return Copied(at);
        case Activity(at) => activity.Mark(at);
        case Tick(at) =>
          if activity.IdleFor(at) >= idleTimeout {
            return ClosedIdle(at);
          }
      }
      i := i + 1;
    }
    return Open;
  }

  /** The last activity before event `k`. */
  function LastActivity(start: real, events: seq<Event>, k: nat): (at: real)
    requires k <= |events|
  {
    if k == 0 then start
    else if events[k - 1].Activity? then events[k - 1].at
    else LastActivity(start, events, k - 1)
  }

  /** Event `k` ends the watch: the copy ends, or a tick finds the relay silent for the timeout. */
  predicate Ends(idleTimeout: real, start: real, events: seq<Event>, k: nat)
    requires k < |events|
  {
    || events[k].CopyEnds?
    || (events[k].Tick? && var silent := events[k].at - LastActivity(start, events, k);
                           idleTimeout <= if silent < 0.0 then 0.0 else silent)
  }

  lemma {:induction false} LastActivityTail(start: real, events: seq<Event>, k: nat)
    requires k < |events|
    ensures var next := if events[0].Activity? then events[0].at else start;
            LastActivity(start, events, k + 1) == LastActivity(next, events[1..], k)
  {
    if k > 0 { LastActivityTail(start, events, k - 1); }
  }

  /** The watch ends exactly with the first event that ends it, and as that says; without one it stays open. */
  lemma {:induction false} WatchExactly(idleTimeout: real, start: real, events: seq<Event>)
    ensures var r := Watch(idleTimeout, start, events);
            if r.Open? then forall k :: 0 <= k < |events| ==> !Ends(idleTimeout, start, events, k)
            else
              exists k: nat :: && k < |events| && Ends(idleTimeout, start, events, k)
                               && (forall j :: 0 <= j < k ==> !Ends(idleTimeout, start, events, j))
                               && r == if events[k].CopyEnds? then Copied(events[k].at) else ClosedIdle(events[k].at)
    decreases |events|
  {
    if events != [] {
      var (rest, first) := (events[1..], events[0]);
      var next := if first.Activity? then first.at else start;
      if Ends(idleTimeout, start, events, 0) {
        assert LastActivity(start, events, 0) == start;
      } else {
        WatchExactly(idleTimeout, next, rest);
        assert Watch(idleTimeout, start, events) == Watch(idleTimeout, next, rest);
        forall k: nat | k < |rest|
          ensures Ends(idleTimeout, start, events, k + 1) <==> Ends(idleTimeout, next, rest, k)
        {
          LastActivityTail(start, events, k);
        }
        var r := Watch(idleTimeout, start, events);
        if !r.Open? {
          var k: nat :| && k < |rest| && Ends(idleTimeout, next, rest, k)
                        && (forall j :: 0 <= j < k ==> !Ends(idleTimeout, next, rest, j))
                        && r == if rest[k].CopyEnds? then Copied(rest[k].at) else ClosedIdle(rest[k].at);
          assert events[k + 1] == rest[k];
          forall j | 0 <= j < k + 1 ensures !Ends(idleTimeout, start, events, j) {
            if j > 0 { assert !Ends(idleTimeout, next, rest, j - 1); }
          }
        } else {
          forall k | 0 <= k < |events| ensures !Ends(idleTimeout, start, events, k) {
            if k > 0 { assert !Ends(idleTimeout, next, rest, k - 1); }
          }
        }
      }
    }
  }

  predicate Ordered(start: real, events: seq<Event>) {
    && (forall i :: 0 <= i < |events| ==> start <= events[i].at)
    && (forall i, j :: 0 <= i < j < |events| ==> events[i].at <= events[j].at)
  }

  lemma OrderedTail(start: real, events: seq<Event>)
    requires events != [] && Ordered(start, events)
    ensures Ordered(events[0].at, events[1..])
  {
    var tail := events[1..];
    forall i | 0 <= i < |tail| ensures events[0].at <= tail[i].at {
      assert tail[i] == events[i + 1];
    }
    forall i, j | 0 <= i < j < |tail| ensures tail[i].at <= tail[j].at {
      assert tail[i] == events[i + 1] && tail[j] == events[j + 1];
    }
  }

  /** A relay closed as idle had no activity in the `idleTimeout` seconds before. */
  lemma {:induction false} NeverWhileActive(idleTimeout: real, last: real, events: seq<Event>)
    requires idleTimeout > 0.0 && Ordered(last, events)
    ensures var r := Watch(idleTimeout, last, events);
            r.ClosedIdle? ==>
              && last + idleTimeout <= r.at
              && forall i :: 0 <= i < |events| && events[i].Activity? && events[i].at < r.at ==>
                   events[i].at + idleTimeout <= r.at
    decreases |events|
  {
    if events != [] {
      var tail := events[1..];
      OrderedTail(last, events);
      match events[0]
      case CopyEnds(_) =>
      case Activity(at) =>
        NeverWhileActive(idleTimeout, at, tail);
        Shift(events);
      case Tick(at) =>
        Shift(events);
        if at - last < idleTimeout {
          assert Ordered(last, tail) by { forall i | 0 <= i < |tail| ensures last <= tail[i].at {} }
          NeverWhileActive(idleTimeout, last, tail);
        }
    }
  }

  lemma Shift(events: seq<Event>)
    requires events != []
    ensures forall i :: 1 <= i < |events| ==> events[i] == events[1..][i - 1]
  {}

  /** With a tick that finds the relay silent for `idleTimeout`, the watch has ended by then. */
  lemma {:induction false} EndsBy(idleTimeout: real, last: real, events: seq<Event>, k: nat)
    requires Ordered(last, events) && k < |events| && events[k].Tick?
    requires idleTimeout > 0.0 && last + idleTimeout <= events[k].at
    requires forall i :: 0 <= i < k && events[i].Activity? ==> events[i].at + idleTimeout <= events[k].at
    ensures var r := Watch(idleTimeout, last, events); !r.Open? && r.at <= events[k].at
    decreases |events|
  {
    if k > 0 {
      var tail := events[1..];
      OrderedTail(last, events);
      Shift(events);
      match events[0]
      case CopyEnds(_) =>
      case Activity(at) => EndsBy(idleTimeout, at, tail, k - 1);
      case Tick(at) =>
        if at - last < idleTimeout {
          assert Ordered(last, tail) by { forall i | 0 <= i < |tail| ensures last <= tail[i].at {} }
          EndsBy(idleTimeout, last, tail, k - 1);
        }
    }
  }

  function TickTime(start: real, period: real, n: nat): (at: real) {
    start + n as real * period
  }

  /** The interval ticks at once and then every period, punctually, up to the horizon. */
  ghost predicate Punctual(events: seq<Event>, start: real, period: real, horizon: real) {
    forall n: nat :: TickTime(start, period, n) < horizon ==>
      exists k :: 0 <= k < |events| && events[k] == Tick(TickTime(start, period, n))
  }

  /** Some multiple of the period falls into every window of that length. */
  lemma TickInWindow(period: real, from: real) returns (n: nat)
    requires period > 0.0 && from >= 0.0
    ensures from <= n as real * period < from + period
  {
    var x := from / period;
    var f := x.Floor;
    n := if f as real == x then f else f + 1;
    NearestAbove(period, from, x, n as real);
  }

  lemma NearestAbove(period: real, from: real, x: real, n: real)
    requires period > 0.0 && x * period == from && x <= n < x + 1.0
    ensures from <= n * period < from + period
  {
    if x < n { MulMonotone(x, n, period); }
    MulMonotone(n, x + 1.0, period);
    assert (x + 1.0) * period == x * period + period;
  }

  lemma MulMonotone(x: real, y: real, p: real)
    requires p > 0.0 && x < y
    ensures x * p < y * p
  {}

  /**
   * Idle bound: with ticks of the period p computed from the timeout T, a relay whose last activity is
   * at `a` is closed, or has ended by itself, before a + T + p.
   */
  lemma IdleBound(idleTimeout: real, start: real, events: seq<Event>, a: real)
    requires idleTimeout > 0.0 && start <= a && Ordered(start, events)
    requires forall i :: 0 <= i < |events| && events[i].Activity? ==> events[i].at <= a
    requires Punctual(events, start, IdleCheckInterval(idleTimeout), a + idleTimeout + IdleCheckInterval(idleTimeout))
    ensures var r := Watch(idleTimeout, start, events);
            !r.Open? && r.at < a + idleTimeout + IdleCheckInterval(idleTimeout)
  {
    hide Watch, Ordered;
    var p := IdleCheckInterval(idleTimeout);
    var n := TickInWindow(p, a + idleTimeout - start);
    var at := TickTime(start, p, n);
    assert at < a + idleTimeout + p;
    var k :| 0 <= k < |events| && events[k] == Tick(at);
    assert a + idleTimeout <= at;
    EndsBy(idleTimeout, start, events, k);
  }
}
