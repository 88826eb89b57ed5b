/**
 The balancer over its lifetime (balancer/roachbalancer.go, New and Listen):
 the accept loop and the discovery goroutine share the routing state. Each
 `ChooseNode` holds the lock only for itself, so a discovery cycle is not
 one atomic step: connections can take the cursor between its trials. A run
 is a sequence of connections and whole cycles, each cycle carrying the
 connections served while it ran as its `Interference`.
 */
module Lifecycle {
  import opened Registry
  import opened Discovery

  /** A client connection that needs a backend, or one discovery cycle
      answered by the given oracle, with `extra(i)` connections served just
      before its trial `i`. */
  datatype Event = Connect | Discover(query: Query, extra: Interference)

  /** Selecting from an empty list divides by zero, which stops the process. */
  datatype Status = Running(b: Balancer) | Panicked

  /** One event applied to the shared state. A connection served inside a
      cycle finds the list the cycle started from, which it cannot empty, so
      it never panics there: a cycle over an empty list makes no trial. */
  function Step(b: Balancer, e: Event): (s: Status)
    ensures s.Panicked? <==> e.Connect? && b.nodes == []
    ensures s.Running? ==> s.b.n >= b.n
    ensures s.Running? && e.Connect? ==> s.b.nodes == b.nodes && s.b.n == b.n + 1
    ensures s.Running? && |b.nodes| > 0 ==> |s.b.nodes| > 0
    ensures e.Discover? && b.nodes == [] ==> s == Running(b)
  {
    match e
    case Connect =>
      if |b.nodes| == 0 then Panicked else Running(ChooseNode(b).next)
    case Discover(query, extra) =>
      Running(InterruptedRefresh(b, query, extra).after)
  }

  /** The state after a sequence of steps; a panic is final. */
  function Run(b: Balancer, events: seq<Event>): (s: Status)
    ensures events == [] ==> s == Running(b)
    ensures s.Running? ==> s.b.n >= b.n
    decreases |events|
  {
    if events == [] then
      Running(b)
    else
      match Step(b, events[0])
      case Panicked => Panicked
      case Running(next) => Run(next, events[1..])
  }

  /** A run split in two is the first part followed by the second, started
      from where the first left off; nothing follows a panic. */
  lemma {:induction false} RunSplit(b: Balancer, xs: seq<Event>, ys: seq<Event>)
    ensures Run(b, xs + ys) == match Run(b, xs)
                               case Panicked => Panicked
                               case Running(m) => Run(m, ys)
    decreases |xs|
  {
    if xs == [] {
      assert xs + ys == ys;
    } else {
      assert (xs + ys)[0] == xs[0];
      assert (xs + ys)[1..] == xs[1..] + ys;
      match Step(b, xs[0])
      case Panicked =>
      case Running(next) => RunSplit(next, xs[1..], ys);
    }
  }

  /** Once the process panicked, no later event brings it back. */
  lemma PanicIsFinal(b: Balancer, xs: seq<Event>, ys: seq<Event>)
    requires Run(b, xs).Panicked?
    ensures Run(b, xs + ys).Panicked?
  {
    RunSplit(b, xs, ys);
  }

  /** A balancer that knows at least one node keeps knowing at least one
      through any interleaving of connections and discovery cycles, however
      the connections fall between the trials of a cycle, so it never panics,
      and its cursor only grows. */
  lemma {:induction false} NonEmptyNeverPanics(b: Balancer, events: seq<Event>)
    requires |b.nodes| > 0
    ensures Run(b, events).Running?
    ensures |Run(b, events).b.nodes| > 0
    ensures Run(b, events).b.n >= b.n
    decreases |events|
  {
    if events != [] {
      NonEmptyNeverPanics(Step(b, events[0]).b, events[1..]);
    }
  }

  /** Started without nodes, discovery has nobody to ask and never fills the
      list; the balancer stays as it was until the first connection, which
      panics. */
  lemma {:induction false} EmptyNeverHeals(b: Balancer, events: seq<Event>)
    requires b.nodes == []
    ensures Run(b, events).Panicked? <==> Connect in events
    ensures Run(b, events).Running? ==> Run(b, events).b == b
    decreases |events|
  {
    if events != [] {
      assert events == [events[0]] + events[1..];
      if events[0].Discover? {
        EmptyNeverHeals(b, events[1..]);
      }
    }
  }
}
