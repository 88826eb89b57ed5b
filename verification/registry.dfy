/**
 The routing state of the balancer: the list of known backend addresses and
 the round-robin selection cursor (balancer/roachbalancer.go, type Balancer).

 In the program every method below runs under the balancer's mutex, so each
 is one atomic transition here: it takes the state as a value and, when it
 changes it, returns the next state.
 */
module Registry {
  import Cyclic

  /** A backend endpoint, `host:port`; only compared for equality. */
  type Address = string

  /** The list of known nodes and the cursor. The cursor is an unsigned
      integer in the program; here it is unbounded (see README). */
  datatype Balancer = Balancer(nodes: seq<Address>, n: nat)

  /** What one round-robin selection yields: the node to use and the state
      after the cursor moved on. */
  datatype Choice = Choice(node: Address, next: Balancer)

  /** The nodes handed out by several selections in a row, in order, and the
      state after the last of them. */
  datatype Picks = Picks(picked: seq<Address>, after: Balancer)

  /** A new balancer routes to the bootstrap list, starting at its head. */
  function New(initialNodes: seq<Address>): (b: Balancer)
    ensures b.nodes == initialNodes
    ensures b.n == 0
  {
    Balancer(initialNodes, 0)
  }

  /** Round-robin selection: the node under the cursor, then the cursor
      moves on by one. The program divides the cursor by the list length, so
      an empty list is the caller's fault (a run-time panic there). */
  function ChooseNode(b: Balancer): (c: Choice)
    requires |b.nodes| > 0
    ensures c.node in b.nodes
    ensures c.node == Slot(b, 0)
    ensures c.next.nodes == b.nodes
    ensures c.next.n == b.n + 1
  {
    Choice(b.nodes[Position(b, 0)], b.(n := b.n + 1))
  }

  /** The position selected is the cursor modulo the list length. */
  lemma ChooseNodeIndex(b: Balancer)
    requires |b.nodes| > 0
    ensures ChooseNode(b).node == b.nodes[b.n % |b.nodes|]
  {
    Cyclic.WrapIsMod(b.n, |b.nodes|);
  }

  /** A copy of the current list, built element by element. */
  method GetLiveNodes(b: Balancer) returns (nodes: seq<Address>)
    ensures nodes == b.nodes
    ensures |nodes| == GetNodeCount(b)
  {
    nodes := [];
    var i := 0;
    while i < |b.nodes|
      invariant 0 <= i <= |b.nodes|
      invariant nodes == b.nodes[..i]
    {
      nodes := nodes + [b.nodes[i]];
      i := i + 1;
    }
  }

  /** The number of known nodes; zero exactly when selection is impossible. */
  function GetNodeCount(b: Balancer): (count: nat)
    ensures count == |b.nodes|
    ensures count == 0 <==> b.nodes == []
  {
    |b.nodes|
  }

  /** Installing a discovery result: the list is swapped for `found` only
      when `found` is non-empty, and the cursor is kept in either case. */
  function Replace(b: Balancer, found: seq<Address>): (r: Balancer)
    ensures r.n == b.n
    ensures |found| > 0 ==> r.nodes == found
    ensures |found| == 0 ==> r == b
    ensures |b.nodes| > 0 ==> |r.nodes| > 0
  {
    if |found| > 0 then b.(nodes := found) else b
  }

  /** The list position the cursor selects `i` selections from now, if the
      list stays as it is. */
  function Position(b: Balancer, i: nat): nat
    requires |b.nodes| > 0
  {
    Cyclic.Wrap(b.n + i, |b.nodes|)
  }

  /** The node at that position. */
  function Slot(b: Balancer, i: nat): Address
    requires |b.nodes| > 0
  {
    b.nodes[Position(b, i)]
  }

  /** `k` selections in a row against an unchanging list. */
  function ChooseMany(b: Balancer, k: nat): (p: Picks)
    requires |b.nodes| > 0
    ensures |p.picked| == k
    ensures p.after.nodes == b.nodes
    ensures p.after.n == b.n + k
    ensures forall i :: 0 <= i < k ==> p.picked[i] == Slot(b, i)
    ensures forall i :: 0 <= i < k ==> p.picked[i] in b.nodes
    decreases k
  {
    if k == 0 then
      Picks([], b)
    else
      var c := ChooseNode(b);
      var rest := ChooseMany(c.next, k - 1);
      assert forall i :: 0 < i < k ==> Slot(c.next, i - 1) == Slot(b, i);
      Picks([c.node] + rest.picked, rest.after)
  }

  /** A cursor a whole lap ahead selects the same nodes. */
  lemma SlotPeriod(a: Balancer, b: Balancer, i: nat)
    requires |b.nodes| > 0
    requires a.nodes == b.nodes && a.n == b.n + |b.nodes|
    ensures Slot(a, i) == Slot(b, i)
  {
    Cyclic.WrapPeriod(b.n + i, |b.nodes|);
    assert a.n + i == b.n + i + |b.nodes|;
  }

  /** Within one lap, the cursor reads the list rotated to `n % L`. */
  lemma SlotRotates(b: Balancer, i: nat)
    requires |b.nodes| > 0 && i < |b.nodes|
    ensures var s := b.n % |b.nodes|;
            Slot(b, i) == (b.nodes[s..] + b.nodes[..s])[i]
  {
    var L, s := |b.nodes|, b.n % |b.nodes|;
    Cyclic.WrapShift(b.n, i, L);
    Cyclic.WrapIsMod(b.n, L);
  }

  /** One lap of `L` selections over a list of length `L` hands out the
      stored list in stored order, starting where the cursor points: the
      list rotated to `n % L`. */
  lemma RoundRobinLap(b: Balancer)
    requires |b.nodes| > 0
    ensures var s := b.n % |b.nodes|;
            ChooseMany(b, |b.nodes|).picked == b.nodes[s..] + b.nodes[..s]
  {
    var L, s := |b.nodes|, b.n % |b.nodes|;
    var lap := ChooseMany(b, L).picked;
    var rotated := b.nodes[s..] + b.nodes[..s];
    forall i | 0 <= i < L
      ensures lap[i] == rotated[i]
    {
      SlotRotates(b, i);
    }
  }

  /** One lap hands out every stored position exactly once. */
  lemma RoundRobinLapIsPermutation(b: Balancer)
    requires |b.nodes| > 0
    ensures multiset(ChooseMany(b, |b.nodes|).picked) == multiset(b.nodes)
  {
    RoundRobinLap(b);
    RotationPermutes(b.nodes, b.n % |b.nodes|);
  }

  /** A rotated list holds the same elements, as often, as the list. */
  lemma RotationPermutes<T>(a: seq<T>, s: nat)
    requires s <= |a|
    ensures multiset(a[s..] + a[..s]) == multiset(a)
  {
    assert a == a[..s] + a[s..];
  }

  /** After one lap the cursor points where it started, so the next lap hands
      out the same sequence again. */
  lemma RoundRobinRepeats(b: Balancer)
    requires |b.nodes| > 0
    ensures var lap := ChooseMany(b, |b.nodes|);
            ChooseMany(lap.after, |b.nodes|).picked == lap.picked
  {
    var L := |b.nodes|;
    var lap := ChooseMany(b, L);
    var again := ChooseMany(lap.after, L);
    forall i | 0 <= i < L
      ensures again.picked[i] == lap.picked[i]
    {
      SlotPeriod(lap.after, b, i);
    }
  }

  /** Selections compose: `j` then `k` selections are `j + k` selections. */
  lemma ChooseManySplit(b: Balancer, j: nat, k: nat)
    requires |b.nodes| > 0
    ensures var first := ChooseMany(b, j);
            var second := ChooseMany(first.after, k);
            ChooseMany(b, j + k) == Picks(first.picked + second.picked, second.after)
  {
    var whole, first := ChooseMany(b, j + k), ChooseMany(b, j);
    var second := ChooseMany(first.after, k);
    forall i | j <= i < j + k
      ensures whole.picked[i] == second.picked[i - j]
    {
      assert second.picked[i - j] == Slot(first.after, i - j);
      SlotShift(first.after, b, j, i - j);
      assert whole.picked[i] == Slot(b, j + (i - j));
    }
    assert whole.picked == first.picked + second.picked;
  }

  /** A cursor `d` selections ahead reads the same list `d` places further on. */
  lemma SlotShift(a: Balancer, b: Balancer, d: nat, i: nat)
    requires |b.nodes| > 0
    requires a.nodes == b.nodes && a.n == b.n + d
    ensures Slot(a, i) == Slot(b, d + i)
  {
    assert a.n + i == b.n + (d + i);
  }

  /** A new balancer serves its bootstrap list once through, in the order
      given, and then starts over at the head. */
  lemma NewServesInOrder(initialNodes: seq<Address>)
    requires |initialNodes| > 0
    ensures ChooseMany(New(initialNodes), |initialNodes|).picked == initialNodes
    ensures ChooseMany(New(initialNodes), |initialNodes| + 1).picked
            == initialNodes + [initialNodes[0]]
  {
    var b, L := New(initialNodes), |initialNodes|;
    var lap := ChooseMany(b, L);
    RoundRobinLap(b);
    assert lap.picked == initialNodes[0..] + initialNodes[..0];
    ChooseManySplit(b, L, 1);
    var next := ChooseMany(lap.after, 1);
    SlotPeriod(lap.after, b, 0);
    assert next.picked == [Slot(b, 0)];
  }

  /** With bootstrap nodes `[A, B, C]`, four selections yield `A, B, C, A`. */
  lemma ThreeNodesFourPicks(a: Address, b: Address, c: Address)
    ensures ChooseMany(New([a, b, c]), 4).picked == [a, b, c, a]
  {
    NewServesInOrder([a, b, c]);
  }
}
