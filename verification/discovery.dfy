/**
 One discovery cycle (balancer/roachbalancer.go, refreshLiveNodes): ask one
 known node after another for the cluster's live members until a query
 answers, and install the answer when it is not empty.

 Opening the database and running the liveness query are foreign calls; here
 they are an oracle, `Query`, that gives the outcome of the trial with a given
 number against the address that trial dialed.
 */
module Discovery {
  import opened Registry
  import Cyclic

  /** One result row of the liveness query: an address, or a row whose
      address could not be read. */
  datatype Row = Scanned(addr: Address) | ScanError

  /** How one trial went: opening the connection failed, the query failed,
      or the query answered with rows. */
  datatype Outcome = OpenFailed | QueryFailed | Answered(rows: seq<Row>)

  /** The oracle: outcome of trial number `i` made against address `a`. */
  type Query = (nat, Address) -> Outcome

  /** The state a cycle leaves behind and the addresses it tried, in order. */
  datatype Cycle = Cycle(after: Balancer, tried: seq<Address>)

  /** The addresses of the rows that scanned, in row order; unreadable rows
      are skipped. */
  function ScanRows(rows: seq<Row>): (addrs: seq<Address>)
    ensures |addrs| <= |rows|
    ensures forall a :: a in addrs <==> Scanned(a) in rows
    decreases |rows|
  {
    if rows == [] then []
    else
      assert rows == [rows[0]] + rows[1..];
      (if rows[0].Scanned? then [rows[0].addr] else []) + ScanRows(rows[1..])
  }

  /** Scanning distributes over concatenation of the row stream. */
  lemma {:induction false} ScanRowsAppend(xs: seq<Row>, ys: seq<Row>)
    ensures ScanRows(xs + ys) == ScanRows(xs) + ScanRows(ys)
    decreases |xs|
  {
    if xs != [] {
      assert (xs + ys)[1..] == xs[1..] + ys;
      ScanRowsAppend(xs[1..], ys);
    } else {
      assert xs + ys == ys;
    }
  }

  /** When every row scans, the result is the rows' addresses, in row order. */
  lemma {:induction false} ScanRowsAllScanned(rows: seq<Row>)
    requires forall k :: 0 <= k < |rows| ==> rows[k].Scanned?
    ensures |ScanRows(rows)| == |rows|
    ensures forall k :: 0 <= k < |rows| ==> ScanRows(rows)[k] == rows[k].addr
    decreases |rows|
  {
    if rows != [] {
      ScanRowsAllScanned(rows[1..]);
    }
  }

  /** The scan result is empty exactly when no row scanned. */
  lemma ScanRowsEmpty(rows: seq<Row>)
    ensures ScanRows(rows) == [] <==> forall k :: 0 <= k < |rows| ==> rows[k] == ScanError
  {
    forall k | 0 <= k < |rows| && rows[k].Scanned?
      ensures rows[k].addr in ScanRows(rows)
    {
      assert Scanned(rows[k].addr) == rows[k];
    }
    if ScanRows(rows) != [] {
      assert ScanRows(rows)[0] in ScanRows(rows);
    }
  }

  /** The row loop of one trial: read every row, keep those that scan. */
  method ScanAll(rows: seq<Row>) returns (found: seq<Address>)
    ensures found == ScanRows(rows)
  {
    found := [];
    var i := 0;
    while i < |rows|
      invariant 0 <= i <= |rows|
      invariant found == ScanRows(rows[..i])
    {
      assert rows[..i + 1] == rows[..i] + [rows[i]];
      ScanRowsAppend(rows[..i], [rows[i]]);
      if rows[i].Scanned? {
        found := found + [rows[i].addr];
      }
      i := i + 1;
    }
    assert rows[..i] == rows;
  }

  /** What a cycle that starts at trial `i` of `c`, from state `b`, must
      leave behind in `r`:
      - it tried at most the remaining `c - i` nodes, one cursor step each,
        and the addresses tried are the ones the cursor points at in turn;
      - every trial but the last failed;
      - if the last trial answered, the list became that answer when it is
        non-empty; otherwise every remaining trial was made, all failed,
        and the list is unchanged. */
  ghost predicate Settles(b: Balancer, c: nat, i: nat, query: Query, r: Cycle)
  {
    && |r.tried| <= c - i
    && r.after.n == b.n + |r.tried|
    && (|r.tried| > 0 ==> |b.nodes| > 0)
    && (forall j :: 0 <= j < |r.tried| ==> r.tried[j] == Slot(b, j))
    && (forall j :: 0 <= j < |r.tried| - 1 ==> !query(i + j, r.tried[j]).Answered?)
    && if |r.tried| > 0 && query(i + |r.tried| - 1, r.tried[|r.tried| - 1]).Answered?
       then r.after.nodes
            == Replace(b, ScanRows(query(i + |r.tried| - 1, r.tried[|r.tried| - 1]).rows)).nodes
       else |r.tried| == c - i && r.after.nodes == b.nodes
  }

  /** Trials `i`, `i + 1`, ..., `c - 1` of one cycle. */
  function Trials(b: Balancer, c: nat, i: nat, query: Query): (r: Cycle)
    requires i <= c
    requires i < c ==> |b.nodes| > 0
    ensures Settles(b, c, i, query, r)
    decreases c - i
  {
    if i == c then
      Cycle(b, [])
    else
      var choice := ChooseNode(b);
      match query(i, choice.node)
      case Answered(rows) =>
        SettlesOnAnswer(b, c, i, query);
        Cycle(Replace(choice.next, ScanRows(rows)), [choice.node])
      case _ =>
        var rest := Trials(choice.next, c, i + 1, query);
        SettlesAfterFailure(b, c, i, query, rest);
        Cycle(rest.after, [choice.node] + rest.tried)
  }

  /** A trial that answers ends the cycle with the answer installed. */
  lemma SettlesOnAnswer(b: Balancer, c: nat, i: nat, query: Query)
    requires i < c && |b.nodes| > 0
    requires query(i, ChooseNode(b).node).Answered?
    ensures var choice := ChooseNode(b);
            Settles(b, c, i, query,
                    Cycle(Replace(choice.next, ScanRows(query(i, choice.node).rows)), [choice.node]))
  {
  }

  /** A failed trial prepends its address to what the remaining trials do. */
  lemma SettlesAfterFailure(b: Balancer, c: nat, i: nat, query: Query, rest: Cycle)
    requires i < c && |b.nodes| > 0
    requires !query(i, ChooseNode(b).node).Answered?
    requires Settles(ChooseNode(b).next, c, i + 1, query, rest)
    ensures Settles(b, c, i, query, Cycle(rest.after, [ChooseNode(b).node] + rest.tried))
  {
    var choice := ChooseNode(b);
    var tried := [choice.node] + rest.tried;
    forall j | 1 <= j < |tried|
      ensures tried[j] == Slot(b, j)
    {
      assert tried[j] == rest.tried[j - 1];
      SlotShift(choice.next, b, 1, j - 1);
    }
    forall j | 1 <= j < |tried| - 1
      ensures !query(i + j, tried[j]).Answered?
    {
      assert tried[j] == rest.tried[j - 1];
      assert i + j == (i + 1) + (j - 1);
    }
    if |rest.tried| > 0 {
      assert tried[|tried| - 1] == rest.tried[|rest.tried| - 1];
      assert i + |tried| - 1 == i + 1 + |rest.tried| - 1;
    }
  }

  /** One discovery cycle, as many trials as there are known nodes, that no
      client connection interrupts. */
  function Refresh(b: Balancer, query: Query): (r: Cycle)
    ensures Settles(b, |b.nodes|, 0, query, r)
    ensures |b.nodes| == 0 ==> r == Cycle(b, [])
    ensures |b.nodes| > 0 ==> |r.after.nodes| > 0
  {
    Trials(b, GetNodeCount(b), 0, query)
  }

  /** Connections the accept loop serves while a cycle runs. The cycle takes
      the lock only for each `ChooseNode` and for the final assignment, so
      selections for client connections can fall between its trials:
      `extra(i)` is how many of them take the lock just before trial `i`. */
  type Interference = nat -> nat

  /** Selections made by connections before trials `i`, ..., `i + k - 1`. */
  function Delay(extra: Interference, i: nat, k: nat): nat
    decreases k
  {
    if k == 0 then 0 else extra(i) + Delay(extra, i + 1, k - 1)
  }

  /** What a cycle interrupted by `extra` leaves behind: the same as
      `Settles`, except that trial `j` reads the cursor after the `j` earlier
      trials and after every connection served so far, and the cursor ends
      moved by both. */
  ghost predicate SettlesInterrupted(b: Balancer, c: nat, i: nat, query: Query,
                                     extra: Interference, r: Cycle)
  {
    InterruptedTrail(b, i, extra, r) && StopsAtFirstAnswer(b, c, i, query, r)
  }

  /** The addresses an interrupted cycle dialed, and where it left the
      cursor. */
  ghost predicate InterruptedTrail(b: Balancer, i: nat, extra: Interference, r: Cycle)
  {
    && r.after.n == b.n + |r.tried| + Delay(extra, i, |r.tried|)
    && (|r.tried| > 0 ==> |b.nodes| > 0)
    && (forall j :: 0 <= j < |r.tried| ==> r.tried[j] == Slot(b, j + Delay(extra, i, j + 1)))
  }

  /** At most the remaining `c - i` trials, every one but the last failed, and
      the list is the last trial's answer when that answered and was not
      empty; otherwise every trial was made and the list is unchanged. */
  ghost predicate StopsAtFirstAnswer(b: Balancer, c: nat, i: nat, query: Query, r: Cycle)
  {
    && |r.tried| <= c - i
    && (forall j :: 0 <= j < |r.tried| - 1 ==> !query(i + j, r.tried[j]).Answered?)
    && if |r.tried| > 0 && query(i + |r.tried| - 1, r.tried[|r.tried| - 1]).Answered?
       then r.after.nodes
            == Replace(b, ScanRows(query(i + |r.tried| - 1, r.tried[|r.tried| - 1]).rows)).nodes
       else |r.tried| == c - i && r.after.nodes == b.nodes
  }

  /** Trials `i`, ..., `c - 1` of a cycle, each preceded by the connections
      `extra` serves. Only the cursor is shared with them: the list changes
      only at the end of a cycle, and cycles do not overlap. What these
      trials leave behind is stated by `InterruptedTrialsSettle`. */
  function InterruptedTrials(b: Balancer, c: nat, i: nat, query: Query,
                             extra: Interference): Cycle
    requires i <= c
    requires i < c ==> |b.nodes| > 0
    decreases c - i
  {
    if i == c then
      Cycle(b, [])
    else
      var choice := ChooseNode(Balancer(b.nodes, b.n + extra(i)));
      match query(i, choice.node)
      case Answered(rows) =>
        Cycle(Replace(choice.next, ScanRows(rows)), [choice.node])
      case _ =>
        var rest := InterruptedTrials(choice.next, c, i + 1, query, extra);
        Cycle(rest.after, [choice.node] + rest.tried)
  }

  /** The trials of an interrupted cycle settle as `SettlesInterrupted`
      describes. */
  lemma {:induction false} InterruptedTrialsSettle(b: Balancer, c: nat, i: nat, query: Query,
                                                   extra: Interference)
    requires i <= c
    requires i < c ==> |b.nodes| > 0
    ensures SettlesInterrupted(b, c, i, query, extra, InterruptedTrials(b, c, i, query, extra))
    decreases c - i
  {
    if i < c {
      var choice := ChooseNode(Balancer(b.nodes, b.n + extra(i)));
      if query(i, choice.node).Answered? {
        InterruptedOnAnswer(b, c, i, query, extra);
      } else {
        InterruptedTrialsSettle(choice.next, c, i + 1, query, extra);
        var rest := InterruptedTrials(choice.next, c, i + 1, query, extra);
        InterruptedAfterFailure(b, c, i, query, extra, choice, rest);
      }
    }
  }

  /** An interrupted trial that answers ends the cycle with the answer
      installed. */
  lemma InterruptedOnAnswer(b: Balancer, c: nat, i: nat, query: Query, extra: Interference)
    requires i < c && |b.nodes| > 0
    requires query(i, ChooseNode(Balancer(b.nodes, b.n + extra(i))).node).Answered?
    ensures var choice := ChooseNode(Balancer(b.nodes, b.n + extra(i)));
            SettlesInterrupted(b, c, i, query, extra,
                               Cycle(Replace(choice.next, ScanRows(query(i, choice.node).rows)),
                                     [choice.node]))
  {
    var delayed := Balancer(b.nodes, b.n + extra(i));
    SlotShift(delayed, b, extra(i), 0);
    assert Delay(extra, i, 1) == extra(i);
  }

  /** A failed interrupted trial prepends its address to what the remaining
      trials do. */
  lemma InterruptedAfterFailure(b: Balancer, c: nat, i: nat, query: Query,
                                extra: Interference, choice: Choice, rest: Cycle)
    requires i < c && |b.nodes| > 0
    requires choice == ChooseNode(Balancer(b.nodes, b.n + extra(i)))
    requires !query(i, choice.node).Answered?
    requires SettlesInterrupted(choice.next, c, i + 1, query, extra, rest)
    ensures SettlesInterrupted(b, c, i, query, extra, Cycle(rest.after, [choice.node] + rest.tried))
  {
    SlotShift(Balancer(b.nodes, b.n + extra(i)), b, extra(i), 0);
    assert Delay(extra, i, 1) == extra(i);
    TrailAfterFailure(b, choice.next, extra, i, choice.node, rest);
    StopsAfterFailure(b, choice.next, c, i, query, choice.node, rest);
  }

  /** The trail of a failed trial followed by the rest of the cycle. */
  lemma TrailAfterFailure(b: Balancer, next: Balancer, extra: Interference, i: nat,
                          first: Address, rest: Cycle)
    requires |b.nodes| > 0
    requires next.nodes == b.nodes && next.n == b.n + extra(i) + 1
    requires first == Slot(b, Delay(extra, i, 1))
    requires InterruptedTrail(next, i + 1, extra, rest)
    ensures InterruptedTrail(b, i, extra, Cycle(rest.after, [first] + rest.tried))
  {
    InterruptedTriedFollow(b, next, extra, i, first, rest.tried);
    assert Delay(extra, i, |rest.tried| + 1) == extra(i) + Delay(extra, i + 1, |rest.tried|);
  }

  /** A failed trial in front of a cycle that stops at its first answer gives
      a cycle that stops at its first answer. */
  lemma StopsAfterFailure(b: Balancer, next: Balancer, c: nat, i: nat, query: Query,
                          first: Address, rest: Cycle)
    requires i < c && next.nodes == b.nodes
    requires !query(i, first).Answered?
    requires StopsAtFirstAnswer(next, c, i + 1, query, rest)
    ensures StopsAtFirstAnswer(b, c, i, query, Cycle(rest.after, [first] + rest.tried))
  {
    var tried := [first] + rest.tried;
    forall j | 1 <= j < |tried| - 1
      ensures !query(i + j, tried[j]).Answered?
    {
      assert tried[j] == rest.tried[j - 1];
      assert i + j == (i + 1) + (j - 1);
    }
    if |rest.tried| > 0 {
      assert tried[|tried| - 1] == rest.tried[|rest.tried| - 1];
      assert i + |tried| - 1 == i + 1 + |rest.tried| - 1;
    }
  }

  /** The addresses of a failed trial and of the trials after it follow the
      interrupted cursor. */
  lemma InterruptedTriedFollow(b: Balancer, next: Balancer, extra: Interference, i: nat,
                               first: Address, rest: seq<Address>)
    requires |b.nodes| > 0
    requires next.nodes == b.nodes && next.n == b.n + extra(i) + 1
    requires first == Slot(b, Delay(extra, i, 1))
    requires forall j :: 0 <= j < |rest| ==> rest[j] == Slot(next, j + Delay(extra, i + 1, j + 1))
    ensures forall j :: 0 <= j < |rest| + 1 ==> ([first] + rest)[j] == Slot(b, j + Delay(extra, i, j + 1))
  {
    var tried := [first] + rest;
    forall j | 1 <= j < |tried|
      ensures tried[j] == Slot(b, j + Delay(extra, i, j + 1))
    {
      assert tried[j] == rest[j - 1];
      DelayedSlot(b, next, extra, i, j - 1);
    }
  }

  /** Trial `m` of the rest of a cycle is trial `m + 1` of the whole one. */
  lemma DelayedSlot(b: Balancer, next: Balancer, extra: Interference, i: nat, m: nat)
    requires |b.nodes| > 0
    requires next.nodes == b.nodes && next.n == b.n + extra(i) + 1
    ensures Slot(next, m + Delay(extra, i + 1, m + 1)) == Slot(b, m + 1 + Delay(extra, i, m + 2))
  {
    SlotShift(next, b, extra(i) + 1, m + Delay(extra, i + 1, m + 1));
    assert Delay(extra, i, m + 2) == extra(i) + Delay(extra, i + 1, m + 1);
  }

  /** One failed trial of the program's loop: the trials still to come are
      those after it. */
  lemma LoopAfterFailure(whole: Cycle, after: Balancer, tried: seq<Address>,
                         c: nat, i: nat, query: Query, extra: Interference)
    requires i < c && |after.nodes| > 0
    requires var rest := InterruptedTrials(after, c, i, query, extra);
             whole == Cycle(rest.after, tried + rest.tried)
    requires !query(i, ChooseNode(Balancer(after.nodes, after.n + extra(i))).node).Answered?
    ensures var choice := ChooseNode(Balancer(after.nodes, after.n + extra(i)));
            var rest := InterruptedTrials(choice.next, c, i + 1, query, extra);
            whole == Cycle(rest.after, (tried + [choice.node]) + rest.tried)
  {
    var choice := ChooseNode(Balancer(after.nodes, after.n + extra(i)));
    var rest := InterruptedTrials(choice.next, c, i + 1, query, extra);
    assert InterruptedTrials(after, c, i, query, extra) == Cycle(rest.after, [choice.node] + rest.tried);
    assert tried + ([choice.node] + rest.tried) == (tried + [choice.node]) + rest.tried;
  }

  /** A trial of the program's loop that answered: it is the last. */
  lemma LoopAfterAnswer(whole: Cycle, after: Balancer, tried: seq<Address>,
                        c: nat, i: nat, query: Query, extra: Interference)
    requires i < c && |after.nodes| > 0
    requires var rest := InterruptedTrials(after, c, i, query, extra);
             whole == Cycle(rest.after, tried + rest.tried)
    requires query(i, ChooseNode(Balancer(after.nodes, after.n + extra(i))).node).Answered?
    ensures var choice := ChooseNode(Balancer(after.nodes, after.n + extra(i)));
            whole == Cycle(Replace(choice.next, ScanRows(query(i, choice.node).rows)),
                           tried + [choice.node])
  {
  }

  /** One discovery cycle as the program runs it, with connections served
      between its trials. Interrupted or not, it only ever dials known nodes
      and never empties a non-empty list. */
  function InterruptedRefresh(b: Balancer, query: Query, extra: Interference): (r: Cycle)
    ensures SettlesInterrupted(b, |b.nodes|, 0, query, extra, r)
    ensures |b.nodes| == 0 ==> r == Cycle(b, [])
    ensures forall j :: 0 <= j < |r.tried| ==> r.tried[j] in b.nodes
    ensures |b.nodes| > 0 ==> |r.after.nodes| > 0
    ensures r.after.n >= b.n
  {
    InterruptedTrialsSettle(b, GetNodeCount(b), 0, query, extra);
    InterruptedTrials(b, GetNodeCount(b), 0, query, extra)
  }

  /** No interruption before any trial means no delay at all. */
  lemma {:induction false} DelayNone(extra: Interference, i: nat, k: nat)
    requires forall t :: i <= t < i + k ==> extra(t) == 0
    ensures Delay(extra, i, k) == 0
    decreases k
  {
    if k > 0 {
      DelayNone(extra, i + 1, k - 1);
    }
  }

  /** Without interruptions, the outcome of an interrupted cycle settles in
      the sense of `Settles`. */
  lemma UninterruptedSettles(b: Balancer, c: nat, i: nat, query: Query,
                             extra: Interference, r: Cycle)
    requires SettlesInterrupted(b, c, i, query, extra, r)
    requires forall t :: i <= t < c ==> extra(t) == 0
    ensures Settles(b, c, i, query, r)
  {
    forall k | 0 <= k <= |r.tried|
      ensures Delay(extra, i, k) == 0
    {
      DelayNone(extra, i, k);
    }
    forall j | 0 <= j < |r.tried|
      ensures r.tried[j] == Slot(b, j)
    {
      assert Delay(extra, i, j + 1) == 0;
    }
  }

  /** A cycle that no connection interrupts is the cycle `Refresh` describes. */
  lemma UninterruptedCycle(b: Balancer, query: Query, extra: Interference)
    requires forall t :: 0 <= t < |b.nodes| ==> extra(t) == 0
    ensures InterruptedRefresh(b, query, extra) == Refresh(b, query)
  {
    var r := InterruptedRefresh(b, query, extra);
    UninterruptedSettles(b, |b.nodes|, 0, query, extra, r);
    SettlesDetermines(b, |b.nodes|, 0, query, r, Refresh(b, query));
  }

  /** But one connection served between two failing trials is enough to make
      a cycle over two nodes dial the first node twice and never the
      second. */
  lemma InterruptedCycleRetries(x: Address, y: Address, query: Query)
    requires x != y
    requires forall t, a :: !query(t, a).Answered?
    ensures var r := InterruptedRefresh(New([x, y]), query, t => if t == 1 then 1 else 0);
            r.tried == [x, x] && y !in r.tried
  {
    var extra: Interference := t => if t == 1 then 1 else 0;
    var b := New([x, y]);
    var r := InterruptedRefresh(b, query, extra);
    assert |r.tried| == 2;
    assert Delay(extra, 0, 1) == 0;
    assert Delay(extra, 0, 2) == 1;
    assert r.tried[0] == Slot(b, 0) == x;
    assert Cyclic.Wrap(2, 2) == 0;
    assert r.tried[1] == Slot(b, 2) == x;
  }

  /** The loop of the program: count the nodes, then for each trial choose a
      node, skip to the next trial on failure, and on an answer install the
      scanned rows if there are any and stop. Before each selection, the
      connections `extra` serves take their turn at the cursor. */
  method RefreshLiveNodes(b: Balancer, query: Query, extra: Interference)
    returns (after: Balancer, tried: seq<Address>)
    ensures Cycle(after, tried) == InterruptedRefresh(b, query, extra)
    ensures (forall t :: 0 <= t < |b.nodes| ==> extra(t) == 0) ==> Cycle(after, tried) == Refresh(b, query)
  {
    var c := GetNodeCount(b);
    ghost var whole := InterruptedTrials(b, c, 0, query, extra);
    after, tried := b, [];
    var i := 0;
    while i < c
      invariant 0 <= i <= c
      invariant after.nodes == b.nodes && |tried| == i
      invariant var rest := InterruptedTrials(after, c, i, query, extra);
                whole == Cycle(rest.after, tried + rest.tried)
      decreases c - i
    {
      var choice := ChooseNode(Balancer(after.nodes, after.n + extra(i)));
      var outcome := query(i, choice.node);
      if !outcome.Answered? {
        LoopAfterFailure(whole, after, tried, c, i, query, extra);
        after, tried := choice.next, tried + [choice.node];
        i := i + 1;
        continue;
      }
      var found := ScanAll(outcome.rows);
      LoopAfterAnswer(whole, after, tried, c, i, query, extra);
      after, tried := Replace(choice.next, found), tried + [choice.node];
      break;
    }
    assert tried + [] == tried;
    if forall t :: 0 <= t < |b.nodes| ==> extra(t) == 0 {
      UninterruptedCycle(b, query, extra);
    }
  }

  /** The shape of a settled cycle read off in terms of the cursor: every
      trial before the last failed, and the cycle ran out of trials unless
      its last trial answered. */
  lemma SettlesShape(b: Balancer, c: nat, i: nat, query: Query, r: Cycle)
    requires Settles(b, c, i, query, r)
    ensures |r.tried| > 0 ==> |b.nodes| > 0
    ensures forall j :: 0 <= j < |r.tried| - 1 ==> !query(i + j, Slot(b, j)).Answered?
    ensures |r.tried| == c - i
            || (0 < |r.tried| && query(i + |r.tried| - 1, Slot(b, |r.tried| - 1)).Answered?)
  {
    forall j | 0 <= j < |r.tried| - 1
      ensures !query(i + j, Slot(b, j)).Answered?
    {
      assert r.tried[j] == Slot(b, j);
    }
    if 0 < |r.tried| {
      assert r.tried[|r.tried| - 1] == Slot(b, |r.tried| - 1);
    }
  }

  /** `Settles` pins the cycle down completely: two cycles that both settle
      from the same state against the same oracle are the same cycle. */
  lemma SettlesDetermines(b: Balancer, c: nat, i: nat, query: Query, r1: Cycle, r2: Cycle)
    requires Settles(b, c, i, query, r1)
    requires Settles(b, c, i, query, r2)
    ensures r1 == r2
  {
    SettlesShape(b, c, i, query, r1);
    SettlesShape(b, c, i, query, r2);
    assert |r1.tried| == |r2.tried|;
    forall j | 0 <= j < |r1.tried|
      ensures r1.tried[j] == r2.tried[j]
    {
    }
    assert r1.tried == r2.tried;
  }

  /** So the cycle the program runs is the only one `Settles` allows. */
  lemma RefreshIsTheSettledCycle(b: Balancer, query: Query, r: Cycle)
    requires Settles(b, |b.nodes|, 0, query, r)
    ensures r == Refresh(b, query)
  {
    SettlesDetermines(b, |b.nodes|, 0, query, r, Refresh(b, query));
  }

  /** A cycle that no connection interrupts tries distinct positions of the
      list: never the same known node twice, however many trials fail.
      `InterruptedCycleRetries` shows an interrupted one can. */
  lemma TriedPositionsDistinct(b: Balancer, query: Query)
    requires |b.nodes| > 0
    ensures var r := Refresh(b, query);
            forall j, k :: 0 <= j < k < |r.tried| ==> Position(b, j) != Position(b, k)
  {
    var r := Refresh(b, query);
    forall j, k | 0 <= j < k < |r.tried|
      ensures Position(b, j) != Position(b, k)
    {
      Cyclic.WrapDistinct(b.n, j, k, |b.nodes|);
    }
  }

  /** The first trial that answers ends the cycle: after trials `0..k-1`
      failed and trial `k` answered, exactly `k + 1` trials were made and the
      list is the answer when it is non-empty. */
  lemma FirstAnswerDecides(b: Balancer, query: Query, k: nat)
    requires k < |b.nodes|
    requires forall j :: 0 <= j < k ==> !query(j, Slot(b, j)).Answered?
    requires query(k, Slot(b, k)).Answered?
    ensures var r := Refresh(b, query);
            && |r.tried| == k + 1
            && r.after.n == b.n + k + 1
            && r.after.nodes == Replace(b, ScanRows(query(k, Slot(b, k)).rows)).nodes
  {
    var r := Refresh(b, query);
    SettlesShape(b, |b.nodes|, 0, query, r);
    assert |r.tried| == k + 1;
    assert r.tried[k] == Slot(b, k);
  }

  /** When every trial of a cycle that no connection interrupts fails, each
      known node is tried exactly once, in stored order from the cursor, and
      only the cursor moves: by one lap. */
  lemma AllTrialsFail(b: Balancer, query: Query)
    requires |b.nodes| > 0
    requires forall j :: 0 <= j < |b.nodes| ==> !query(j, Slot(b, j)).Answered?
    ensures var r := Refresh(b, query);
            var s := b.n % |b.nodes|;
            && r.tried == b.nodes[s..] + b.nodes[..s]
            && r.after == b.(n := b.n + |b.nodes|)
  {
    var r, L, s := Refresh(b, query), |b.nodes|, b.n % |b.nodes|;
    SettlesShape(b, L, 0, query, r);
    assert |r.tried| == L;
    forall j | 0 <= j < L
      ensures r.tried[j] == (b.nodes[s..] + b.nodes[..s])[j]
    {
      SlotRotates(b, j);
    }
    assert r.tried == b.nodes[s..] + b.nodes[..s];
  }

  /** If the first node's query fails and the second node answers `[x, y]`,
      the cycle ends holding `[x, y]`. */
  lemma SecondNodeAnswers(b: Balancer, query: Query, x: Address, y: Address)
    requires |b.nodes| >= 2
    requires !query(0, Slot(b, 0)).Answered?
    requires query(1, Slot(b, 1)) == Answered([Scanned(x), Scanned(y)])
    ensures Refresh(b, query).after.nodes == [x, y]
  {
    FirstAnswerDecides(b, query, 1);
    ScanRowsAllScanned([Scanned(x), Scanned(y)]);
  }

  /** Bootstrapped with one node whose answer has no readable row, the
      balancer keeps that node and still routes to it. */
  lemma EmptyAnswerKeepsBootstrap(a: Address, query: Query)
    requires query(0, a).Answered?
    requires forall k :: 0 <= k < |query(0, a).rows| ==> query(0, a).rows[k] == ScanError
    ensures var r := Refresh(New([a]), query);
            r.after.nodes == [a] && ChooseNode(r.after).node == a
  {
    ScanRowsEmpty(query(0, a).rows);
    FirstAnswerDecides(New([a]), query, 0);
  }
}
