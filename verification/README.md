# roachbalancer routing state, in Dafny

A model of the routing core of roachbalancer, a TCP load balancer in front of
a CockroachDB cluster. The core is the `Balancer` state in
`balancer/roachbalancer.go`. It is a list of known node addresses plus a
round-robin cursor. Two things use it:

- the round-robin scheduler `ChooseNode`, called once per client connection;
- the discovery cycle `refreshLiveNodes`. It runs once when the balancer is
  created and then every 30 seconds. It asks known nodes in turn for the
  cluster's live members, and installs a non-empty answer.

In the program each method of the state holds the balancer's mutex while it
runs. Here each such method is therefore one atomic transition on an
immutable `Balancer` value. A discovery cycle is not one of them: it takes the
lock once per trial, inside `ChooseNode`, and once more to install the answer.
Client connections can therefore move the cursor between two trials of a
cycle. The model keeps this: a cycle carries an `Interference`, the number of
connections served before each of its trials.

Modules:

- `Registry` (`registry.dfy`): the state and its operations `New`,
  `ChooseNode`, `GetLiveNodes`, `GetNodeCount` and `Replace` (the guarded
  assignment at the end of a cycle). It also holds `ChooseMany`, which is
  `k` selections in a row, and the round-robin lemmas.
- `Discovery` (`discovery.dfy`): one discovery cycle. The SQL work is an
  oracle `Query` that takes the trial number and the dialed address. It
  returns `OpenFailed`, `QueryFailed` or `Answered(rows)`, and each row is
  `Scanned(addr)` or `ScanError`. `InterruptedTrials`/`InterruptedRefresh`
  is the cycle as the program runs it, with connections served between its
  trials, and `SettlesInterrupted` describes its outcome. `Trials`/`Refresh`
  is a cycle no connection interrupts, and `Settles` describes its outcome
  completely. `RefreshLiveNodes` is the program's loop, proved equal to
  `InterruptedRefresh`, and to `Refresh` when nothing interrupts it.
- `Lifecycle` (`lifecycle.dfy`): any interleaving of connections and
  discovery cycles, with the connections that fall inside a cycle carried by
  its `Interference`. Selecting from an empty list is the program's
  divide-by-zero panic.
- `Cyclic` (`cyclic.dfy`): arithmetic about the wrapped cursor. `Wrap(x, L)`
  is `x % L` (`WrapIsMod`). `Position(b, i)` is `Wrap(b.n + i, |b.nodes|)`,
  the index the cursor selects `i` selections from now. `Slot(b, i)` is the
  node at that index.

Two details of the cycle that the model follows:

- A row that fails to scan is skipped, and the other rows of the answer are
  kept (`balancer/roachbalancer.go:111-117`).
- A cycle makes up to `GetNodeCount()` trials, counted once at its start
  (`balancer/roachbalancer.go:84-86`).

## Model

| member | source | states |
|---|---|---|
| Registry.New | balancer/roachbalancer.go:30-37 | a new balancer holds exactly the bootstrap list, with the cursor at 0 |
| Registry.ChooseNode | balancer/roachbalancer.go:52-61 | needs a non-empty list; returns a member of the list, the one under the cursor; the cursor moves on by exactly one and the list is unchanged |
| Registry.ChooseNodeIndex | balancer/roachbalancer.go:57-60 | the index selected is the cursor modulo the list length |
| Registry.GetLiveNodes | balancer/roachbalancer.go:63-73 | the copy built element by element equals the stored list, and its length is the node count |
| Registry.GetNodeCount | balancer/roachbalancer.go:75-81 | the count is the list length, and it is zero exactly when the list is empty |
| Registry.Replace | balancer/roachbalancer.go:122-126 | a non-empty answer becomes the list; an empty answer changes nothing; the cursor is never reset; a non-empty list never becomes empty |
| Registry.ChooseMany | balancer/roachbalancer.go:53-61 | `k` selections in a row return, as selection `i`, the node at cursor-plus-`i` modulo the length, all members of the list; the cursor moves by `k`; the list is unchanged |
| Registry.RoundRobinLap | balancer/roachbalancer.go:57-60 | `L` selections over a list of length `L` return the list rotated to start at `n mod L`, in stored cyclic order |
| Registry.RoundRobinLapIsPermutation | balancer/roachbalancer.go:57-60 | one lap returns every stored entry exactly as often as it is stored |
| Registry.RoundRobinRepeats | balancer/roachbalancer.go:57-60 | the next `L` selections repeat the previous lap exactly |
| Registry.ChooseManySplit | balancer/roachbalancer.go:57-58 | `j` selections followed by `k` selections are the same as `j + k` selections |
| Registry.NewServesInOrder | balancer/roachbalancer.go:30-61 | a new balancer serves its bootstrap list once in the given order, then starts again at the head |
| Registry.ThreeNodesFourPicks | balancer/roachbalancer.go:53-61 | with bootstrap nodes `[A, B, C]`, four selections return `A, B, C, A` |
| Discovery.ScanRows | balancer/roachbalancer.go:110-117 | the result has no more entries than there are rows, and an address is in it exactly when some row scanned to it |
| Discovery.ScanRowsAppend | balancer/roachbalancer.go:111-117 | scanning a row stream in two parts gives the two results concatenated, so the row order is kept |
| Discovery.ScanRowsAllScanned | balancer/roachbalancer.go:111-117 | when every row scans, the result is the rows' addresses, position by position |
| Discovery.ScanRowsEmpty | balancer/roachbalancer.go:113-116 | the result is empty exactly when no row scanned |
| Discovery.ScanAll | balancer/roachbalancer.go:110-117 | the row loop computes `ScanRows` of the rows |
| Discovery.Trials | balancer/roachbalancer.go:86-129 | the trials from `i` to `c` settle: the trial addresses follow the cursor, every trial but the last failed, and an answer ends the cycle and is installed when non-empty |
| Discovery.InterruptedTrialsSettle | balancer/roachbalancer.go:86-129 | the trials from `i` to `c`, each preceded by the connections served before it, settle: trial `j` dials the node the cursor points at after `j` earlier trials and every connection so far, every trial but the last failed, an answer ends the cycle and is installed when non-empty, and the cursor ends moved by the trials plus the connections |
| Discovery.InterruptedRefresh | balancer/roachbalancer.go:83-130 | a cycle as the program runs it, with connections between its trials: at most `c` trials, where `c` is the count at entry; only known nodes are dialed; it stops at the first answer; a cycle over an empty list makes no trial and changes nothing; a non-empty list stays non-empty; the cursor never goes back |
| Discovery.UninterruptedCycle | balancer/roachbalancer.go:84-88 | when no connection is served during a cycle, the program's cycle is the one `Refresh` describes |
| Discovery.InterruptedCycleRetries | balancer/roachbalancer.go:86-107 | over nodes `[x, y]` with every trial failing, one connection served between the two trials makes the cycle dial `x` twice and never `y` |
| Discovery.Refresh | balancer/roachbalancer.go:83-130 | a cycle that no connection interrupts makes at most `c` trials, where `c` is the count at entry; each trial advances the cursor by one; the cycle stops at the first answer; a cycle over an empty list makes no trial and changes nothing; a non-empty list stays non-empty |
| Discovery.RefreshLiveNodes | balancer/roachbalancer.go:83-130 | the program's loop, with its `continue` on failure and `break` after an answer and with connections served before each selection, produces the cycle `InterruptedRefresh` describes, and the one `Refresh` describes when no connection is served |
| Discovery.SettlesDetermines | balancer/roachbalancer.go:84-129 | `Settles` admits exactly one outcome per state and oracle |
| Discovery.RefreshIsTheSettledCycle | balancer/roachbalancer.go:83-130 | any cycle that meets `Settles` is the one `Refresh` computes |
| Discovery.TriedPositionsDistinct | balancer/roachbalancer.go:84-88 | the trials of a cycle that no connection interrupts use pairwise distinct positions of the list |
| Discovery.FirstAnswerDecides | balancer/roachbalancer.go:104-128 | in a cycle that no connection interrupts, if trials `0..k-1` fail and trial `k` answers, exactly `k + 1` trials are made, the cursor moves by `k + 1`, and the list becomes the scanned answer when that is non-empty and stays unchanged otherwise |
| Discovery.AllTrialsFail | balancer/roachbalancer.go:86-107 | in a cycle that no connection interrupts, if every trial fails, each known node is tried once in stored cyclic order from the cursor, and the only change is a cursor move of one lap |
| Discovery.SecondNodeAnswers | balancer/roachbalancer.go:86-128 | in a cycle that no connection interrupts, if the first trial fails and the second answers `[x, y]`, the cycle ends holding `[x, y]` |
| Discovery.EmptyAnswerKeepsBootstrap | balancer/roachbalancer.go:122-126 | in a cycle that no connection interrupts, bootstrap `[A]` with an answer that has no readable row keeps `[A]`, and the next selection is still `A` |
| Lifecycle.Step | balancer/roachbalancer.go:83-134 | a connection panics exactly when the list is empty; otherwise it moves the cursor by one and keeps the list; a discovery cycle, with whatever connections fall between its trials, never empties a non-empty list and does nothing to an empty one; the cursor never goes back |
| Lifecycle.Run | balancer/roachbalancer.go:39-47 | a run of no events leaves the state as it was, and a run that has not panicked never moved the cursor back |
| Lifecycle.RunSplit | balancer/roachbalancer.go:156-170 | a run over two sequences of events is the run over the first followed by the run over the second from where the first stopped, and nothing runs after a panic |
| Lifecycle.PanicIsFinal | balancer/roachbalancer.go:52-58 | once a run has panicked, no further event brings it back |
| Lifecycle.NonEmptyNeverPanics | balancer/roachbalancer.go:122-126 | from a non-empty list, every interleaving of connections and discovery cycles, including connections between the trials of a cycle, keeps the list non-empty, never panics, and never moves the cursor back |
| Lifecycle.EmptyNeverHeals | balancer/roachbalancer.go:84-88 | from an empty list, discovery never fills the list; the run panics exactly when a connection arrives, and until then the state is unchanged |

## Left out

- The TCP listener, the accept loop, dialing and the two copy goroutines per session (`balancer/roachbalancer.go:132-183`). These are network I/O and concurrency. `Lifecycle.Step` keeps only the `ChooseNode` call that each accepted connection makes. A dial failure at lines 163-167 does not close the accepted client connection. The model does not cover that either.
- `sync.RWMutex` itself: every locked method is one atomic step, and a discovery cycle is a sequence of them with connections in between. The 30-second ticker is left out: `Lifecycle.Run` takes any order of connections and cycles instead of a timed schedule.
- `sql.Open`, `db.Query`, the SQL text, the connection string and the deferred `Close` calls. These are foreign calls; the `Query` oracle replaces them.
- Logging, `log.Fatalf` on a bind failure, `GetAddr`, `WaitReady` and the `ok` channel.
- Registry.ChooseNode: does not model the wrap-around of the Go `uint` cursor at 2^64, because the cursor is an unbounded `nat` here. The same holds for `ChooseMany` and the round-robin lemmas: after a wrap, the Go program would jump to position `0` early whenever the list length does not divide 2^64.
- `main.go` (flag parsing, process start) and `example/main.go` (a demo client).
