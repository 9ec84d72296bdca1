# A model of the multi-node Ethereum client

eth-proxy forwards queries to several Ethereum nodes through one `multiNodeClient`. The client keeps its nodes in a
slice, tries them in order until one answers, and swaps the node that answered one place forward. Many requests do
this at once: a call takes and releases a read lock for every position, so the slice may be reordered between two of
its reads, and the swap happens later, under the write lock and behind an id check. The client also serves a liveness
probe that compares block heights in list order and prints its findings as one string, which the health endpoint
splits back into a list.

This project models that client and proves what it keeps in every interleaving, what it does for a single caller, and
what the health verdict means.

| file | contents |
|---|---|
| `Replies.dfy` | Go results: a value together with an error that may be nil |
| `Order.dfy` | the node list, the guarded swap, prefix counts and inversions |
| `Failover.dfy` | the failover loop as a function, and the closed form of many calls in a row |
| `MultiNode.dfy` | the client as a class over an array, proved against those functions |
| `Machine.dfy` | any number of concurrent calls as a step relation, with its invariant |
| `Interleavings.dfy` | failover completeness and the conservation laws over whole runs |
| `Threshold.dfy` | exactly when a failover call can return an error although nodes answer |
| `Convergence.dfy` | what happens to the order when the same nodes keep answering |
| `Liveness.dfy` | deadlock freedom and termination |
| `Solo.dfy` | an undisturbed concurrent call does what the sequential loop does |
| `Reachable.dfy` | which orders the list can reach, and the health verdict over all of them |
| `Text.dfy` | decimal printing and scanning, splitting and joining |
| `Report.dfy` | the BlockNumber report: counting, drift, printing and parsing back |
| `Findings.dfy` | what the text of a report tells its reader, and what BlockNumber returns |
| `Api.dfy` | the health endpoint |
| `Probes.dfy` | BlockNumber calls among other calls |
| `Construct.dfy` | building the client from a comma-separated url list |

## How to read the model

- `BalanceAt`, `TransactionByHash`, `TransactionReceipt` and `SendTransaction` are the same loop. They are modelled once,
  with a generic reply type: `MultiNodeClient.Call` for one caller, calls of kind `Failover` in `Machine`.
- Nodes are an oracle. For one caller a request is a function from list entries to replies; in `Machine` each reply is
  part of the event that delivers it, so it is arbitrary, and a theorem that needs a node to answer says so.
- In `Machine` a call holds the read lock from `RLock` until its query returns (`Answer`). A reader is admitted
  whenever nobody is writing, so the safety theorems hold for every admission policy, Go's included. Deadlock freedom
  is proved for the strictest one (`StrictlyEnabled`), where any waiting writer keeps new readers out. An index out
  of range would put a call in the phase `Panicked`; the invariant says no call is ever there.
- All calls of a run are present from the start and take their first step whenever the run lets them, which covers
  calls arriving at any time.
- Heights are 64-bit: `uint64` is a bounded type, and the subtraction in `AbsDiff` is shown to stay inside it.

## Where the code and its comments differ

- The comment on `BlockNumber` promises an error whenever connected nodes differ by more than the limit. The code
  compares each answer only with the previous answer. For n collected replies the promise holds if and only if n is at
  most 2 (`HealthyMeansCloseIff`; heights 0, 3, 6 break it), and `SpreadBound` is what a healthy report guarantees of the
  replies. For the connected nodes the promise is kept in every run if and only if there is one node, or there are two
  and no failover call is around to swap them between the reads (`PromiseKeptIff`); what a healthy verdict guarantees of
  the nodes is `UndisturbedProbeBoundsDrift`. `HealthyInEveryOrderIff` says that checking every order would keep the
  promise, and `HealthyWhereverReachedIff` how much of it is checked in the orders that calls can leave behind.
- The comment on `item.id` says it is the position in the url string. It is the position among the urls that connected,
  which is the same if and only if every url before it connected (`IdIsUrlPositionIff`, `IdOfTheSecondUrl`).
- `Health` looks at the list of failures, not at the error. An error text without a bar gives 200 and an empty list.
  The exact condition is in the contract of `Api.Health`; a `multiNodeClient` never returns such an error.

## What concurrency costs

- A failover call can return an error although nodes answer it, because other calls swap them behind its cursor. With
  fixed health this is impossible if and only if an answering node is in front or the whole run has fewer other failover
  calls than nodes answer (`NeverReturnsErrorIff`). In a given run only the calls it meets count
  (`FewMeetingsMeanSuccess`). An error means that every node was asked, in every run, if and only if the list has one
  node or all other calls are probes (`ErrorMeansAllAskedIff`).
- A probe can read one node twice and miss another. It is sure to read every node if and only if the list has one node
  or no failover call is around (`AlwaysAsksAllIff`). In a given run it does so exactly when the swaps across its cursor
  balance (`FullScanAsksEveryNodeOnce`), and then the sequential bounds apply (`BalancedProbeIsSequential`).

## Model

| member | source | states |
|---|---|---|
| Machine.RunInv | proxy/eth_client.go:78-104 | in every interleaving every reachable order is a permutation of the constructed list with distinct ids, a writer excludes all other lock holders, and no cursor or pending promotion is out of range |
| Machine.SwapMovesTheWinner | proxy/eth_client.go:82-87 | the order changes only by a swap, and the swap moves forward by one exactly the node whose success that call saw |
| Interleavings.FailoverCompleteness | proxy/eth_client.go:91-104 | if all nodes of a set answer the call, it returns an error only after at least as many overtakes as that set has members in the list |
| Interleavings.PassedOverOnlyByOvertaking | proxy/eth_client.go:92-103 | at every point the answering nodes behind an unanswered call's cursor grew by no more than its overtakes |
| Interleavings.FewMeetingsMeanSuccess | proxy/eth_client.go:91-104 | a call returns no error if fewer other failover calls take a step before it returns than nodes of the list answer it |
| Interleavings.FewOthersMeansSuccess | proxy/eth_client.go:91-104 | on the state the call begins in: if fewer other failover calls have not returned, counting those that have yet to begin, than nodes answer the call, no interleaving makes it return an error |
| Threshold.OvertakingBoundIsTight | proxy/eth_client.go:91-104 | from every start state with a dead node in front and at least H other failover calls some run with fixed health overtakes the call exactly H times and it returns an error |
| Threshold.NeverReturnsErrorIff | proxy/eth_client.go:91-104 | with fixed health no interleaving makes the call return an error if and only if an answering node is in front or there are fewer other failover calls in the run than answering nodes |
| Threshold.ErrorMeansAllAskedIff | proxy/eth_client.go:91-104 | in every run in which the call returns an error it asked every node exactly once, if and only if the list has one node or all other calls are probes |
| Interleavings.ReadBalance | proxy/eth_client.go:92-97 | nodes asked plus nodes carried over the cursor equal nodes behind the cursor plus nodes carried back, as multisets, at every point of every run |
| Interleavings.FullScanAsksEveryNodeOnce | proxy/eth_client.go:92-103 | a call that walked the whole list unanswered, or a finished probe, asked every node exactly once if and only if the crossings balance |
| Interleavings.PositionConservation | proxy/eth_client.go:78-88 | for every node in every run: final position + promotions = initial position + demotions |
| Interleavings.FlowAcrossEdge | proxy/eth_client.go:78-88 | promotions minus demotions of a node across one boundary are fixed by the side it starts and ends on |
| Interleavings.StalePromotionsCollapse | proxy/eth_client.go:84-87 | of all the calls that saw a node succeed at one position at most one swaps, plus one for each demotion back to it |
| Interleavings.SubmissionConservation | proxy/eth_client.go:185-198 | accepted submissions equal the calls that returned nil; each call has at most one, and exactly one if and only if it returned nil |
| Convergence.ConvergesInEveryInterleaving | proxy/eth_client.go:78-104 | with fixed health the j-th answering node never moves back, inverted pairs drop by exactly the swaps over dead nodes, which are at most (n - H) * H in the whole run, and dead nodes keep their order |
| Convergence.FrontNodeServesAll | proxy/eth_client.go:91-104 | once an answering node is in front one stays in front, and every later call asks one node only and succeeds, in every interleaving |
| Convergence.OneWindow | proxy/eth_client.go:78-104 | in any stretch of a run in which a call begins and returns, the first answering node moves forward, or the number of calls that had got past it drops |
| Convergence.EnoughWindowsServeAll | proxy/eth_client.go:78-104 | with the first answering node at index k and at most w failover calls under way at every cut, after (k - 1)(w + 1) + 1 windows that each hold a whole call (k if nothing is under way at the cuts) every later call succeeds on its first query, in every interleaving |
| Convergence.FewerWindowsMayNotDo | proxy/eth_client.go:78-104 | with nothing under way at the cuts k windows are also needed: from every such state with k - 1 failover calls some k - 1 windows leave a dead node in front |
| Liveness.SomeCallCanMove | proxy/eth_client.go:78-143 | in every reachable state with an unfinished call some step is enabled, even with writers first |
| Liveness.EveryRunEndsWithAllCallsDone | proxy/eth_client.go:78-143 | a run has at most 2n + 3 steps a call, and it cannot be continued if and only if all calls are done |
| Liveness.AllCallsCanFinish | proxy/eth_client.go:78-143 | every reachable state has a continuation, allowed with writers first, in which all calls return |
| Liveness.WaitingWriterKeepsReadersOut | proxy/eth_client.go:78-88 | with writers first, while a call waits for the write lock no call starts a read: only queries in flight when it began to wait return, and every other call takes at most four steps, whatever the length of the list |
| Solo.EveryUndisturbedRunIsSequential | proxy/eth_client.go:91-104 | in every run in which only this call acts and it returns, it asked the nodes, returned the reply and left the order that the sequential functions give |
| Solo.SoloRunIsSequential | proxy/eth_client.go:91-104 | such a run exists and touches no other call |
| Reachable.ReachesIff | proxy/eth_client.go:78-104 | with m failover calls from a start state, the orders some run leaves the list in are exactly those at most m swaps of neighbours away |
| Reachable.HealthyWhereverReachedIff | proxy/eth_client.go:115-143 | polling the nodes is healthy in every order those m calls can leave behind if and only if all nodes answer and those at most m + 1 places apart are within the limit |
| MultiNode.MultiNodeClient.IncreaseNodePriority | proxy/eth_client.go:78-88 | the array becomes the guarded swap of the old one and keeps distinct ids |
| MultiNode.MultiNodeClient.Call | proxy/eth_client.go:149-198 | the loop returns the first answer or the last node's reply, queries exactly the prefix up to it, and reorders by at most that one swap |
| MultiNode.MultiNodeClient.BlockNumber | proxy/eth_client.go:118-143 | the loop returns the height of the first node if and only if every node answers and all neighbours are close, and otherwise 0 with a text that tells exactly which nodes failed with which error and which answers are too far apart, in list order |
| MultiNode.MultiNodeClient.constructor | proxy/eth_client.go:72-74 | the array holds the given items, non-empty with distinct ids |
| Failover.FirstAnswering | proxy/eth_client.go:92-102 | the index before which every node fails and at which, if inside the list, one answers |
| Failover.FailsOnlyWhenAllFail | proxy/eth_client.go:91-104 | a sequential call returns nil if and only if some node answers, and always returns what a node of the list said |
| Failover.ClosedForm | proxy/eth_client.go:78-104 | after j calls with the same health the first answering node has moved min(j, k) places forward and nothing else changed |
| Failover.IteratedSwapsMoveToFront | proxy/eth_client.go:78-104 | k or more calls amount to moving that node to the front |
| Failover.FailedQueriesExactly | proxy/eth_client.go:91-104 | the failed queries of j calls are k + (k - 1) + ..., min(j, k) terms |
| Failover.FailedQueriesBound | proxy/eth_client.go:91-104 | no number of calls makes more than k(k + 1)/2 failed queries, and k calls make exactly that many |
| Report.AbsDiff | proxy/eth_client.go:108-113 | the distance of two 64-bit heights, without wrap-around |
| Report.CountLaw | proxy/eth_client.go:119-138 | segments = failing nodes + consecutive answered heights more than the limit apart |
| Report.SegmentsBound | proxy/eth_client.go:119-138 | at most n segments, and at most n - 1 as soon as one node answers |
| Report.ReportIff | proxy/eth_client.go:121-142 | something is reported if and only if a node failed or two consecutive answers are too far apart; otherwise a first height exists |
| Report.SucceedsIff | proxy/eth_client.go:118-143 | the probe succeeds if and only if every node answers and all neighbours in the list are within the limit |
| Report.DriftBound | proxy/eth_client.go:106-143 | the replies at i and j of a healthy report differ by at most 3 * (j - i) |
| Report.SpreadBound | proxy/eth_client.go:106-143 | any two of the n replies of a healthy report differ by at most 3(n - 1) |
| Report.SpreadBoundIsTight | proxy/eth_client.go:106-143 | for every n that fits the width some healthy heights have a spread of exactly 3(n - 1) |
| Report.HealthyMeansCloseIff | proxy/eth_client.go:115-143 | a healthy report of n collected replies puts all pairs of them within the limit, whatever they are, if and only if n is at most 2 |
| Report.HealthyInEveryOrderIff | proxy/eth_client.go:115-143 | the verdict is healthy in every order of the nodes if and only if all answer and all pairs are within the limit |
| Report.ParsedBackIff | proxy/api.go:81-85 | splitting the printed report gives back the segments if and only if none contains a bar |
| Report.FailuresAreSegmentsIff | proxy/eth_client.go:127-134 | the listed failures are the reported segments, in order, if and only if no failing node's text contains a bar; they are never fewer (what a segment says is `Findings.ReportTells`) |
| Report.FailuresAreBars | proxy/api.go:82-84 | for any error text there are as many failures as bars, none holds a bar, and with the dropped rest they join back to the text |
| Findings.ReportTells | proxy/eth_client.go:119-138 | a reader who scans the segments for their numbers finds exactly the failing nodes, each with its position and error text, and the positions whose height is more than 3 from that of the last node that answered before, with both heights and labels, each once and in list order |
| Findings.TellsDetermines | proxy/eth_client.go:119-138 | two reports that tell all this of the same replies are read as the same findings in the same order |
| Findings.VerdictMeans | proxy/eth_client.go:139-142 | the verdict on n replies is the first height if and only if all answer and neighbours are close, and otherwise 0 with such a text |
| Api.Health | proxy/api.go:75-91 | the failures are the parts before the last bar; 503 if and only if there is an error whose text contains a bar, 200 if and only if the list is empty |
| Api.HealthOf | proxy/api.go:69-91 | over a multi-node client: 503 if and only if a node failed or two consecutive answers are too far apart, 200 if and only if the list is empty; if no failing node's text has a bar the list tells exactly what failed, and how many failures that makes |
| Probes.FinishedProbeHasAHeight | proxy/eth_client.go:118-143 | in every interleaving a finished probe made one read per position; if healthy it returns the height it read first, and otherwise 0 with a text that tells all about the replies |
| Probes.CloseMeansHealthyInEveryInterleaving | proxy/eth_client.go:118-143 | if all nodes answer within the limit of each other, a probe is healthy whatever the interleaving |
| Probes.BalancedProbeIsSequential | proxy/eth_client.go:118-143 | a probe with balanced crossings reports what BlockNumber reports on a permutation of the list, so a healthy verdict bounds the drift of all nodes |
| Probes.AlwaysAsksAllIff | proxy/eth_client.go:118-143 | the probe asks every node exactly once in every run if and only if the list has one node or no failover call is around |
| Probes.ProbeCanMissANode | proxy/eth_client.go:118-143 | from every start state with two nodes and a failover call some run makes the probe read the first node twice and never the second |
| Probes.HealthyProbeBoundsNothing | proxy/eth_client.go:118-143 | so, for any height of the second node, the probe can be healthy while the first reports 0 |
| Probes.PromiseKeptIff | proxy/eth_client.go:115-143 | in every run and for all heights a healthy probe means no two nodes are further apart than the limit, if and only if there is one node, or there are two and no failover call |
| Probes.UndisturbedProbeBoundsDrift | proxy/eth_client.go:118-143 | with one node or no failover calls a healthy verdict bounds the drift of all nodes by 3(n - 1) in every run |
| Construct.NewMultiNodeClient | proxy/eth_client.go:47-75 | a client if and only if some url connects, holding exactly the connecting urls in order, numbered from 0; otherwise a message that tells which urls failed and how, as `Construct.MessageTells` says |
| Construct.MessageTells | proxy/eth_client.go:65-70 | the message starts with its fixed text and shows every url that failed followed by the last error seen for it; a reader who splits it at the quotes finds exactly these pairs, each url once, if and only if none of them holds a quote |
| Construct.ConnectingIs | proxy/eth_client.go:51-64 | the indices that connect, in order, each once, and all of them |
| Construct.BuiltIdsDistinct | proxy/eth_client.go:60-63 | the ids given are pairwise distinct |
| Construct.IdIsUrlPositionIff | proxy/eth_client.go:41-64 | the id of the k-th node is its position in the url string if and only if every url before its own connected |
| Construct.IdOfTheSecondUrl | proxy/eth_client.go:41-64 | with "a,b", where only b connects, the node's id is 0 and its url position 1 |
| Construct.ConstructedClientStarts | proxy/eth_client.go:72-74 | a constructed client and calls that have not begun are a start state of the concurrent model |
| Construct.AlwaysTheConnectedNodes | proxy/eth_client.go:47-104 | in every run the list stays a permutation of the nodes that connected, with the ids they were given |
| Construct.MessageIndependentOfWalk | proxy/eth_client.go:65-70 | for every two orders of walking the error map the message has the same entries up to permutation, one for each distinct url |
| Text.DecimalIff | proxy/eth_client.go:61 | a text is the print of n if and only if it is non-empty, all digits, without a leading zero unless it is one digit, and has the value n |
| Text.DecimalInjective | proxy/eth_client.go:61 | different positions print as different ids |
| Text.PrintThenScan | proxy/eth_client.go:127-134 | numbers printed between literals, none of which starts with a digit after the first, are all read back, with the text behind them |
| Text.SplitThenJoin | proxy/eth_client.go:48 | splitting loses nothing, leaves no separator and makes one part more than there are separators |
| Text.JoinThenSplit | proxy/eth_client.go:48 | joining separator-free parts is undone by splitting |

## Left out

- Node RPC, contexts, timeouts and `ethclient.Dial`: a node is an oracle whose queries return.
- The other handlers of `proxy/api.go`, hex and transaction decoding, JSON encoding, and the service name and version
  in the health response: thin wrappers around libraries.
- `proxy/http.go`, `proxy/service.go`, `proxy/logger.go`, `proxy/config.go`, `client/`, `keys/`, `cmd/` and `internal/`:
  wiring, defaults, fixtures and scaffolding.
- Go's own RWMutex: the lock is its admission rule, not its counters. Fairness is not modelled; no theorem needs it.
- Panics inside a node query, and a `multiNodeClient` that was not built by its constructor.
- Which node the label `index-1` in a height report names: the heights compared are those of the last two nodes that
  answered, so the label is right only if the node just before answered too.
- The four failover methods under their own names: one generic method stands for the four identical loops.
