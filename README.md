# proxypool health-check pool, modelled in Dafny

This project models `pool/pool.go` of proxypool. The pool keeps one node per
upstream proxy endpoint. Each node runs a probe loop. The loop dials the
endpoint, asks a checker to validate the connection, and keeps statistics:
probes issued, successes, the current failure streak, the last round-trip
time, a usability percentage, and the time of the last probe. It pauses
between rounds with a backoff. A node also hands out traffic connections
and counts the ones still open. A registry (`proxyManager`) holds the nodes
under keys. Beside the map it keeps its own entry counter. It prunes nodes
whose failure streak is too long, and it produces a ranked snapshot
through the standard `Len`/`Swap`/`Less` sort interface.

The model is split into five modules:

- `Probing` (probing.dfy): the statistics as a value (`Stats`), one probe
  round as a function (`Step`), a run of rounds (`Run`), and the invariant
  every round keeps (`WellFormed`).
- `Backoff` (backoff.dfy): the pause between rounds, as written and as
  evidently intended (see Findings).
- `Metrics` (metrics.dfy): `Get`, `Compare` and `before` on statistics. The
  metric names are a closed enumeration plus `Unknown`.
- `Node` (node.dfy): the `proxyNode` class. Its fields are updated in place
  by `Close`, by the probe loop `StartCheck` (whose body is `ProbeRound`) and
  by `Dial`. It also holds the `proxyConn` wrapper and `NewProxyNode`.
- `Registry` (registry.dfy): the `proxyManager` class.
  - Its `sync.Map` is a Dafny `map` from `Key` to node.
  - Beside the map it keeps a uint64 `length` counter, the `idx` key counter, the busy `flags` word and the `lists` buffer.
  - Its operations are `Store`, `Delete`, `Load`, `LoadOrStore`, `Add`, `IsExist`, `CloseBad`, `GetSortList`, `Len`, `Swap` and `Less`.

Conventions:
- Every atomic field is a plain field. A compare-and-swap is "test the field, then set it".
- `uint64` counters wrap modulo 2^64. `Len()` reads the counter as a signed 64-bit value.
- The probe goroutine is a sequential loop over a finite sequence of `Tick`s. There is one Tick per evaluation of the loop guard. Each Tick says:
  - whether a `Close()` arrived;
  - what the checker's `IsExit()` answered;
  - how that round's dial and validation turned out, and the clock reading.
  If the ticks run out first, the loop is still running and `flags` stays 1.
- The dialer, the checker, the clock and the sort algorithm are inputs:
  - a dial outcome, or an optional error for `Dial`;
  - the ticks;
  - a sequence of swaps for the sort.
- `Range` visits the keys in an unspecified order. Each visit picks any key not yet visited.

Where the intended behaviour and the code differ, the model follows the code, with two exceptions listed under Findings:
- `Node.ProxyNode.ProbeRound` pauses for the corrected backoff `Backoff.Slow`. The code's constant 3 seconds is `Backoff.SlowAsWritten`.
- `Registry.ProxyManager.GetSortList` sorts over the number of nodes it collected. The code's sort over `Len()` is `Registry.ProxyManager.GetSortListAsWritten`.

Everywhere else the model follows the code, including these behaviours:
- A wrapped connection decrements its node's in-use count on every `Close`; nothing stops a second `Close` from decrementing again (`Node.CloseTwice`).
- The registry's entry counter moves on every `Store` and `Delete`, even when the map did not gain or lose an entry.
- `LoadOrStore` does not move the counter at all.

## Model

| member | source | states |
|---|---|---|
| Probing.Percent | pool/pool.go:115-118 | the usability percentage lies in [0,100]; it is 100 exactly when every probe succeeded and 0 exactly when fewer than one probe in a hundred did |
| Probing.Step | pool/pool.go:91-121 | one round counts one more probe and keeps the statistics well formed: okcnt <= total, the failure streak never exceeds the failed probes, and usability is the success percentage. An accepted connection adds a success, ends the streak and records the round-trip in milliseconds. A dial error or rejection extends the streak and keeps okcnt and timeout. last becomes the round's start time. The in-use count is untouched |
| Probing.Run | pool/pool.go:85-125 | any number of rounds keeps the statistics well formed, adds one probe per round and leaves the in-use count alone |
| Probing.RunCounts | pool/pool.go:91-112 | over any run of rounds, okcnt grows by the number of accepted probes. failcnt is the number of failures after the last success, or the old streak plus every round when none succeeded |
| Probing.AllDialErrors | pool/pool.go:107-118 | a fresh node whose dialer always fails has, after N rounds, N probes, no success, a streak of N and usability 0 |
| Probing.FirstRoundAccepted | pool/pool.go:93-118 | a fresh node whose first probe is accepted is fully usable (100) with a non-negative round-trip |
| Backoff.SlowAsWritten | pool/pool.go:192-200 | `slow` as written returns 3 seconds for every ratio, because the factor 5 / 3 is the integer 1 |
| Backoff.Slow | pool/pool.go:192-200 | the intended `slow`: its loop multiplies 3 by an exact 5/3 once per ratio step and truncates to whole seconds (Escalated) |
| Backoff.EscalatedBase | pool/pool.go:193 | the intended pause starts at 3 seconds |
| Backoff.EscalatedGrows | pool/pool.go:195-197 | each further step lengthens the intended pause by at least 2 seconds |
| Backoff.EscalatedMonotone | pool/pool.go:124 | a longer failure streak never waits less: the pause grows by at least 2 seconds per step of the ratio |
| Metrics.ParseMetric | pool/pool.go:131-146 | a name that selects a metric is exactly that metric's name; every other name is Unknown |
| Metrics.ParseNameOf | pool/pool.go:131-146 | each recognised metric name selects its own metric |
| Metrics.Get | pool/pool.go:150-168 | an unknown name reads 0. On a well-formed node, okcnt and failcnt lie in [0,total] and usability in [0,100] |
| Metrics.Compare | pool/pool.go:130-148 | a win needs a recognised metric and two different values |
| Metrics.CompareByDirection | pool/pool.go:130-148 | Compare(x, m) holds iff this node is strictly better on m: larger wins on total, okcnt, usability and last; smaller wins on failcnt, timeout and count; an unknown name never wins |
| Metrics.CompareIsStrictOrder | pool/pool.go:130-148 | for every metric, Compare is irreflexive, asymmetric and transitive |
| Metrics.Before | pool/pool.go:202-205 | `before` holds iff the node wins on both usability and last |
| Metrics.BeforeIsStrictPartialOrder | pool/pool.go:202-205 | `before` is irreflexive, asymmetric and transitive |
| Metrics.BeforeIsNotStrictWeak | pool/pool.go:202-205 | `before` is not a strict weak order, even among well-formed statistics: two incomparable pairs can chain into a comparable one, so a sort driven by it guarantees no order |
| Metrics.DominantNodeRanksFirst | pool/pool.go:202-205 | a node with usability 80 probed later ranks ahead of one with usability 50, and not the other way round |
| Node.QuietPrefix | pool/pool.go:85 | the loop runs exactly the rounds before the first guard evaluation that sees a close request or the checker's exit |
| Node.ProxyNode.constructor | pool/pool.go:306-308 | a new node has every statistic and both flags at zero, and is well formed |
| Node.ProxyNode.Close | pool/pool.go:72-74 | exit goes from 0 to 1 and stays 1 once set; nothing else changes |
| Node.ProxyNode.ProbeRound | pool/pool.go:87-124 | the fields change exactly as Step says and stay well formed; the flags are untouched; the pause is the backoff for a third of the new failure streak |
| Node.ProxyNode.StartCheck | pool/pool.go:76-128 | only a call that finds flags at 0 starts the loop; any other call changes nothing. A started loop runs the quiet rounds and leaves the statistics at Run over their probes. It stops at the first close request, checker exit or set exit flag, and then clears flags. exit is set only by a close request |
| Node.ProxyNode.Dial | pool/pool.go:170-177 | a successful dial raises count by exactly one and returns a fresh wrapper bound to this node. A failed dial returns the same error, no wrapper, and leaves count alone |
| Node.NewProxyNode | pool/pool.go:304-311 | with a dialer the result is a fresh, well-formed node with zero statistics and clear flags; without one it is nil |
| Node.ProxyConn.constructor | pool/pool.go:173 | the wrapper is bound to the node that dialed it |
| Node.ProxyConn.Close | pool/pool.go:45-50 | a wrapper bound to a node lowers that node's count by one and changes none of its other fields; a wrapper without a node changes nothing |
| Node.CloseTwice | pool/pool.go:45-50 | closing one wrapper twice lowers the count twice |
| Registry.Threshold | pool/pool.go:247-249 | the threshold is t raised to at least 3 |
| Registry.DecIsWrapped | pool/pool.go:234 | adding the all-ones word to a uint64 counter subtracts one modulo 2^64 |
| Registry.DecByIsWrapped | pool/pool.go:233-237 | n deletions lower the counter by n modulo 2^64 |
| Registry.DecByInRange | pool/pool.go:233-237 | n deletions from a counter of at least n lower it by exactly n |
| Registry.SweepDone | pool/pool.go:250-260 | once every key is visited, exactly the bad keys are gone, the counter went down once per bad key, and a counter that matched the map still does |
| Registry.ProxyManager.constructor | pool/pool.go:300-302 | a new registry is empty with every counter at zero, and its counter matches the map |
| Registry.ProxyManager.Load | pool/pool.go:14 | Load finds a node exactly when the key is present, and then it is the stored node |
| Registry.ProxyManager.IsExist | pool/pool.go:239-244 | IsExist holds exactly when the key is present |
| Registry.ProxyManager.Store | pool/pool.go:227-231 | the key maps to the new node and the counter rises by one modulo 2^64 even when the key was present. The counter stays consistent when the key is new |
| Registry.ProxyManager.Delete | pool/pool.go:233-237 | the key is gone and the counter drops by one modulo 2^64 even when the key was absent. The counter stays consistent when the key was present |
| Registry.ProxyManager.LoadOrStore | pool/pool.go:15 | returns the stored node if the key is present, else stores the given one; the counter does not move |
| Registry.ProxyManager.Add | pool/pool.go:219-225 | the key handed out is the old idx and idx advances modulo 2^64. The node is stored under that key. While idx has not wrapped and every index key came from Add, the key is new and the counter stays consistent |
| Registry.ProxyManager.Len | pool/pool.go:288-290 | Len is the counter read as a signed 64-bit value; it equals the number of entries while the counter is consistent |
| Registry.ProxyManager.CloseBad | pool/pool.go:246-261 | exactly the keys whose node has more than max(t,3) consecutive failures are removed, and their nodes get exit 1. Every other node keeps its entry and its exit flag. The counter drops once per removal. A consistent counter stays consistent |
| Registry.ProxyManager.Visit | pool/pool.go:250-260 | one visit of the pruning callback removes and closes the key's node iff its failure streak is above the threshold, and keeps the sweep's bookkeeping |
| Registry.ProxyManager.Evict | pool/pool.go:254-256 | closing the node of a bad key and deleting the key extends the sweep by that key |
| Registry.CloseNode | pool/pool.go:254 | closing a bad key's node marks it closed without touching the other nodes |
| Registry.ProxyManager.Swap | pool/pool.go:292-294 | the two entries trade places; the buffer stays a permutation of itself |
| Registry.ProxyManager.Less | pool/pool.go:296-298 | Less(i, j) is exactly `before` on the two buffered nodes, so no node ranks ahead of itself and Less never holds both ways |
| Registry.ProxyManager.GetSortList | pool/pool.go:263-286 | while a ranking is in progress it returns nothing and changes nothing. Otherwise the result holds each registered node exactly once, as a permutation of an enumeration of the keys. flags returns to 0, the buffer is cleared, and map and counters are unchanged |
| Registry.ProxyManager.Collect | pool/pool.go:271-276 | the Range pass appends each registered node exactly once, in the order of an enumeration of the keys, and changes nothing else |
| Registry.ProxyManager.InsertionSort | pool/pool.go:278 | sort.Sort over [0, n) as Go's insertion sort runs it keeps the buffer a permutation of itself. It reads past the buffer iff n >= 2 and n exceeds the buffer's length, and then first at the buffer's length (1 for an empty buffer) |
| Registry.ProxyManager.GetSortListAsWritten | pool/pool.go:263-286 | while a ranking is in progress it returns nil and changes nothing. A negative Len() makes `make` panic. A Len() of at least 2 above the number of nodes makes Less read past the buffer. After either panic the buffer is empty and flags stays 1. Otherwise the result is a permutation of an enumeration of the registered nodes, and flags returns to 0 |
| Registry.StoreTwiceDriftsLen | pool/pool.go:227-231 | storing twice under one key leaves one entry but Len() == 2; the ranking as written then reads index 1 of the one-entry buffer and panics, leaving flags at 1 |
| Registry.DeleteAbsentMakesLenNegative | pool/pool.go:233-237 | deleting from an empty registry leaves no entry and Len() == -1; the ranking as written then asks `make` for capacity -1 and panics, leaving flags at 1 |
| Registry.PruneExample | pool/pool.go:246-261 | pruning with threshold 5 closes and removes a node with 10 consecutive failures and keeps an open node with 2 |

## Left out

- Goroutines, `time.Sleep`, `time.Now` and the memory ordering of the atomics. The loop is sequential. The clock and the pause are values.
- Probing.Step: usability is the exact integer percentage `okcnt*100/total`, not the float64 computation at pool/pool.go:117. The float64 product can land one below it (29 of 100 gives 28), so only the [0,100] bound carries over to the source exactly.
- Integer widths of the statistics. The int64 counters are unbounded here, and their overflow after 2^63 probes is not modelled.
- Node.ProxyNode.ProbeRound: the pause is the intended escalating backoff (Backoff.Slow), not the constant 3 seconds the code computes (see Findings).
- Node.ProxyNode.StartCheck: finitely many guard evaluations are modelled. A loop still running when the ticks run out is reported as running.
- The checker's `GetAddress` is not modelled: the address is not observable in the statistics.
- The checker's `ShowError` logging is left out, as is the closing of the probe connection.
- Node.ProxyNode.Dial: the network and address arguments and the returned connection object are left out. The dial result is an optional error.
- Node.ProxyConn.Close: the error returned by closing the underlying connection is left out.
- `String()` (pool/pool.go:179-190) is left out; it is only formatted output.
- The registry accepts any value. `CloseBad` and `GetSortList` skip values that are not nodes. The model's map holds only nodes, so that skipping, and a nil node, are not modelled.
- Registry.ProxyManager.GetSortList: `sort.Sort`'s algorithm is an input sequence of swaps, so no order of the result is claimed (`before` is not a strict weak order anyway).
- Registry.ProxyManager.GetSortList: this corrected ranking sorts over the buffer's length rather than `Len()`, and does not model the capacity hint `Len()` passed to `make`. The code's behaviour is `GetSortListAsWritten` (see Findings).
- Registry.ProxyManager.InsertionSort: this is the sequence of comparisons Go's `sort.Sort` makes on short ranges. Go uses plain insertion sort for up to 12 elements since Go 1.19, and for up to 6 before. On longer ranges the library's comparisons come in a different order, and that order is not modelled.
- Registry.ProxyManager.GetSortListAsWritten: `make` also panics on a capacity too large to allocate; that is not modelled.
- Registry.ProxyManager.GetSortList: concurrent calls are reduced to the busy flag being set or clear on entry.
- Interleavings of `Range` with concurrent `Store`/`Delete` from other goroutines.
- main.go is not part of this model.

## Findings

| source | as written | input that shows it | evidently intended | confidence | as-written member | corrected member |
|---|---|---|---|---|---|---|
| pool/pool.go:196 | `result *= 5 / 3` multiplies by the untyped integer constant 1, so `slow(r)` is 3 for every r and the pause never grows with the failure streak | any failure streak, e.g. failcnt 30 (ratio 10) still sleeps 3 seconds | the pause escalates by a factor of 5/3 per ratio step | high (not executed) | Backoff.SlowAsWritten | Backoff.Slow |
| pool/pool.go:269-278 | `make(.., 0, this.Len())` and `sort.Sort(this)` use the registry's `length` counter, which Store raises and Delete lowers whether or not an entry was added or removed | Store twice under one key (`Registry.StoreTwiceDriftsLen`): Len() is 2 over a one-entry buffer, and the sort's first `Less(1, 0)` indexes past it. Delete of an absent key in an empty registry (`Registry.DeleteAbsentMakesLenNegative`): Len() is -1 and `make` panics | the sort and the buffer size follow the number of collected nodes | high (not executed) | Registry.ProxyManager.GetSortListAsWritten | Registry.ProxyManager.GetSortList |
