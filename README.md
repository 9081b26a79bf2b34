# Weighted round-robin TCP balancer, modelled in Dafny

This project models the weighted round-robin balancer for TCP services in
`pkg/tcp/wrr_load_balancer.go`. A balancer holds an ordered pool of servers,
each a handler with an integer weight. It forwards every connection to the
server that its selection routine `next` chooses. `next` keeps two fields
between calls, the last visited `index` and the `currentWeight`. It walks the
pool cyclically. At each wrap to the first server it lowers the current weight
by the gcd of all weights, and resets it to the maximum weight once it is no
longer positive. It stops at the first server whose weight reaches the current
weight. The balancer also keeps an up/down flag per named child. When a known
child's flag flips, it calls its registered status updaters.

The modules:

- `Weights` (weights.dfy): Go's remainder, Euclid's `gcd`, and the pool's
  maximum and gcd with the sentinel -1 that `maxWeight` and `weightGcd` start
  from. Lemmas show that the gcd divides every weight, is the greatest such
  divisor, and that maximum and gcd scale with the weights.
- `Rotation` (rotation.dfy): one call of `next` as a function `Next` of the
  weights and the cursor (`index`, `currentWeight`). It covers the two errors,
  the loop as `Scan`, its bound of one lap, and its commuting with scaling.
- `Schedule` (schedule.dfy): successive calls on a fixed pool.
  - A pass at current weight `v` chooses, in pool order, the servers whose
    weight reaches `v`.
  - A weight cycle is the passes at the maximum, the maximum minus g, and so
    on down to g. It repeats forever from a new balancer.
  - Within one cycle each server is chosen weight/g times.
  - Scaling every weight leaves the choices unchanged.
- `Status` (status.dfy): `SetStatus` on values. It covers the stored flag,
  when the updaters run and which calls they receive, and how a run of reports
  counts propagations.
- `Balancer` (balancer.dfy): the balancer object as a class whose fields are
  the Go struct's fields. The operations update them in place, and each is
  proved against the functions above. The calls made to updaters are kept in
  a ghost `notified` field, as `Notification(updater, up)` records.

## Model

| member | source | states |
|---|---|---|
| Weights.GoRem | pkg/tcp/wrr_load_balancer.go:94 | Go's `a % b`: smaller in magnitude than `b`, non-negative for a non-negative dividend, and equal to the mathematical remainder when both operands are non-negative |
| Weights.EuclidGcd | pkg/tcp/wrr_load_balancer.go:92-97 | Euclid's loop as a recursive function; non-negative on non-negative inputs |
| Weights.Gcd | pkg/tcp/wrr_load_balancer.go:92-97 | the `gcd` loop returns Euclid's result; on non-negative inputs that result is non-negative and divides both |
| Weights.GcdDividesBoth | pkg/tcp/wrr_load_balancer.go:92-97 | the result of `gcd` divides both of its non-negative arguments |
| Weights.GcdGreatest | pkg/tcp/wrr_load_balancer.go:92-97 | every positive common divisor of the arguments divides the result of `gcd` |
| Weights.GcdScale | pkg/tcp/wrr_load_balancer.go:92-97 | `gcd(f*a, f*b) == f*gcd(a, b)` for `f > 0` |
| Weights.MaxOf | pkg/tcp/wrr_load_balancer.go:70-78 | `maxWeight` is at least -1, bounds every weight, and is -1 or one of the weights |
| Weights.MaxOfNonNegative | pkg/tcp/wrr_load_balancer.go:70-78 | on a non-empty pool of non-negative weights `maxWeight` is one of the weights, never the sentinel |
| Weights.MaxOfAppend | pkg/tcp/wrr_load_balancer.go:67 | appending a server raises the maximum to its weight if it is heavier, otherwise keeps it |
| Weights.GcdOf | pkg/tcp/wrr_load_balancer.go:80-90 | the `weightGcd` fold from the sentinel -1; what it means is proved in `GcdOfDividesAll`, `GcdOfGreatest` and `GcdOfPositive` |
| Weights.GcdOfDividesAll | pkg/tcp/wrr_load_balancer.go:80-90 | on a non-empty pool of non-negative weights `weightGcd` is non-negative and divides every weight |
| Weights.GcdOfGreatest | pkg/tcp/wrr_load_balancer.go:80-90 | every positive common divisor of all weights divides `weightGcd` |
| Weights.GcdOfPositive | pkg/tcp/wrr_load_balancer.go:80-90 | with some positive weight, `weightGcd` is positive and divides `maxWeight` |
| Weights.MaxOfScale | pkg/tcp/wrr_load_balancer.go:70-78 | scaling every weight by `f > 0` scales `maxWeight` by `f` |
| Weights.GcdOfScale | pkg/tcp/wrr_load_balancer.go:80-90 | scaling every weight by `f > 0` scales `weightGcd` by `f` |
| Rotation.Lowered | pkg/tcp/wrr_load_balancer.go:120-123 | the weight after a wrap is the old one minus the gcd, or the maximum; it is non-positive only when the maximum is |
| Rotation.Succ | pkg/tcp/wrr_load_balancer.go:118 | the next index, wrapping to 0 after the last; `SuccIsModular` proves it is Go's `(index + 1) % len(servers)` |
| Rotation.SuccIsModular | pkg/tcp/wrr_load_balancer.go:118 | the cyclic successor of an index is `(index + 1) % len(servers)` |
| Rotation.Advance | pkg/tcp/wrr_load_balancer.go:118-124 | one loop iteration lands on a valid index; it is 0 exactly after the last index or the initial -1; away from 0 the weight is unchanged |
| Rotation.Step | pkg/tcp/wrr_load_balancer.go:117-124 | one iteration on a selectable pool keeps the cursor in range with a weight between 1 and the maximum |
| Rotation.StepInPlace | pkg/tcp/wrr_load_balancer.go:118-124 | one iteration in the loop body's own terms: the index moves to `(index + 1) % n`, and only on reaching 0 the weight drops by the gcd, back to the maximum once it is not positive |
| Rotation.Hit | pkg/tcp/wrr_load_balancer.go:126 | the loop's exit test, `srv.weight >= currentWeight`; `Scan` ends on it and `ScanIsFirstHit` shows it ends on the first one |
| Rotation.Scan | pkg/tcp/wrr_load_balancer.go:117-129 | the loop terminates, at a server whose weight reaches the current weight, with a consistent cursor |
| Rotation.ScanStep | pkg/tcp/wrr_load_balancer.go:117-129 | an iteration either stops the loop or leaves the same result ahead with strictly fewer iterations to go |
| Rotation.Probes | pkg/tcp/wrr_load_balancer.go:117-129 | the loop runs at least once and at most `len(servers)` times |
| Rotation.ScanIsFirstHit | pkg/tcp/wrr_load_balancer.go:117-129 | the loop stops at the first iteration that hits, within `len(servers)` iterations |
| Rotation.Next | pkg/tcp/wrr_load_balancer.go:99-130 | "no servers" exactly on an empty pool, "all servers have 0 weight" exactly when the maximum is 0; otherwise the chosen index is valid, `0 < currentWeight <= max`, and the chosen weight reaches `currentWeight` |
| Rotation.NeverChoosesZeroWeight | pkg/tcp/wrr_load_balancer.go:126 | a server of weight 0 is never chosen |
| Rotation.SolePositiveIsChosen | pkg/tcp/wrr_load_balancer.go:117-129 | when only one server has a positive weight, it is chosen |
| Rotation.StepScale | pkg/tcp/wrr_load_balancer.go:117-124 | one iteration commutes with scaling all weights and the current weight |
| Rotation.ScanScale | pkg/tcp/wrr_load_balancer.go:117-129 | the loop commutes with scaling all weights and the current weight |
| Schedule.Picks | pkg/tcp/wrr_load_balancer.go:99-130 | `k` successive calls on a fixed pool make `k` choices, each the index `Rotation.Next` moves to |
| Schedule.PicksChooseWeighted | pkg/tcp/wrr_load_balancer.go:117-129 | every one of those choices is a valid server of positive weight |
| Schedule.After | pkg/tcp/wrr_load_balancer.go:99-130 | the rotation fields stay consistent over any number of calls |
| Schedule.Levels | pkg/tcp/wrr_load_balancer.go:115-122 | the maximum is a positive multiple `k*g` of the gcd, so a weight cycle has `k >= 1` passes |
| Schedule.PicksAppend | pkg/tcp/wrr_load_balancer.go:99-130 | `a + b` calls choose the first `a` calls' servers followed by the next `b` calls' servers |
| Schedule.PassMember | pkg/tcp/wrr_load_balancer.go:126 | a server is in the pass at weight `v` exactly when its weight reaches `v` |
| Schedule.ScanInPass | pkg/tcp/wrr_load_balancer.go:117-129 | within a pass the loop stops at the next server of the pass |
| Schedule.ScanSkipsRest | pkg/tcp/wrr_load_balancer.go:117-129 | past the last server of a pass the loop runs on to the wrap |
| Schedule.ScanAfterWrap | pkg/tcp/wrr_load_balancer.go:119-129 | after the wrap the loop stops at the first server reaching the lowered weight |
| Schedule.PassChoices | pkg/tcp/wrr_load_balancer.go:117-129 | the calls within a pass choose exactly the servers of the pass, in pool order |
| Schedule.PassStops | pkg/tcp/wrr_load_balancer.go:117-129 | those calls leave the cursor at the last server of the pass, at the same weight |
| Schedule.PassPicks | pkg/tcp/wrr_load_balancer.go:99-130 | the calls within a pass choose exactly the servers of the pass, in order |
| Schedule.PassStarts | pkg/tcp/wrr_load_balancer.go:117-129 | at the end of a pass the next call wraps and chooses the first server of the next pass |
| Schedule.WholePass | pkg/tcp/wrr_load_balancer.go:99-130 | from the end of a pass the next calls choose the whole next pass and stop at its end |
| Schedule.CyclePicks | pkg/tcp/wrr_load_balancer.go:99-130 | from the end of a pass whose next level is `k*g`, the calls choose the passes at `k*g` down to `g` and end at weight `g` |
| Schedule.CycleRepeats | pkg/tcp/wrr_load_balancer.go:119-123 | from a reset cursor the calls choose one full weight cycle and reach a reset cursor again |
| Schedule.FreshAtReset | pkg/tcp/wrr_load_balancer.go:31-35 | a new balancer (index -1, weight 0) starts at a reset |
| Schedule.CyclesRepeat | pkg/tcp/wrr_load_balancer.go:99-130 | from a reset, `j` cycles' worth of calls choose the cycle `j` times over |
| Schedule.PassCount | pkg/tcp/wrr_load_balancer.go:126 | a pass chooses each server reaching its weight once and no other |
| Schedule.CycleCount | pkg/tcp/wrr_load_balancer.go:117-129 | in the passes at `k*g` down to `g`, a server of weight `q*g` is chosen `min(k, q)` times |
| Schedule.EntryShare | pkg/tcp/wrr_load_balancer.go:104-106 | over one weight cycle each server is chosen exactly weight/gcd times |
| Schedule.NewBalancerShares | pkg/tcp/wrr_load_balancer.go:104-106 | from a new balancer, the first full weight cycle of calls chooses each server exactly weight/gcd times |
| Schedule.SolePositiveAlways | pkg/tcp/wrr_load_balancer.go:117-129 | with a single positive-weight server, every call chooses it |
| Schedule.PicksScale | pkg/tcp/wrr_load_balancer.go:99-130 | scaling every weight (and the current weight) by `f > 0` leaves the choices of any number of calls unchanged |
| Schedule.ScalingKeepsSchedule | pkg/tcp/wrr_load_balancer.go:104-106 | a new balancer chooses the same servers after all weights are scaled |
| Schedule.FourTwoLikeTwoOne | pkg/tcp/wrr_load_balancer.go:104-106 | weights [4, 2] and [2, 1] choose alike |
| Schedule.ThreeOneCycle | pkg/tcp/wrr_load_balancer.go:117-129 | for weights [3, 1], the passes at current weights 3, 2 and 1 choose [0], [0] and [0, 1], so one weight cycle is 0, 0, 0, 1 |
| Schedule.ThreeOneRunsTogether | pkg/tcp/wrr_load_balancer.go:104-106 | weights [3, 1] from a new balancer choose 0, 0, 0, 1 |
| Status.Flips | pkg/tcp/wrr_load_balancer.go:149 | the compare-and-swap from `!up` to `up` succeeds exactly for a known child whose stored flag differs; `FirstReportIsSilent` and `RepeatIsSilent` are about it |
| Status.Record | pkg/tcp/wrr_load_balancer.go:141-153 | after a report the child's flag is the reported one, and every other child keeps its presence and flag |
| Status.Broadcast | pkg/tcp/wrr_load_balancer.go:155-157 | a propagation calls every updater once, in registration order, with the new flag |
| Status.FirstReportIsSilent | pkg/tcp/wrr_load_balancer.go:141-147 | a child's first report adds it to the table and propagates nothing, whatever the flag |
| Status.RepeatIsSilent | pkg/tcp/wrr_load_balancer.go:149-152 | repeating a report propagates nothing and leaves the table unchanged |
| Status.PropagationsCountChanges | pkg/tcp/wrr_load_balancer.go:141-157 | a run of reports propagates once per change of the flag; a new child's first report only sets the baseline |
| Status.ReplayKeepsLast | pkg/tcp/wrr_load_balancer.go:141-153 | after a run of reports the child's flag is the last one reported, and other children are untouched |
| Status.SameReportTwiceAtMostOnce | pkg/tcp/wrr_load_balancer.go:149-152 | the same report twice in a row propagates at most once, and not at all for a new child |
| Status.RecordAsWritten | pkg/tcp/wrr_load_balancer.go:141-146 | a report panics exactly when the status map is nil; otherwise it stores the flag like `Record` |
| Status.NewBalancerPanicsOnFirstReport | pkg/tcp/wrr_load_balancer.go:31-35 | the first report to a balancer from `NewWRRLoadBalancer`, whose map is nil, panics |
| Balancer.WRRLoadBalancer.constructor | pkg/tcp/wrr_load_balancer.go:31-35 | a new balancer has an empty pool, index -1, weight 0, no updaters and an empty (non-nil) status table |
| Balancer.WRRLoadBalancer.AddWeightServer | pkg/tcp/wrr_load_balancer.go:59-68 | appends exactly one server with the given weight, or 1 when none is given, and changes nothing else |
| Balancer.WRRLoadBalancer.AddServer | pkg/tcp/wrr_load_balancer.go:53-56 | appends exactly one server of weight 1 and changes nothing else |
| Balancer.WRRLoadBalancer.MaxWeight | pkg/tcp/wrr_load_balancer.go:70-78 | the loop returns `MaxOf` of the pool's weights |
| Balancer.WRRLoadBalancer.WeightGcd | pkg/tcp/wrr_load_balancer.go:80-90 | the loop returns `GcdOf` of the pool's weights |
| Balancer.WRRLoadBalancer.Rotate | pkg/tcp/wrr_load_balancer.go:117-129 | the loop moves the rotation fields to `Scan` of their old value and returns the chosen server's handler; the pool and health state are untouched |
| Balancer.WRRLoadBalancer.Next | pkg/tcp/wrr_load_balancer.go:99-130 | the errors leave the rotation fields unchanged; otherwise they move as `Rotation.Next` says and the chosen handler is returned |
| Balancer.WRRLoadBalancer.ServeTCP | pkg/tcp/wrr_load_balancer.go:38-50 | the connection is closed on a selection error and forwarded to the chosen server's handler otherwise |
| Balancer.WRRLoadBalancer.SetStatus | pkg/tcp/wrr_load_balancer.go:133-158 | the flag is always stored; the updaters are called in order with `up` exactly when a known child's flag flips; nothing else changes |
| Balancer.WRRLoadBalancer.Propagate | pkg/tcp/wrr_load_balancer.go:155-157 | the propagation loop calls every updater once, in order, with `up`, and changes nothing else |

## Left out

- Locking (`sync.Mutex`) and the atomic booleans: the model is sequential.
  Each method runs as if it held the lock, and concurrent reports are not modelled.
- Logging and the `context` argument of `SetStatus`: they do not affect behaviour.
- The forwarding itself (`next.ServeTCP(conn)`) and `conn.Close()`: `ServeTCP`
  returns the decision (`Forwarded(handler)` or `Closed(reason)`), not its effect.
- Handlers and updaters are opaque. A handler is a type parameter. An updater
  is an identifier, and its call is recorded in `notified`.
- Balancer.WRRLoadBalancer.AddWeightServer: negative weights are excluded by a
  precondition. With negative weights `maxWeight` can be negative and the gcd
  can be negative or 0. The selection loop may then never stop, so the
  invariant `Valid` (all weights non-negative) is kept instead.
- Registration of status updaters: no function of this file writes `updaters`.
  The field starts empty as in `NewWRRLoadBalancer`, and `SetStatus` is
  specified for whatever list it holds.
- Balancer.WRRLoadBalancer.constructor: the status table starts as an empty map
  rather than Go's nil map. See Findings.
- The design comment at lines 104-106 says that the algorithm interleaves
  servers. The code does not interleave: [3, 1] gives 0, 0, 0, 1. The model
  follows the code (`Schedule.ThreeOneRunsTogether`).

## Findings

| source | as written | input that shows it | evidently intended | confidence | as-written member | corrected member |
|---|---|---|---|---|---|---|
| pkg/tcp/wrr_load_balancer.go:31-35 | `NewWRRLoadBalancer` leaves `status` nil, and `SetStatus` writes into it on a child's first report (line 145) | `SetStatus(ctx, "a", true)` on a new balancer: writing to a nil map panics | the first report for a child creates its entry silently | medium; not executed | Status.NewBalancerPanicsOnFirstReport | Balancer.WRRLoadBalancer.SetStatus |
