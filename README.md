# cityLink in Dafny

cityLink reads an N-by-N neighbour table of cities (cell `A[i][j]` is 1 when
city `j` is a direct neighbour of city `i`). From that table it builds a list
of neighbour pairs. It extends that list in place to its transitive closure.
It then answers a query "can `targetCity` be reached from `startCity`, and
along which cities?". All three steps work on one flat `int` buffer. Pair
number k has its source at index 2k and its destination at index 2k+1
(cityLink.c:50-51). `sizeOfR` counts ints, not pairs.

This project models the three algorithms of `cityLink.c` as imperative Dafny
and proves what they compute:

- `createRList` becomes `RList.CreateRList`. It writes the pairs into a
  fixed-size `array<int>` of `2*(N*N-N)` ints through a moving position,
  exactly as the routine does with its pointer `p`. It is proved to emit
  exactly the cells holding 1, once each, in row-major order.
- `createTransClosure` becomes two parts.
  - `TransClosure.ClosurePass` is one pass of the `while(changed)` loop, on
    any list.
  - `TransClosure.CreateTransClosure` is the whole loop, on lists without
    self-loops. It is proved to terminate, to keep the input as a prefix, to
    append only new pairs, and to end closed. The pairs it yields are exactly
    the pairs (u, w), u != w, with a walk from u to w over the input.
- `findPath` becomes `PathFinder.FindPath`. Its first step and one sweep of
  its `while(!pathComplete)` loop are separate methods. The result is
  `NotFound`, `Found(path)`, or `Stuck(visited, at)`. `Stuck` marks the state
  in which a whole sweep made no step. From that state the routine repeats
  the same sweep forever. `PathFinder.Answer` is a reference definition of
  the whole query, sweep by sweep (`PathFinder.SweepFrom`), and `FindPath`
  returns exactly its value, so the contract fixes which pair each step
  follows and whether a query ends `Found` or `Stuck`.
- `CityLink.Query` chains the three as `main` does. On a table with an empty
  diagonal, the answer is "no path" exactly when the target cannot be reached
  from a different start city.

The flat buffer is a `seq<int>`, read through `Graph.Pairs` as a sequence of
`Edge` values. Reachability (`Graph.Reach`) is defined independently of the
algorithms: it holds when there is a walk of at least one step.

Two hazards of the routines are stated as proved facts:

- **Self-loops in the closure.** A self-loop (x, x) and another pair at x,
  (x, y) or (y, x) with y != x, make `createTransClosure` skip its duplicate
  scan when it composes the two (cityLink.c:280). It then re-appends that
  pair on every pass, so `changed` never stays false
  (`TransClosure.SelfLoopPasses`). `CreateTransClosure` therefore requires a
  list without self-loops. `RList.RListFeedsClosure` shows that a table with
  no 1 on its diagonal yields such a list. The same assumption sizes the
  buffer of `createRList` (`RList.ZeroDiagonalFits`).
- **Dead ends in findPath.** See "## Findings".

findPath walks the same list it searched for (start, target). In `main` that
list is the closure (cityLink.c:174), so a step of the path can be a closure
pair rather than a neighbour pair. The model walks that one list.

## Model

| member | source | states |
|---|---|---|
| Graph.ScanForPair | cityLink.c:281-284 | the full scan of the list reports true exactly when the pair (u, w) occurs in it; the reachability check at cityLink.c:310-313 is the same scan |
| Graph.OffDiagonalCard | cityLink.c:227 | there are exactly N*N - N pairs of distinct cities among N cities, the number of pairs the buffer of createRList holds |
| Graph.ReachTrans | cityLink.c:279 | reachability composes: u to v and v to w give u to w, which is what appending (u, w) for (u, v) and (v, w) relies on |
| RList.CreateRList | cityLink.c:223-259 | the result has even length 2 * (number of cells holding 1); its pairs are exactly the cells (i, j) with 0 <= i, j < N and A[i][j] == 1, in strictly increasing row-major order (so each once) |
| RList.Emit | cityLink.c:240-243 | writing i then j at the moving position appends the pair (i, j) after the pairs already written and leaves them intact |
| RList.CapacitySuffices | cityLink.c:227 | every write of a pair stays inside the buffer of N*N - N pairs when the table has at most that many 1s |
| RList.ZeroDiagonalFits | cityLink.c:227 | a table with no 1 on its diagonal has at most N*N - N cells holding 1, so the buffer is large enough |
| RList.RListFeedsClosure | cityLink.c:237-248 | the pair list of a table with an empty diagonal has no duplicate, no self-loop, and only cities in [0, N) |
| TransClosure.ClosurePass | cityLink.c:266-300 | one pass keeps the list as a prefix and only appends; it appends only compositions of two pairs of the pass's snapshot, each not yet in the list when there is no self-loop; `changed` holds exactly when it appended; every composition of two snapshot pairs is in the result; a composition with a self-loop operand always sets `changed` |
| TransClosure.AppendDerived | cityLink.c:286-295 | appending (u, w) for snapshot pairs (u, v), (v, w) keeps the input prefix and adds exactly that pair at the end |
| TransClosure.CreateTransClosure | cityLink.c:261-303 | on a list without self-loops the loop terminates; the input stays a prefix; appended pairs are pairwise new; no self-loop appears; the result is closed under composition; a pair (u, w) is in the result iff u != w and w is reachable from u over the input; a closed input comes back unchanged; duplicate-freedom is kept; no new city appears |
| TransClosure.PassKeepsInvariant | cityLink.c:265-296 | a pass that appends strictly increases the number of distinct pairs, which are bounded by the pairs over the input's cities; a pass that does not append leaves the list unchanged and closed |
| TransClosure.AppendedAreNew | cityLink.c:281-286 | on a list without self-loops everything a pass appends was absent before the pass |
| TransClosure.AppendedAreOld | cityLink.c:279-286 | on a closed list everything a pass appends is already present, so a pass on it appends nothing when it has no self-loop |
| TransClosure.WalkCovered | cityLink.c:265-301 | a walk between distinct cities over the input is short-cut by a single pair of any closed list containing the input |
| TransClosure.ClosedCoversReach | cityLink.c:265-301 | a closed list containing the input holds every pair (u, w), u != w, with w reachable from u over the input |
| TransClosure.NoDupFresh | cityLink.c:281-286 | a duplicate-free input followed by pairs that are each new is duplicate-free |
| TransClosure.ReachableNodes | cityLink.c:279 | pairs reachable over the input only use cities of the input |
| TransClosure.ClosureFits | cityLink.c:227 | a duplicate-free, self-loop-free list over cities 0..N-1 has at most 2*(N*N - N) ints, so the closure never outgrows N*(N-1) pairs |
| TransClosure.SelfLoopPasses | cityLink.c:279-296 | with a self-loop (x, x) and another pair at x, (x, y) or (y, x) with y != x, in the list, any number of passes keeps `changed` set and grows the list by at least one pair per pass |
| TransClosure.IsolatedSelfLoopPass | cityLink.c:265-300 | on the list (0,0), (1,2) a pass appends nothing and leaves `changed` false, so an isolated self-loop does not stop the loop from ending |
| TransClosure.FirstAppended | cityLink.c:279-295 | the first pair a pass appends, when it appends any, is a composition of two pairs of the pass's snapshot |
| PathFinder.FirstOut | cityLink.c:320-321 | the position of the first pair leaving a city: its source is that city and no earlier pair leaves it |
| PathFinder.Contains | cityLink.c:352-355 | the scan of Path sets the flag exactly when the candidate city is on the path |
| PathFinder.FindPath | cityLink.c:305-394 | NotFound exactly when (start, target) is not in the list (so always when start == target on a self-loop-free list); a found path is a walk over the list from start to target whose second city is the destination of the first pair leaving start, visiting no city twice on a self-loop-free list; Stuck gives an unfinished walk whose last city has no pair to a city off the walk; the outcome is exactly `Answer`: the first pair leaving start, then sweeps as `SweepFrom` defines them until one completes the path or one makes no step |
| PathFinder.TakeFirstStep | cityLink.c:320-345 | the first step follows the first pair leaving start with no visited check, and completes the path [start, target] exactly when that pair goes to the target |
| PathFinder.Sweep | cityLink.c:347-380 | a sweep only extends the walk; a sweep that moves strictly decreases the measure, a sweep that completes leaves a walk ending at the target, and a sweep that does not move leaves the state unchanged with every pair leaving the current city going back onto the path; the end state is exactly `SweepFrom` from position 0: in list order, each pair that leaves the current city for a city off the path is followed and the sweep goes on from the next position with the city reached, stopping at the target |
| PathFinder.SweepFromWalk | cityLink.c:347-380 | by induction over the positions of a sweep: a completed path is a walk to the target and an unfinished one is still a walk, both extending the walk the sweep started from; once a step is taken the sweep counts as moved; a sweep that never moves leaves the state unchanged, with every pair leaving the current city going back onto the path |
| PathFinder.SweepFromMeasure | cityLink.c:347-380 | a sweep keeps the walk's cities among the list's cities and either leaves the state unchanged or strictly lowers the measure, so the repeated sweeps of `while(!pathComplete)` end in a complete path or a sweep without a step |
| PathFinder.MeasureBounded | cityLink.c:346 | the measure of a walk whose cities occur in the list is not negative |
| PathFinder.Start | cityLink.c:327-342 | after the first step, the path [start, target] is complete, or [start] with the current city is an unfinished walk |
| PathFinder.Step | cityLink.c:356-377 | following a pair (cur, y) with y off the path either completes a walk to the target or extends the unfinished walk, and strictly decreases the measure |
| PathFinder.MeasureDrops | cityLink.c:363-365 | the measure 2*(cities not on the path) + (1 if the current city is on the path) stays non-negative and strictly drops with each step |
| PathFinder.WalkExtend | cityLink.c:363-365 | a walk extended by a pair leaving its last city is a walk |
| PathFinder.NoDupExtend | cityLink.c:352-365 | appending a city not on a duplicate-free path keeps it duplicate-free |
| PathFinder.BlockedAll | cityLink.c:346-381 | a sweep that finds no step has seen every pair leaving the current city go back onto the path |
| PathFinder.DeadEndQuery | cityLink.c:346-381 | on the list (0,1), (0,2), (2,3), (0,3) and the query 0 to 3 the routine gets stuck at city 1 after visiting [0], although (0, 3) is present |
| PathFinder.SweepOrderQuery | cityLink.c:346-381 | on the list (0,1), (1,2), (1,3), (0,2), (0,3), which holds every composition of its pairs, the query 0 to 3 gets stuck at city 2 after visiting [0, 1]: the sweep follows (1,2) because it comes before (1,3) |
| PathFinder.SweepOrderAnswer | cityLink.c:346-381 | the reference answer for that list and query is Stuck([0, 1], 2), sweep by sweep |
| PathFinder.CheckLeadsTo | cityLink.c:310-313 | the corrected walk's check reports exactly whether a candidate city is the target or has a pair to it |
| PathFinder.FindPathGuided | cityLink.c:305-394 | corrected walk: never Stuck; NotFound exactly when (start, target) is absent; otherwise a walk from start to target visiting no city twice |
| PathFinder.GuidedSweep | cityLink.c:347-380 | a sweep of the corrected walk always moves: it completes the path or strictly decreases the measure, keeping a pair from the current city to the target |
| PathFinder.GuidedStep | cityLink.c:356-377 | a step to a city that leads to the target keeps the pair (current city, target) in the list and the target off the path |
| PathFinder.TargetStepOpen | cityLink.c:346-381 | the pair (current city, target) is a step that a sweep of the corrected walk cannot pass over |
| CityLink.Query | cityLink.c:162-174 | on a table with an empty diagonal: the pair list is exactly the cells holding 1; the closure extends it and fits N*N - N pairs; the answer is NotFound exactly when start == target or the target is not reachable from start over the table's pairs; a path found is a walk over the closure without repeated cities |

## Left out

- Memory allocation failures are not modelled: `malloc`/`realloc` returning NULL, the leaks on those paths, and `realloc(..., 0)` for an empty list (cityLink.c:227-231, 251-255, 287-291, 322-326, 332-336, 357-361, 367-371). Storage never fails in the model.
- Printing is not modelled: the error messages, "No Path Exists!", "Yes path exists!" and the rendering of the path with " => " (cityLink.c:315, 383-390). `FindPath` returns the path instead. When the routine returns, its boolean result is `!out.NotFound?`.
- `readArguments`, `readFromFile`, `printNeighbTable`, `printTransClosure`, `writeFile` and the rest of `main` are not modelled: command-line flags, file reading and writing, the character-to-digit conversion of the query, and freeing memory. `CityLink.Query` keeps only the order of the calls.
- `CreateTransClosure` requires a list without self-loops. This also excludes lists with an isolated self-loop (x, x), no other pair at x, on which the routine ends normally: the composition of (x, x) with itself fails `u != w` (cityLink.c:279). `TransClosure.IsolatedSelfLoopPass` shows this on one list. The loop runs forever only when the city of a self-loop has another pair, (x, y) or (y, x); `TransClosure.SelfLoopPasses` states that case.
- `CreateRList` requires at most N*N - N cells holding 1, which is the capacity of the buffer the routine allocates. With more, the routine writes past the end of its buffer. `RList.ZeroDiagonalFits` shows that an empty diagonal suffices.
- `FindPath` returns `Stuck` where the routine loops forever. `Stuck` is returned after the first sweep that makes no step. `Sweep` proves that such a sweep leaves the state unchanged, so every later sweep would do the same.
- The `int` values are unbounded. The routine's `2*(N*N-N)` and `*sizeOfR` cannot overflow for the table sizes `readFromFile` accepts (single-digit N).

## Findings

| source | as written | input that shows it | evidently intended | confidence | as-written member | corrected member |
|---|---|---|---|---|---|---|
| cityLink.c:320-381 | the walk takes the first pair leaving the current city whose destination is off the path, with no regard to whether the target can be reached from there; when the current city has no pair off the path, every sweep appends nothing and `while(!pathComplete)` repeats forever | neighbour pairs (0,1), (0,2), (2,3), whose closure is (0,1), (0,2), (2,3), (0,3); query 0 to 3 | when (start, target) is in the list, `findPath` prints a path from start to target and returns | high; not executed | PathFinder.DeadEndQuery | PathFinder.FindPathGuided |

`PathFinder.FindPathGuided` changes only the step condition. A step to a city
is taken only when that city is the target or has a pair to the target. It
keeps the first-in-list order and does no backtracking. On a list without
self-loops it never gets stuck, because the pair (current city, target) is
always an available step.

`PathFinder.SweepOrderQuery` shows that the routine can get stuck even when
the walk stands on a city with a pair to the target: on the list (0,1),
(1,2), (1,3), (0,2), (0,3), the walk at 1 follows (1,2), which comes before
(1,3), and 2 has no pair.
