# Simple perf counters and meta-server liveness, in Dafny

This project models two parts of the rDSN code base and proves what they promise.

**The simple perf-counter provider** (`src/tools/common/simple_perf_counter.cpp`):

- **The percentile counter.** `set` records a sample into a ring of `MAX_QUEUE_LENGTH` (50000) slots. `calc` copies the valid slots to a scratch array and computes five percentiles (p50, p90, p95, p99, p999) in one pass of multi-rank selection:
  - a worklist of `(left, right, qleft, qright)` tasks;
  - a median-of-medians pivot (`find_mid`), found by insertion-sorting runs of five in place;
  - a hole partition of the block;
  - a split of the pending ranks among three child tasks.

  `get_percentile` reads the answers back.
- **The number counter** (`perf_counter_number`): a 64-bit unsigned accumulator.
- **The fail-fast operations** of both counters.
- **The dispatcher** in the `simple_perf_counter` constructor, which picks an implementation from the counter type.

**The meta server's node-liveness bookkeeping** (`src/dist/replication/meta_server/meta_service.cpp`):

- the alive and dead sets that `set_node_state` maintains;
- the freeze rule `check_freeze`;
- the flattened state map of `get_node_state`;
- the `live_percentage` control command;
- the seeding of the alive set at the start of `start_service`.

The central theorem is `SimplePerfCounter.PercentileCounter.Calc`: after `calc` on a non-empty counter, the answer for each tag is the sample at rank `floor(n * p) + 1` of the sorted most recent `n = min(tail, 50000)` samples. The reference meaning of "the sample at rank k" is `Ordering.Sort`. This is an insertion sort defined once as a function, so nothing in the reference uses selection.

The proof works as follows:

- Every step of the array code is proved against predicates on sequences (`Selection.PartitionedAt`, `Selection.RankSplit`, `Selection.SplitBy`).
- The worklist keeps the invariant `Selection.Worklist`:
  - every pending task's block holds exactly the samples of the same positions of the sorted snapshot;
  - its tags carry their ranks relative to the block;
  - every answered tag holds its percentile.
- The loop terminates because the total weight of the remaining tasks strictly decreases.

The model is organised in five modules:

- `Common` (`common.dfy`): `uint64_t` and the fail-fast result types.
- `Ordering` (`ordering.dfy`): sorted order and the split law of selection.
- `Selection` (`selection.dfy`): the worklist invariant and its step lemmas, over values.
- `SimplePerfCounter` (`simple_perf_counter.dfy`): the classes `PercentileCounter` and `NumberCounter`, and the dispatcher.
- `MetaService` (`meta_service.dfy`): the class `MetaServer` and its pure specification functions.

A cross-file observation, stated here without a claim about which provider is deployed. The meta server creates its disconnect counter as `COUNTER_TYPE_VOLATILE_NUMBER` and its unalive counter as `COUNTER_TYPE_NUMBER` (`meta_service.cpp:69-75`), then calls `add` and `set` on them (`meta_service.cpp:140-141`). Under the simple provider the first of these calls already fails fast, on every call of `set_node_state`:

- `COUNTER_TYPE_VOLATILE_NUMBER` selects the percentile counter (`SimplePerfCounter.KindOf`), whose `add` fails fast. `add` is called with `0` when the nodes are alive, so no call of `set_node_state` gets past it.
- The following `set` on the number counter is never reached; it would fail fast as well.

The meta-server model therefore keeps these two counters as plain numbers.

## Model

| member | source | states |
|---|---|---|
| SimplePerfCounter.PercentileCounter.constructor | src/tools/common/simple_perf_counter.cpp:95-96 | A new counter has tail 0, has recorded no sample, and satisfies the ring invariant. |
| SimplePerfCounter.PercentileCounter.Set | src/tools/common/simple_perf_counter.cpp:113-117 | The tail advances by exactly one and the sample is written to slot old tail mod 50000. Every other slot is unchanged, and the ring still holds the last min(tail, 50000) samples at slot (count mod 50000). |
| SimplePerfCounter.PercentileCounter.RingHoldsWindow | src/tools/common/simple_perf_counter.cpp:115-116 | The first min(tail, 50000) slots hold exactly the most recent min(tail, 50000) samples, as a multiset. |
| SimplePerfCounter.RingNotWrapped | src/tools/common/simple_perf_counter.cpp:115-116 | While tail <= 50000, slots 0..tail-1 hold the samples in arrival order. |
| SimplePerfCounter.RingRotated | src/tools/common/simple_perf_counter.cpp:115-116 | Once tail exceeds 50000, the ring holds the last 50000 samples rotated: the r = tail mod 50000 newest ones in slots 0..r-1, then the older ones in arrival order. |
| SimplePerfCounter.PercentileCounter.Count | src/tools/common/simple_perf_counter.cpp:219 | tmp_num is min(_tail, MAX_QUEUE_LENGTH): at most 50000 and at most tail, equal to one of them, and positive when tail is. |
| SimplePerfCounter.Rank | src/tools/common/simple_perf_counter.cpp:223-227 | The rank asked for tag t over n >= 1 samples, floor(n * p) + 1, lies in [1, n]. |
| SimplePerfCounter.Ranks | src/tools/common/simple_perf_counter.cpp:223-227 | The five ranks, one per tag in tag order. |
| SimplePerfCounter.RanksInRange | src/tools/common/simple_perf_counter.cpp:223-229 | Over n >= 1 samples every rank is in [1, n] and the ranks never decrease from p50 to p999. This is the order the "must be sorted" comment relies on. |
| SimplePerfCounter.PercentileCounter.Snapshot | src/tools/common/simple_perf_counter.cpp:219-221 | tmp[0..n) becomes queue[0..n) with n = min(tail, 50000) >= 1. |
| SimplePerfCounter.PercentileCounter.AskRanks | src/tools/common/simple_perf_counter.cpp:223-227 | ask[t] becomes floor(n * p_t) + 1 for each of the five tags. |
| SimplePerfCounter.PercentileCounter.InsertCalcQueue | src/tools/common/simple_perf_counter.cpp:134-142 | The worklist grows by exactly the given task at its end. |
| SimplePerfCounter.PercentileCounter.SortRun | src/tools/common/simple_perf_counter.cpp:153-160 | Insertion sort of one run of midTemp in place. The run ends sorted and is a permutation of the old run; nothing outside it changes. |
| SimplePerfCounter.PercentileCounter.InsertInRun | src/tools/common/simple_perf_counter.cpp:155-159 | One insertion step extends the sorted prefix of the run by one element. It keeps the multiset of midTemp and changes nothing outside the run. |
| SimplePerfCounter.PercentileCounter.ShiftLarger | src/tools/common/simple_perf_counter.cpp:157-158 | The shift loop moves every element after the insertion point one slot up. Everything it passes is larger than k, and the element before the insertion point is not. |
| SimplePerfCounter.PercentileCounter.RunMedian | src/tools/common/simple_perf_counter.cpp:152-161 | After sorting a run, the element taken, at offset remain_num / 2, is the middle element of the run's samples in sorted order. It is one of them, and nothing outside the run changes. |
| SimplePerfCounter.PercentileCounter.MedianToSlot | src/tools/common/simple_perf_counter.cpp:150-162 | One round of find_mid's loop. The run at index has five samples, or all that remain when fewer than six are left. Slot (index - left) / 5 receives the sample at offset remain_num / 2 of that run in sorted order, which is one of the block's samples. The rest of the block after the run and the medians already written are unchanged. |
| SimplePerfCounter.PercentileCounter.FindMid | src/tools/common/simple_perf_counter.cpp:144-165 | find_mid terminates: each recursive range is strictly shorter. It returns a sample present in midTemp[left..right] on entry. |
| SimplePerfCounter.PercentileCounter.FindPivot | src/tools/common/simple_perf_counter.cpp:189-191 | The search loop stops at the first position of [left, right] holding the pivot, which exists because the pivot is one of the block's samples. |
| SimplePerfCounter.PercentileCounter.SkipLarger | src/tools/common/simple_perf_counter.cpp:197 | The downward scan passes exactly the samples larger than the pivot and stops at one not larger, or below i. |
| SimplePerfCounter.PercentileCounter.SkipSmaller | src/tools/common/simple_perf_counter.cpp:199 | The upward scan passes exactly the samples smaller than the pivot and stops at one not smaller, or above j. |
| SimplePerfCounter.PercentileCounter.SweepHole | src/tools/common/simple_perf_counter.cpp:194-201 | The hole sweep ends with the hole at index in [left, right]. Filling the hole with the pivot gives back the block's samples. Nothing before index is above the pivot, nothing after it is below, and nothing outside the block changes. |
| SimplePerfCounter.PercentileCounter.Partition | src/tools/common/simple_perf_counter.cpp:189-202 | After the hole partition, tmp[left..right] is a permutation of its old contents and tmp[index] is the pivot. Every element of [left, index) is <= it, every element of (index, right] is >= it, and nothing outside the block changes. |
| SimplePerfCounter.PercentileCounter.CopyBlock | src/tools/common/simple_perf_counter.cpp:185-186 | select's copy loop: _mid_temp[left..right] becomes _tmp[left..right]. |
| SimplePerfCounter.PercentileCounter.SplitRanks | src/tools/common/simple_perf_counter.cpp:204-207 | Sorted ranks below now stay unchanged. Ranks equal to now become 1, and larger ranks drop by now. The two cut points i <= j separate the three groups. |
| SimplePerfCounter.PercentileCounter.Split | src/tools/common/simple_perf_counter.cpp:185-210 | The partitioning branch of select permutes the block around the pivot, splits the ranks at the pivot's relative position, and appends exactly the three child tasks. |
| SimplePerfCounter.PercentileCounter.Select | src/tools/common/simple_perf_counter.cpp:167-212 | A task without tags changes nothing. A one-sample task, whose ranks are all 1, writes tmp[left] to exactly its tags and changes nothing else. A larger task is split as in Split. |
| SimplePerfCounter.PercentileCounter.RunTask | src/tools/common/simple_perf_counter.cpp:234-235 | One iteration of calc's loop keeps the worklist invariant and strictly lowers the weight of the remaining tasks. |
| SimplePerfCounter.PercentileCounter.Drain | src/tools/common/simple_perf_counter.cpp:231-235 | calc's loop, started from one task holding the whole snapshot and every tag, ends with each tag's answer equal to the sample at its rank in the sorted snapshot. |
| SimplePerfCounter.PercentileCounter.CalcWindow | src/tools/common/simple_perf_counter.cpp:219-235 | On a non-empty counter the recompute leaves in ans the percentiles of queue[0..n). |
| SimplePerfCounter.PercentileCounter.Calc | src/tools/common/simple_perf_counter.cpp:214-238 | With tail 0, ans is unchanged. Otherwise ans[t] is the sample of rank floor(n * p_t) + 1 in sorted order, taken both over queue[0..n) and over the most recent n samples. |
| SimplePerfCounter.PercentileOfPermutation | src/tools/common/simple_perf_counter.cpp:219-221 | The percentiles depend only on the multiset of samples, not on the ring's rotation. |
| SimplePerfCounter.ReportsPermutation | src/tools/common/simple_perf_counter.cpp:219-221 | Answers that are the percentiles of one arrangement of the samples are the percentiles of any other. |
| SimplePerfCounter.PercentilesOrdered | src/tools/common/simple_perf_counter.cpp:223-229 | The percentiles come out in tag order: p50 <= p90 <= p95 <= p99 <= p999. |
| SimplePerfCounter.PercentileIsSample | src/tools/common/simple_perf_counter.cpp:214-238 | Every percentile is one of the samples. |
| SimplePerfCounter.PercentileCounter.GetPercentile | src/tools/common/simple_perf_counter.cpp:121-131 | -1 while tail is 0, checked before the tag. A fail-fast with "send a wrong counter percentile type" on a tag outside [0, 5). Otherwise a 64-bit unsigned answer. |
| SimplePerfCounter.PercentileCounter.ReadsPercentile | src/tools/common/simple_perf_counter.cpp:121-131 | After a calc, get_percentile(t) returns the percentile of tag t over the most recent samples. That value is one of those samples and is no greater than any later tag's. |
| SimplePerfCounter.PercentileCounter.Increment | src/tools/common/simple_perf_counter.cpp:110 | increment on a percentile counter fails fast with "invalid execution flow". |
| SimplePerfCounter.PercentileCounter.Decrement | src/tools/common/simple_perf_counter.cpp:111 | decrement fails fast with "invalid execution flow". |
| SimplePerfCounter.PercentileCounter.Add | src/tools/common/simple_perf_counter.cpp:112 | add fails fast with "invalid execution flow". |
| SimplePerfCounter.PercentileCounter.GetValue | src/tools/common/simple_perf_counter.cpp:119 | get_value fails fast with "invalid execution flow". |
| Selection.Weight | src/tools/common/simple_perf_counter.cpp:233-235 | Every task weighs at least 1: the termination measure of the worklist loop. |
| Selection.Children | src/tools/common/simple_perf_counter.cpp:208-210 | The three tasks select pushes: the block left of the pivot with the smaller ranks, the pivot alone with the equal ranks, and the block right of it with the larger ranks. |
| Selection.ChildrenLighter | src/tools/common/simple_perf_counter.cpp:208-210 | The three children of a split weigh less together than their parent. |
| Selection.StepLighter | src/tools/common/simple_perf_counter.cpp:233-235 | Removing the head task and appending lighter children lowers the total weight. |
| Selection.InitialWorklist | src/tools/common/simple_perf_counter.cpp:233 | The first task, the whole snapshot with every tag, satisfies the worklist invariant. |
| Selection.StepSkip | src/tools/common/simple_perf_counter.cpp:172-173 | Dropping a task without tags keeps the invariant. |
| Selection.StepLeaf | src/tools/common/simple_perf_counter.cpp:175-183 | Answering a one-sample task gives each of its tags the sample at its global rank, and keeps the invariant. |
| Selection.Singleton | src/tools/common/simple_perf_counter.cpp:175-179 | A one-sample block of the snapshot holds exactly the sample at that position of the sorted snapshot. |
| Selection.ChildBlocks | src/tools/common/simple_perf_counter.cpp:193-210 | After the partition, each child's block holds the samples of the same positions of the sorted snapshot, with the pivot at its own sorted position. |
| Selection.ChildrenSound | src/tools/common/simple_perf_counter.cpp:204-210 | The three children are sound: their ranks are relative to their blocks, and a child with an empty block has no pending rank. |
| Selection.OtherSound | src/tools/common/simple_perf_counter.cpp:185-210 | A split leaves the other pending tasks, with disjoint blocks and tags, sound. |
| Selection.SplitSound | src/tools/common/simple_perf_counter.cpp:185-210 | Every task left after a split is sound. |
| Selection.SplitDisjoint | src/tools/common/simple_perf_counter.cpp:208-210 | Pending tasks keep pairwise disjoint blocks and tag runs after a split. |
| Selection.SplitOwners | src/tools/common/simple_perf_counter.cpp:208-210 | Each tag is owned by the one task whose run holds it, and the answered tags are exactly those owned by finished tasks. |
| Selection.StepSplit | src/tools/common/simple_perf_counter.cpp:185-211 | Splitting a task of two or more samples keeps the worklist invariant. |
| Selection.Drained | src/tools/common/simple_perf_counter.cpp:234-237 | An empty worklist means every tag holds the sample at its rank of the sorted snapshot. |
| Ordering.SortFacts | src/tools/common/simple_perf_counter.cpp:214-238 | The reference order, Sort, returns a sorted permutation of its argument. |
| Ordering.SortedUnique | src/tools/common/simple_perf_counter.cpp:214-238 | Two sorted sequences with the same samples are equal, so the sorted snapshot is unique. |
| Ordering.SortOfPermutation | src/tools/common/simple_perf_counter.cpp:219-221 | Sort depends only on the multiset of samples. |
| Ordering.PartitionedBlock | src/tools/common/simple_perf_counter.cpp:193-204 | The split law of selection. When a block is partitioned around position p, the sorted block has the pivot at p and the same samples on each side. |
| Ordering.SortedIsSort | src/tools/common/simple_perf_counter.cpp:152-161 | A sorted rearrangement of a run agrees with Sort of the run at every position. |
| SimplePerfCounter.NumberCounter.constructor | src/tools/common/simple_perf_counter.cpp:37-38 | A new number counter holds 0 and has seen no update. |
| SimplePerfCounter.NumberCounter.Increment | src/tools/common/simple_perf_counter.cpp:41 | The value becomes old value + 1 mod 2^64, and the update is logged. |
| SimplePerfCounter.NumberCounter.Decrement | src/tools/common/simple_perf_counter.cpp:42 | The value becomes old value - 1 mod 2^64; at 0 it wraps. |
| SimplePerfCounter.NumberCounter.Add | src/tools/common/simple_perf_counter.cpp:43 | The value becomes old value + val mod 2^64. |
| SimplePerfCounter.NumberCounter.Set | src/tools/common/simple_perf_counter.cpp:44 | set on a number counter fails fast with "invalid execution flow". |
| SimplePerfCounter.NumberCounter.GetValue | src/tools/common/simple_perf_counter.cpp:45 | The value is the net change of every update so far, reduced modulo 2^64. |
| SimplePerfCounter.NumberCounter.GetPercentile | src/tools/common/simple_perf_counter.cpp:46 | Any tag reads the value. |
| SimplePerfCounter.ApplyIsNet | src/tools/common/simple_perf_counter.cpp:41-43 | Applying updates one at a time, each wrapping, gives the start value plus their net change, reduced once. |
| SimplePerfCounter.ApplyCommutes | src/tools/common/simple_perf_counter.cpp:41-43 | Two batches of updates give the same value in either order. |
| SimplePerfCounter.DecrementUndoesIncrement | src/tools/common/simple_perf_counter.cpp:41-42 | decrement undoes increment, also across the 2^64 wrap. |
| SimplePerfCounter.KindOf | src/tools/common/simple_perf_counter.cpp:269-278 | COUNTER_TYPE_NUMBER selects the number counter and COUNTER_TYPE_RATE the rate counter, each iff. Every other type, COUNTER_TYPE_VOLATILE_NUMBER included, selects the percentile counter. |
| SimplePerfCounter.NewCounter | src/tools/common/simple_perf_counter.cpp:269-278 | The object built has the kind KindOf selects, is freshly allocated, and starts empty. |
| MetaService.MetaServer.constructor | src/dist/replication/meta_server/meta_service.cpp:51-57 | A new service has empty, disjoint alive and dead sets, is not started, and its threshold is the configured default. |
| MetaService.MetaServer.CheckFreeze | src/dist/replication/meta_server/meta_service.cpp:84-91 | check_freeze is the freeze rule over the sizes of the alive and dead sets. |
| MetaService.FrozenMonotone | src/dist/replication/meta_server/meta_service.cpp:84-91 | With a non-negative threshold, fewer alive nodes or more known nodes never lift a freeze. |
| MetaService.MarkDeadKeepsFrozen | src/dist/replication/meta_server/meta_service.cpp:84-91 | Marking nodes dead via set_node_state never lifts a freeze (threshold >= 0, disjoint sets). |
| MetaService.Mark | src/dist/replication/meta_server/meta_service.cpp:130-138 | Marked nodes end on the chosen side only, every other node keeps its membership, and disjoint sets stay disjoint. |
| MetaService.MarkListed | src/dist/replication/meta_server/meta_service.cpp:130-138 | After set_node_state(nodes, is_alive) every listed node is alive iff is_alive and dead iff not. |
| MetaService.MetaServer.MarkNodes | src/dist/replication/meta_server/meta_service.cpp:130-138 | The loop over the list moves the sets exactly as Mark says. |
| MetaService.MetaServer.NoticesFor | src/dist/replication/meta_server/meta_service.cpp:146-152 | One on_change_node_state notice per listed node, in list order. |
| MetaService.MetaServer.SetNodeState | src/dist/replication/meta_server/meta_service.cpp:128-153 | The sets move as Mark says and stay disjoint. The disconnect count grows by the list length when dead and by 0 otherwise, and the unalive count is the size of the dead set. One notice per node is produced only once started. |
| MetaService.NodeStatesMeaning | src/dist/replication/meta_server/meta_service.cpp:155-162 | Over disjoint sets and starting from an empty map, the node-state map has exactly the known nodes as keys and maps a node to true iff it is alive. get_node_state itself writes into a map the caller passes in; GetNodeState states that general case, where other keys keep their values. |
| MetaService.MetaServer.GetNodeState | src/dist/replication/meta_server/meta_service.cpp:155-162 | Alive nodes map to true, then dead nodes to false, and other keys of the given map keep their values. |
| MetaService.MetaServer.WriteAll | src/dist/replication/meta_server/meta_service.cpp:158-161 | One pass sets every node of a set to the given value and keeps every other entry. |
| MetaService.ParseInt32 | src/dist/replication/meta_server/meta_service.cpp:182-183 | Any value buf2int32 accepts lies within int32_t. |
| MetaService.ParsePrinted | src/dist/replication/meta_server/meta_service.cpp:176-186 | Printing an int32 with to_string and parsing it back gives the same value. |
| MetaService.IntToString | src/dist/replication/meta_server/meta_service.cpp:176 | std::to_string of an int: a non-empty string that starts with '-' exactly when the value is negative, followed by decimal digits. ParsePrinted shows that ParseInt32 inverts it on int32. |
| MetaService.NatToString | src/dist/replication/meta_server/meta_service.cpp:176 | to_string of a natural number is a non-empty string of decimal digits. |
| MetaService.LivePercentageStep | src/dist/replication/meta_server/meta_service.cpp:173-191 | With no argument: answer the threshold and change nothing. "DEFAULT": restore the default, "OK". An argument that is not an int32, or is negative: "ERR: invalid arguments", unchanged. Otherwise take the value, "OK". |
| MetaService.MetaServer.LivePercentage | src/dist/replication/meta_server/meta_service.cpp:173-191 | The command updates the threshold field and answers exactly as LivePercentageStep says. |
| MetaService.SetThenQuery | src/dist/replication/meta_server/meta_service.cpp:173-191 | Setting the threshold to a printed non-negative int32 answers "OK", and a following query answers the same text. |
| MetaService.StepKeepsNonNegative | src/dist/replication/meta_server/meta_service.cpp:178-187 | The command never makes a non-negative threshold negative unless the configured default is. |
| MetaService.Seed | src/dist/replication/meta_server/meta_service.cpp:203-207 | Seeding adds to the alive set every viewed node not known dead and leaves the dead set unchanged. Disjointness is kept and every viewed node ends up known. |
| MetaService.MetaServer.StartService | src/dist/replication/meta_server/meta_service.cpp:199-215 | The alive set becomes its Seed from the meta view, the dead set is untouched, and the service counts as started. |

## Left out

- `SimplePerfCounter.Rank`: works in exact integers, floor(n * permille / 1000) + 1 with permille 500, 900, 950, 990, 999. The source computes `(int)(tmp_num * 0.999) + 1` in double precision, and the two agree only where the double product does not round across an integer.
- `SimplePerfCounter.PercentileCounter.GetPercentile` returns the answer as an integer; the source returns a `double`, which is exact only below 2^53, so larger samples come back rounded there. Its tail check comes before the tag check, as in the code, so a bad tag on an empty counter answers -1 rather than failing fast.
- `SimplePerfCounter.PercentileCounter.FindMid`: promises only that the pivot is one of the block's samples and that the recursion terminates. The median-of-medians quality bound, and with it the linear running time, is not proved.
- `SimplePerfCounter.PercentileCounter.Select`: takes two facts as preconditions. A one-sample task's ranks are all 1; the code checks this with the "select percentail wrong" dassert (simple_perf_counter.cpp:181). The ranks within a task are sorted; the code does not check this, and relies on it only through the "must be sorted" comment over a commented-out `std::sort` (simple_perf_counter.cpp:228-229). Drain proves that every call meets both, so the dassert never fires.
- The worklist `_calc_queue` is a growable sequence. Its fixed capacity `MAX_QUEUE_LENGTH * 10` is not shown to suffice.
- `_ans` starts with indeterminate contents in the source. The model allocates it with unspecified contents and says nothing about it before the first calc.
- Timers are left out: the constructor's timer start, `on_timer` re-arming and the destructor's cancel. `calc` is a method called directly.
- Concurrency is left out. The atomic `_tail` and the intended race between `set` and `calc` are modelled sequentially.
- `_tail` is a `std::atomic<int>`; the model uses an unbounded natural number and does not model its overflow.
- The rate counter (`perf_counter_rate`) reads a wall clock and divides in floating point. The dispatcher does select it, but the counter itself is not modelled.
- `SimplePerfCounter.NumberCounter.GetValue` returns the value as an integer; the source converts it to a `double`, which is exact only below 2^53.
- The counter-type enumeration's header is not part of this model. The four types modelled are NUMBER and RATE, which the dispatcher tests for (simple_perf_counter.cpp:269-278); VOLATILE_NUMBER, which the meta server also uses alongside NUMBER (meta_service.cpp:69-75); and NUMBER_PERCENTILES, which neither file names and which stands for every other type the dispatcher's final branch receives.
- The percentile-tag enumeration's header is not part of this model either. The model assumes COUNTER_PERCENTILE_50, _90, _95, _99 and _999 are numbered 0 to 4 in that order, with COUNTER_PERCENTILE_COUNT equal to 5. The "must be sorted" requirement on the ranks (simple_perf_counter.cpp:228-229) holds only under that order.
- meta_service is modelled without its locks, RPC handlers, failure-detector registration, the balancer and backup timers, and remote storage setup. The enqueues of `start_service` are left out as well. `set_node_state`'s enqueues are modelled as the returned list of notices.
- `MetaService.MetaServer.CheckFreeze`: uses exact integer arithmetic, while the code at meta_service.cpp:89-90 works in `int` and `size_t`. The answers differ in three ways:
  - The total `alive + dead` is computed in `int` and overflows beyond 2^31 - 1 nodes.
  - The product `threshold * total` is also computed in `int`, assuming the threshold field is an `int` (its header is not part of this model; live_percentage assigns it an `int32_t` at :186). It overflows once it passes 2^31 - 1, and live_percentage accepts any non-negative int32 (:183), not only 0..100. Example: threshold 858993460, 5 alive nodes, 0 dead, min_live_node_count_for_unfreeze <= 5. The product is 2^32 + 4. In 32 bits that wraps to 4 (formally undefined behaviour), so the code evaluates `500 < 4` and is not frozen, while `Frozen(5, 0, 5, 858993460)` is true.
  - The `int` right-hand side is converted to `size_t` for the comparison with `alive * 100`. A negative product, from a negative configured default threshold or from an overflow that lands below zero, becomes a huge unsigned value, so the code freezes. The model compares signed values: for example `Frozen(5, 0, 5, -1)` is false.
- `MetaService.ParseInt32`: models `buf2int32`, which is not part of this model, as an optional sign followed by decimal digits in the int32 range. Leading white space and the other forms accepted by the C library's conversion routines are not modelled. This changes results, not only accepted inputs: if `buf2int32` converts with base 0, as `strtol(s, &end, 0)` does, then "010" is octal 8 and "0x10" is 16 there, while `ParseInt32` gives 10 for "010" and rejects "0x10". live_percentage would then set a different threshold, or refuse one the code accepts.
- The meta server's two perf counters are plain numbers here, not `SimplePerfCounter` objects; see the observation above.
