# ycsbr workload-generation core, in Dafny

This project models three pieces of the ycsbr workload generator and proves
properties about them:

- **Sampling without replacement** (module `Sampling`, `sampling.dfy`).
  Each sampler writes `k` distinct keys from an integer range `[min, max]`
  into the window `dest[start .. start+k)` of a caller's array. There are
  three of them:
  - Floyd's algorithm, with a hash set;
  - selection sampling, one linear pass over the candidates;
  - a sparse Fisher–Yates partial shuffle, with a hash map of swapped
    indices.

  A dispatcher chooses Floyd or selection sampling by selectivity.
- **The phase state** (module `PhaseState`, `phase.dfy`). A `Phase` object
  holds a workload phase's counters, its operation-mix thresholds and seven
  nullable key choosers. Two calls fan an item-count update out to six of
  those choosers.
- **The value generator** (module `ValueGen`, `valuegen.dfy`). A cursor over
  a buffer of `numValues` payloads of `valueSize` bytes each. The last slot
  is reserved as the tombstone.

Every random draw is a parameter supplied by the caller. A precondition
bounds it to the support of the distribution it replaces:

- Floyd: the j-th draw is in `[min, max-k+1+j]`.
- Fisher–Yates: the i-th draw is in `[i, interval-1]`.
- Selection sampling: one real `u` in `[0, 1)` per candidate.

Each sampler method is proved against a pure function that says what it
writes: `FloydSet`, `Selection` and `FisherYates`. Lemmas about those
functions give the combinatorial facts: how many values, distinct, in
range, ascending, and a permutation.

Selection sampling is stated twice:

- `Selection` is the recursive specification, from a candidate offset on.
- `Accepted` is the loop's forward view: the values accepted so far.

`AcceptedThenSelection` proves that the two agree. ycsbr's `SelectionSample` uses `u`
only in the test `(interval - curr) * u < needed`, so `Selection` is stated on
the whole part of that product, as `Scale` computes it. `DrawTestAgrees`
proves two facts about the whole part: it lies in `[0, interval - curr)`,
and comparing it with the integer `needed` decides the same as ycsbr's
test.

In the value generator, a ghost call counter `calls` numbers the calls to
`NextValue`. The cursor after `calls` calls is `CycleSlot(numValues, calls) * valueSize`.
`CycleSlot` is recursive and repeats the advance-and-wrap step one call at a
time. `CycleSlotMod` proves that it equals the closed form
`calls % (numValues - 1)` whenever there are at least two slots.

## Model

| member | source | states |
|---|---|---|
| Sampling.FloydSet | generator/sampling-inl.h:20-27 | Floyd's working set after the draws made so far, the j-th with curr = first + j. Each draw is inserted, or curr is inserted when the draw is already in the set. |
| Sampling.FloydLoop | generator/sampling-inl.h:18-28 | Floyd's loop, for curr from max-k+1 to max, computes `FloydSet` of the draws. The set it ends with has exactly k values, all in [min, max], which is the assertion that closes ycsbr's `FloydSample` loop. |
| Sampling.FloydInvariant | generator/sampling-inl.h:20-27 | Floyd's loop invariant. After the iterations for curr = first .. first+n-1 the set holds exactly n values, and each is at least min and less than first+n. So curr is never in the set yet, and inserting curr on a collision always adds a value. |
| Sampling.FloydStep | generator/sampling-inl.h:22-26 | One iteration: the draw is inserted into the set, or curr is inserted when the draw is already present. |
| Sampling.CopyStep | generator/sampling-inl.h:32-33 | Moving one value of the set into the written prefix keeps these true: the prefix is distinct, it is disjoint from the values not yet copied, and together they make up the set. |
| Sampling.CopyInto | generator/sampling-inl.h:30-34 | Copying the k-element set writes, into dest[start..start+k), exactly the set's values, each once, in unspecified order. Nothing outside the window changes. |
| Sampling.FloydSample | generator/sampling-inl.h:10-35 | The window holds exactly the values of `FloydSet`. They are pairwise distinct and in [min, max], and dest outside the window is unchanged. |
| Sampling.DrawTestAgrees | generator/sampling-inl.h:49-50 | For u in [0, 1) and remaining > 0, w = whole part of remaining*u lies in [0, remaining). For every remaining, ycsbr's test remaining*u < needed holds exactly when w < needed. |
| Sampling.Scale | generator/sampling-inl.h:44-50 | The scaled draws have one entry per candidate. The draw for offset j is a whole number in [0, interval-j). |
| Sampling.ScaleAt | generator/sampling-inl.h:49-50 | On candidate offset c, `SelectionSample`'s test on u agrees with the acceptance test on the scaled draw. |
| Sampling.AcceptCandidate | generator/sampling-inl.h:49-50 | `SelectionSample`'s floating-point test `(interval - curr) * u < needed`, in exact reals, decides the same as `Accepts` on the scaled draw. |
| Sampling.RejectLeavesRoom | generator/sampling-inl.h:49-53 | A rejected candidate leaves more candidates than values still needed. So once the remaining range equals the number still needed, every candidate is accepted, because u < 1. |
| Sampling.Selection | generator/sampling-inl.h:45-54 | The values selection sampling accepts from candidate offset curr on, with `needed` values still to go. An accepted candidate contributes min + curr and lowers `needed` by one, and a rejected candidate is skipped. |
| Sampling.SelectionFacts | generator/sampling-inl.h:45-54 | From candidate offset curr with `needed` values to go, selection sampling yields exactly `needed` values. They are strictly ascending and lie in [min+curr, min+interval-1]. |
| Sampling.Accepted | generator/sampling-inl.h:45-54 | The loop's forward view: the values accepted among the first c candidates. Each candidate is tested against k minus the number accepted before it, as `samples_so_far` counts them. |
| Sampling.AcceptedBound | generator/sampling-inl.h:48-53 | The loop never accepts more than k values. It always leaves at least as many candidates as values still needed, so `curr` never runs past `interval`. |
| Sampling.AcceptedThenSelection | generator/sampling-inl.h:45-54 | After any number c of candidates, the values accepted so far followed by `Selection` from offset c make up the whole sample. The loop therefore computes `Selection`. |
| Sampling.SelectionSample | generator/sampling-inl.h:37-55 | The window dest[start..start+k) is exactly `Selection(min, interval, k, Scale(us), 0)`. Its k values are strictly ascending and lie in [min, max]. Nothing outside the window changes; the loop's invariant keeps `curr <= interval`. |
| Sampling.Resolve | generator/sampling-inl.h:72-78 | The look-up `find` / `end()` on the swapped-index map: the recorded value at x if x has been swapped, otherwise x itself. |
| Sampling.FisherYates | generator/sampling-inl.h:69-86 | The sparse shuffle's state after the i-th step has exactly i emitted offsets. |
| Sampling.Shuffled | generator/sampling-inl.h:65-86 | The dense array that the hash map stands for: [0, n) with position i swapped with draws[i], step by step. It has length n. |
| Sampling.SwapKeepsPermutation | generator/sampling-inl.h:72-85 | Exchanging two positions of a permutation of [0, n) gives a permutation of [0, n). |
| Sampling.FisherYatesInvariant | generator/sampling-inl.h:65-86 | The shuffle invariant. The dense array is a permutation of [0, interval). The emitted offsets are its first i entries. The map-resolved virtual array `x ↦ map.get(x, x)` equals it at every x in [i, interval). |
| Sampling.FisherYatesOutput | generator/sampling-inl.h:69-86 | The shuffle emits k pairwise distinct offsets in [0, interval). |
| Sampling.FisherYatesSample | generator/sampling-inl.h:57-87 | dest[start+i] = min + the i-th emitted offset. The window is pairwise distinct and in [min, max], and dest outside the window is unchanged. |
| Sampling.UseFloyd | generator/sampling-inl.h:95-97 | The selectivity test `k / interval <= 0.05`, multiplied out by the positive interval. It is false on an empty range, where the C++ quotient is a NaN. |
| Sampling.UseFloydIff | generator/sampling-inl.h:93-97 | The selectivity test `k / interval <= 0.05`, in exact reals, holds exactly when interval > 0 and 20*k <= interval. |
| Sampling.SampleWithoutReplacement | generator/sampling-inl.h:89-102 | Floyd's result when the selectivity is at most 0.05, otherwise selection sampling's ascending result. Fisher–Yates is never dispatched. Either way the window holds k distinct values in [min, max], and nothing outside it changes. |
| PhaseState.Chooser.constructor | include/ycsbr/gen/phase.h:88-94 | A key chooser holds an item count (the interface phase.h uses). |
| PhaseState.Chooser.SetItemCount | include/ycsbr/gen/phase.h:35 | Sets the chooser's item count to n. |
| PhaseState.Chooser.IncreaseItemCountBy | include/ycsbr/gen/phase.h:58 | Adds delta to the chooser's item count. |
| PhaseState.Phase.constructor | include/ycsbr/gen/phase.h:15-29 | A new Phase(id) has phase_id = id. Every insert, request and delete counter, all six thresholds and max_scan_length are 0, every chooser is null, and HasNext is false. |
| PhaseState.Phase.HasNext | include/ycsbr/gen/phase.h:31 | True exactly when num_requests_left is not 0. |
| PhaseState.Phase.SetItemCount | include/ycsbr/gen/phase.h:33-54 | Each non-null chooser among read, rmw, negativeread, scan, update and delete gets item count n. The scan-length chooser keeps its count. The phase's own fields, including which choosers are null, are unchanged. |
| PhaseState.Phase.IncreaseItemCountBy | include/ycsbr/gen/phase.h:56-77 | Each of those six non-null choosers grows by exactly delta. The scan-length chooser keeps its count. The phase's own fields are unchanged. |
| ValueGen.ValueGenerator.constructor | include/ycsbr/gen/valuegen.h:15-24 | Requires num_values >= 1 and value_size >= 4. It sets total_size = value_size*num_values, the cursor to 0 and lastindex = total_size - value_size, over a buffer of total_size bytes. |
| ValueGen.ValueGenerator.NextValue | include/ycsbr/gen/valuegen.h:26-33 | Returns the cursor, then moves it on by value_size, back to 0 once it reaches total_size - value_size or beyond. The returned offset is slot `CycleSlot(num_values, calls)` times value_size, and its payload lies in the buffer. With num_values >= 2 it is below lastindex and equals (calls mod (num_values-1)) times value_size; with num_values == 1 it equals lastindex. |
| ValueGen.ValueGenerator.LastValue | include/ycsbr/gen/valuegen.h:36-39 | The tombstone offset lastindex = (num_values-1)*value_size, whose payload ends exactly at the end of the buffer. No state changes. |
| ValueGen.ValueGenerator.ValueSize | include/ycsbr/gen/valuegen.h:42 | The value size fixed at construction: at least 4, and num_values payloads of it fill the buffer. |
| ValueGen.CycleSlot | include/ycsbr/gen/valuegen.h:28-31 | The slot that the m-th NextValue call returns on a fresh generator. Each call moves one slot on, back to slot 0 once the next slot would be the last one. |
| ValueGen.CycleAvoidsTombstone | include/ycsbr/gen/valuegen.h:28-31 | With num_values >= 2 the cursor never reaches the tombstone slot. |
| ValueGen.SingleSlotIsTombstone | include/ycsbr/gen/valuegen.h:23-31 | With num_values == 1 the cursor is always slot 0, which is the tombstone slot. |
| ValueGen.CycleInOrder | include/ycsbr/gen/valuegen.h:26-33 | The first num_values-1 calls return slots 0, 1, ..., num_values-2, in order. |
| ValueGen.CycleAdvance | include/ycsbr/gen/valuegen.h:28-31 | For num_values >= 2 and j < num_values-1: j calls later the slot has moved j places on, wrapping around the num_values-1 cycled slots. |
| ValueGen.CycleSlotMod | include/ycsbr/gen/valuegen.h:26-33 | With num_values >= 2, the slot that the m-th call returns is m mod (num_values-1), in closed form. |
| ValueGen.ModStep | include/ycsbr/gen/valuegen.h:28-31 | Counting one more modulo p moves the remainder on by one and wraps to 0 at p, which is the wrap that NextValue's reset makes. |
| ValueGen.CyclePeriodic | include/ycsbr/gen/valuegen.h:26-33 | After num_values-1 calls the sequence of slots repeats. |
| ValueGen.CycleDistinct | include/ycsbr/gen/valuegen.h:26-33 | Any num_values-1 consecutive calls return pairwise distinct slots. |

## Left out

- Random number generation. The PRNG, `std::uniform_int_distribution`, `std::uniform_real_distribution` and the random payload bytes from `impl::GetRandomBytes` are not modelled. Draws are caller-supplied parameters bounded by preconditions, and the payload bytes are a parameter of the constructor. Uniformity and other statistical claims are not stated.
- Floating point. The double test in selection sampling and the selectivity quotient are evaluated in exact reals. IEEE rounding is not modelled.
- Sampling.UseFloyd: ycsbr's `SampleWithoutReplacement` compares the quotient `k / interval` with 0.05. The model compares k with 0.05*interval, which is the same test over exact reals. An empty range gives the C++ code 0/0, a NaN that compares false, so it chooses selection sampling; the model's `interval > 0` conjunct does the same.
- Fixed-width integers. `size_t` counters are unbounded naturals, and keys of type `T` are unbounded integers, so overflow of `T` is not modelled (for example `++curr` past the maximum of T, or `min + curr`). The `uint32_t` thresholds are the newtype `uint32`, whose values lie in [0, 2^32).
- The `Range` class is not part of this model. It is reduced to its two bounds, with size max - min + 1.
- The destination vector is an array of fixed length, so "the length of dest never changes" holds by construction.
- Floyd's output order. The iteration order of `std::unordered_set` is unspecified. The copy picks each next value arbitrarily, and only membership and distinctness are stated.
- Key-chooser distributions (uniform, Zipfian, ...). `chooser.h` is not part of this model; a chooser keeps only its item count.
- The threshold comparison that picks an operation is not in phase.h. The thresholds are fields only.
- `PhaseID` is `types.h`'s type, which is not part of this model. It is a natural number here.
- `std::unique_ptr` ownership is the `Phase.Valid` condition: no two non-null chooser pointers alias.
- The buffer pointers that NextValue and LastValue return are offsets into `rawValues`.
- tests/overhead_benchmark.cc is benchmark glue. It does file I/O and timing and drives sessions whose code is not shown, so it is not modelled.
- The design intent that NextValue never hands out the tombstone does not hold for num_values == 1. With a single slot the code resets the cursor to 0 on every call, and slot 0 is then the tombstone. The model follows the code: see `SingleSlotIsTombstone` and NextValue's `numValues == 1` postcondition.
