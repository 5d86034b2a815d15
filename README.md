# binoculars utilities: a verified Dafny model

This project models the pure and algorithmic helpers of `lib/ivoxoar/util.py`
in binoculars (the ivoxoar package). It proves what they promise:

- `cluster_jobs` packs weighted jobs into clusters for dispatch.
  - The jobs are sorted by weight (stably).
  - Every job at or over the target weight goes out alone, heaviest first.
  - The rest are packed greedily. Each cluster is seeded with the heaviest
    remaining job, then gets every job, heaviest first, that still fits
    under the target.
- `chunk_slicer` splits `range(count)` into equal slices of at most
  `chunksize` items.
- `grouper` takes an iterator `n` items at a time.
- `parse_range`, `parse_multi_range` and `parse_tuple` are the
  configuration parsers for `"a-b"`, `"1,3-5,8"` and `"x,y,z"` strings.
- `Container` is a one-value mutable holder.
- `_pickle_translate` remaps pre-restructuring class paths when old zpi
  archives are loaded.

Modules:

- `Seqs`: `Flatten`, the in-order concatenation used by `grouper` and
  `parse_multi_range`, and `Reverse`.
- `Text`: `str.split` on a one-character separator, `str.join`, and
  `int()`/`str()` on decimal numerals.
- `Jobs`: `cluster_jobs`.
  - The sort is a stable insertion sort over a `Job(id, weight)` datatype.
  - Each pass of the second outer loop is the imperative method
    `PackCluster`: it pops the seed and runs the whole downward scan, whose
    loop carries the scan invariant.
  - The two outer loops live in the method `ClusterJobs`. It returns the
    clusters the generator yields, in order.
- `Chunks`: `chunk_slicer` as a sequence of `Slice(start, stop)` values.
  `grouper` is a method with a loop over an iterator position.
- `Config`: the parsers, with a `Result` datatype for their `ValueError`s,
  and `Container` as a class.
- `Zpi`: `_pickle_translate`.

Two behaviours of `chunk_slicer` that its docstring does not spell out:

- `chunk_slicer(10, 3)` yields `[0,3) [3,6) [6,9) [9,10)`, because the
  stride is `ceil(10 / 4) == 3`. This is proved in
  `Chunks.ChunkSlicerExample`.
- `chunk_slicer` with `count == 0` divides by zero, so the model requires
  `count > 0`.

Jobs of equal weight leave `cluster_jobs` in a fixed order: the stable sort
keeps them in input order, and both `jobs.pop()` and the downward scan reach
the later input job first. So each weight's jobs come out latest input job
first.

## Model

| member | source | states |
|---|---|---|
| Jobs.Insert | lib/ivoxoar/util.py:140 | inserting a job into a sequence adds exactly that job to its multiset of jobs |
| Jobs.SortByWeight | lib/ivoxoar/util.py:140 | `sorted(jobs, key=weight)` returns a permutation of the jobs in ascending weight order |
| Jobs.InsertSorted | lib/ivoxoar/util.py:140 | inserting into an ascending sequence keeps it ascending |
| Jobs.InsertKeepsWeightOrder | lib/ivoxoar/util.py:140 | an inserted job lands before every job of its own weight, so jobs of equal weight keep their relative order |
| Jobs.SortByWeightStable | lib/ivoxoar/util.py:140 | the sort is stable: for every weight, the jobs of that weight come out in input order |
| Jobs.WithWeightAppend | lib/ivoxoar/util.py:140 | picking out one weight's jobs distributes over concatenation |
| Jobs.PopLatestFirst | lib/ivoxoar/util.py:144-147 | `jobs.pop()` takes the latest job of its weight and leaves the earlier ones in order |
| Jobs.LatestTakenFirstTwice | lib/ivoxoar/util.py:143-153 | two rounds of taking each weight's latest jobs, latest first, are one such round |
| Jobs.RemoveAt | lib/ivoxoar/util.py:152 | `jobs.pop(i)` drops exactly element i: earlier elements stay put, later ones move down one, and the multiset loses one copy of `s[i]` |
| Jobs.RemoveAtSorted | lib/ivoxoar/util.py:152 | popping from an ascending pool leaves it ascending |
| Jobs.Total | lib/ivoxoar/util.py:148-151 | the running `size` of a cluster of non-negative jobs is non-negative and at least the weight of each of its jobs |
| Jobs.TotalSnoc | lib/ivoxoar/util.py:148-151 | appending a job to a cluster adds its weight to the running `size` |
| Jobs.PopHeaviest | lib/ivoxoar/util.py:144 | `jobs.pop()` on the sorted list removes the heaviest job and leaves an ascending rest that is no heavier |
| Jobs.OversizedStep | lib/ivoxoar/util.py:143-144 | popping a job at or over the target as its own cluster keeps the first loop's invariant: the partition holds, the clusters are lone oversized jobs, and each one is heaviest first |
| Jobs.PackingStart | lib/ivoxoar/util.py:143-146 | when the first loop stops, every pooled job is under the target, the clusters so far are well shaped, and the packing loop's invariant holds |
| Jobs.ScanStart | lib/ivoxoar/util.py:147-149 | after the seed is popped, the scan starts with a one-job cluster whose size is the seed's weight and nothing scanned |
| Jobs.StartCluster | lib/ivoxoar/util.py:147-149 | a seed under the target and no lighter than the rest is a one-job cluster within the target, no lighter than any unscanned job, with no job yet rejected |
| Jobs.ScanTake | lib/ivoxoar/util.py:150-152 | taking a job that fits keeps the scan invariant: the pool is split, the size is the cluster's total within the target, the cluster is heaviest first, and (for non-negative weights) the jobs already rejected still do not fit, and every scanned job heavier than a cluster member did not fit when that member was taken; the cluster still holds, of each weight, the pool's latest jobs, latest first |
| Jobs.SkipSameWeight | lib/ivoxoar/util.py:149-150 | a skipped job joins the rejected jobs whose weight still lies ahead of the scan |
| Jobs.TakeSameWeight | lib/ivoxoar/util.py:149-152 | a job that fits is the last of its weight left in the pool, because skipping leaves the size unchanged and an equal job scanned before it would have fitted too |
| Jobs.TakeLatestFirst | lib/ivoxoar/util.py:150-152 | popping the last job of its weight into the cluster keeps each weight's jobs split as the pool's latest, in the cluster latest first, and the earlier ones, in the pool in order |
| Jobs.ScanSkip | lib/ivoxoar/util.py:149-150 | a job that does not fit stays in the pool and is recorded as rejected, and the scan invariant, scan order included, still holds |
| Jobs.SkipScanRejected | lib/ivoxoar/util.py:149-150 | skipping a job keeps the scan-order rule (every scanned job heavier than member k did not fit on top of the first k members): the skipped job outweighs no member |
| Jobs.TakeScanRejected | lib/ivoxoar/util.py:150-152 | taking a job keeps the scan-order rule: a scanned job heavier than the new member was rejected against the cluster the new member joins |
| Jobs.ScanRejectedAll | lib/ivoxoar/util.py:149-152 | once the whole pool is scanned, every job left that is heavier than a cluster member would not have fitted on top of the members before it |
| Jobs.ScanDone | lib/ivoxoar/util.py:149-153 | a finished scan yields a packed cluster seeded with the heaviest job; no remaining job is heavier than the seed, and (for non-negative weights) none fits, and none heavier than a member fitted when that member was taken |
| Jobs.PackCluster | lib/ivoxoar/util.py:147-153 | one pass of the packing loop splits the pool into a packed, heaviest-first cluster seeded with the pool's heaviest job, plus an ascending rest. With non-negative weights, no job of the rest fits into the cluster, and a job of the rest heavier than member k would have pushed the first k members over the target: the scan takes jobs heaviest first, so for weights 6, 4, 3, 3 and target 10 the cluster is 6, 4 and not 6, 3. Of each weight, the cluster holds the pool's latest jobs, latest first, and the rest keeps the earlier ones in order, so which of several equal-weight jobs the cluster takes is fixed |
| Jobs.EmitScanOrder | lib/ivoxoar/util.py:146-153 | emitting a packed cluster keeps the scan-order rule for all clusters so far: a job drawn later and heavier than member k of a packed cluster would not have fitted on top of its first k members |
| Jobs.PackedFromEqualWeights | lib/ivoxoar/util.py:147-153 | with two jobs of weight 3 under a seed of 6 and target 9, a pass that took the earlier job, Job 1, and left Job 2 is not what the scan does |
| Jobs.EmitLatestFirst | lib/ivoxoar/util.py:143-153 | emitting a cluster taken from the pool keeps each weight's emitted jobs in reverse input order ahead of the pooled ones |
| Jobs.SortedNoneTaken | lib/ivoxoar/util.py:140 | by stability, the sorted pool holds each weight's jobs in input order before anything is emitted |
| Jobs.AllTakenLatestFirst | lib/ivoxoar/util.py:146 | once the pool is empty, each weight's jobs were emitted in reverse input order |
| Jobs.PackingStep | lib/ivoxoar/util.py:146-153 | emitting a packed cluster keeps the packing invariant: partition, well-shapedness, heaviest-first order, pooled jobs under the target, greedy maximality, scan order and the order of equal-weight jobs |
| Jobs.ClusterJobs | lib/ivoxoar/util.py:139-153 | the clusters partition the jobs. Each cluster is either one job at or over the target or a non-empty set of jobs under the target whose total is within it, with the lone jobs first. Each cluster is heaviest first, and its first job is at least as heavy as any job of a later cluster. With non-negative weights, no job of a later cluster would have fitted into an earlier packed one, and a later job heavier than member k of a packed cluster would have pushed its first k members over the target, so each cluster takes the heaviest jobs that fit. For every weight, the jobs of that weight come out, across all clusters, in reverse input order, so the output is fixed even among equal weights |
| Chunks.CeilDiv | lib/ivoxoar/util.py:134-135 | `int(numpy.ceil(a / b))` is the q with `(q - 1) * b < a <= q * b` |
| Chunks.ChunkCount | lib/ivoxoar/util.py:134 | chunk_slicer yields at least one slice for a non-empty range |
| Chunks.RealChunkSize | lib/ivoxoar/util.py:135 | `realchunksize` is the least stride whose chunkcount multiples cover count |
| Chunks.ChunkSlicer | lib/ivoxoar/util.py:132-137 | chunk_slicer yields `ceil(count / chunksize)` slices, none ending past count |
| Chunks.StrideBounds | lib/ivoxoar/util.py:134-135 | the stride `realchunksize` is between 1 and chunksize, and chunkcount strides cover count while chunkcount - 1 do not |
| Chunks.SliceAt | lib/ivoxoar/util.py:136-137 | slice i starts at `i * realchunksize`; every slice but the last is one stride long and ends below count; the last one ends at count |
| Chunks.ChunkSlicerTiles | lib/ivoxoar/util.py:132-137 | there are `ceil(count / chunksize)` slices; the first starts at 0, each starts where the previous one stops, and the last stops at count |
| Chunks.ChunkSlicerLengths | lib/ivoxoar/util.py:132-137 | every slice holds between 1 and chunksize items, and all but the last hold exactly `ceil(count / chunkcount)` |
| Chunks.ChunkSlicerCovers | lib/ivoxoar/util.py:132-137 | every index in `[0, count)` lies in some slice |
| Chunks.ChunkSlicerDisjoint | lib/ivoxoar/util.py:132-137 | no index lies in two slices |
| Chunks.ChunkSlicerInRange | lib/ivoxoar/util.py:132-137 | no slice holds an index outside `[0, count)` |
| Chunks.ChunkSlicerExample | lib/ivoxoar/util.py:132-137 | `chunk_slicer(10, 3)` yields `[0,3) [3,6) [6,9) [9,10)` |
| Chunks.Grouper | lib/ivoxoar/util.py:112-117 | for n > 0 the chunks concatenate back to the items; every chunk is non-empty and at most n long, and every chunk but the last is exactly n long. For n == 0 nothing is yielded |
| Text.Split | lib/ivoxoar/util.py:48 | `str.split` always returns at least one piece, and no piece contains the separator |
| Text.JoinSplit | lib/ivoxoar/util.py:48 | joining the pieces of a split with the separator gives back the string |
| Text.SplitJoin | lib/ivoxoar/util.py:48 | splitting separator-free pieces joined with the separator gives back the pieces |
| Text.ParseNat | lib/ivoxoar/util.py:49 | `int()` on a numeral succeeds exactly when the string is non-empty and all digits |
| Text.ParseNatToString | lib/ivoxoar/util.py:49 | `int(str(n)) == n` |
| Text.NatToString | lib/ivoxoar/util.py:65 | `str(n)` on a length is a non-empty string of decimal digits |
| Text.NatToStringInjective | lib/ivoxoar/util.py:65 | different lengths print as different numerals |
| Config.ParseInt | lib/ivoxoar/util.py:49-51 | `int(s)` yields the numeral's value, or a ValueError naming s |
| Config.Interval | lib/ivoxoar/util.py:49 | `range(a, b + 1)` holds `b - a + 1` consecutive integers starting at a, or none when b < a |
| Config.ParseRange | lib/ivoxoar/util.py:46-53 | whatever parse_range returns is a run of consecutive non-negative integers |
| Config.ParseRangeOk | lib/ivoxoar/util.py:46-53 | parse_range succeeds exactly on the empty string, on a numeral without '-', and on two numerals split by a single '-' |
| Config.ParseRangeError | lib/ivoxoar/util.py:46-53 | parse_range's ValueError is either the unpack error counting the pieces, when '-' splits r into other than two pieces, or int()'s error naming the first piece that is not a numeral (int(a) runs before int(b)) |
| Config.ParseFormatRange | lib/ivoxoar/util.py:46-49 | `parse_range("a-b")` yields every integer from a to b inclusive |
| Config.ParseRangeFirstBound | lib/ivoxoar/util.py:48-49 | `parse_range("x-y")` raises int()'s error for "x", the lower bound, not for "y" |
| Config.ParseRangeRejects | lib/ivoxoar/util.py:46-51 | parse_range raises on `"1-2-3"` (three pieces do not unpack into two), on `"4-"` (int of the empty string) and on `"x"` (int of a non-numeral) |
| Config.ParseFormatSingle | lib/ivoxoar/util.py:50-53 | `parse_range("n")` yields `[n]` and `parse_range("")` yields `[]` |
| Config.MultiRange | lib/ivoxoar/util.py:55-60 | every integer parse_multi_range yields is non-negative |
| Config.MultiRangeOk | lib/ivoxoar/util.py:55-60 | parse_multi_range succeeds exactly when parse_range accepts every comma-separated field |
| Config.MultiRangeValues | lib/ivoxoar/util.py:55-60 | on success, parse_multi_range yields every field's values concatenated in field order |
| Config.MultiRangeFirstError | lib/ivoxoar/util.py:55-60 | on failure, parse_multi_range raises the error of the first field parse_range rejects; every earlier field parses |
| Config.MultiRangeErrorStays | lib/ivoxoar/util.py:58-59 | once a field raises, the fields after it change nothing |
| Config.ParseMultiRange | lib/ivoxoar/util.py:55-60 | the loop computes parse_multi_range's result for the fields of `s.split(',')`, whose properties are the three lemmas above |
| Config.ConvertAll | lib/ivoxoar/util.py:63 | `tuple(type(i) for i in fields)` succeeds exactly when every conversion does, and then holds each converted field in order; otherwise it raises the first failing conversion's error |
| Config.TupleLengthMessage | lib/ivoxoar/util.py:65 | the intended length error ends with the numeral of the length it got |
| Config.TupleLengthMessageAsWritten | lib/ivoxoar/util.py:65 | the length error as written is the intended message with the expected length in the place of the actual one |
| Config.TupleWith | lib/ivoxoar/util.py:62-66 | parse_tuple's logic for a given message: success exactly when every field converts and the count matches any length given; the converted fields in order; a count mismatch raises the message for expected and actual count; otherwise the first failing conversion's error |
| Config.ParseTuple | lib/ivoxoar/util.py:62-66 | parse_tuple succeeds exactly when every field converts and, when a length is given, the field count equals it. The value is the converted fields in order. A failing conversion raises the first such error. A count mismatch raises the message as written, "expected L got L" with the expected length L twice |
| Config.ParseTupleIntended | lib/ivoxoar/util.py:62-66 | the same, except that a count mismatch raises "expected L got N" with the actual count N |
| Config.StrTupleLengthError | lib/ivoxoar/util.py:62-66 | with str fields and a count other than the given length, parse_tuple raises its length error for that length and count |
| Config.TupleLengthMessagesTwoThree | lib/ivoxoar/util.py:65 | for 2 expected and 3 found, the message as written reads "expected 2 got 2", the intended one "expected 2 got 3" |
| Config.ParseTupleLengthExample | lib/ivoxoar/util.py:62-66 | `parse_tuple("1,2,3", length=2)` raises "invalid tuple length: expected 2 got 2"; the intended version raises "... expected 2 got 3" |
| Config.TupleLengthMessageAsWrittenHidesGot | lib/ivoxoar/util.py:65 | as written, the length error reads "expected 2 got 2" both for 3 fields and for 5 fields |
| Config.TupleLengthMessageInjective | lib/ivoxoar/util.py:65 | the corrected length error determines both the expected and the actual length |
| Config.Container.constructor | lib/ivoxoar/util.py:96-97 | a new container holds the value it was given |
| Config.Container.Put | lib/ivoxoar/util.py:99-100 | `put` replaces the held value |
| Config.Container.Get | lib/ivoxoar/util.py:102-103 | `get` returns the held value |
| Zpi.PickleTranslate | lib/ivoxoar/util.py:159-162 | the class name is kept. The pair changes exactly when it is `__main__.Space` or `__main__.Axis`, and those move to module `ivoxoar.space` |
| Zpi.PickleTranslateIdempotent | lib/ivoxoar/util.py:159-162 | translating an already translated pair changes nothing |

## Left out

- The status-line helpers, `uniqid`, the python-executable registry, `best_effort_atomic_rename`, and the zpi save/load/unpickler plumbing are left out. They are console, random, process and file I/O. Only the name remap `_pickle_translate` is modelled.
- `Config` and `ConfigurableObject` are left out. They are dynamic attribute plumbing with a printed warning.
- Job weights are exact reals. Floating-point rounding in the running `size` and in `float(count) / chunksize` is not modelled, and `numpy.ceil` is exact integer ceiling division.
- `int()` is modelled on plain decimal numerals only. Signs, surrounding whitespace and underscores are not accepted, and the text of Python's `ValueError` for `int()` is not modelled beyond naming the bad string.
- `parse_tuple`'s `type` is a parameter function into the same `Result` type. Conversions other than `int`/`str` are not modelled.
- `numpy.asarray` is not modelled. parse_multi_range's result is the sequence of integers.
- Generators are modelled as the whole sequence they yield. Laziness and partial consumption are not modelled.
- Chunks.Grouper: the argument is an iterator over a finite sequence. Passing a list (which `islice` would restart each time, so the loop never ends) and negative n (which `islice` rejects) are not modelled.
- Chunks.ChunkSlicer: requires `count > 0` and `chunksize > 0`. The source divides by zero for `count == 0` or `chunksize == 0`; a negative count or chunksize (the arguments are `nat` here) is not modelled.
- Jobs.ClusterJobs: greedy maximality (no later job would have fitted an earlier packed cluster) and the scan order are stated only for non-negative weights. With a negative weight, a job rejected early can fit after a lighter one joins the cluster.
- Config.Container.constructor: the source's default `value=None` is not modelled. Dafny has no None for an arbitrary T, so callers always pass the value.
- Config.ParseRangeError: Python's unpack `ValueError` ("too many values to unpack") does not carry a count. `UnpackMismatch`'s piece count stands in for an error text that is not modelled.
- Jobs.ClusterJobs: jobs are `Job(id, weight)` values. Other job attributes and object identity are not modelled.

## Findings

| source | as written | input that shows it | evidently intended | confidence | as-written member | corrected member |
|---|---|---|---|---|---|---|
| lib/ivoxoar/util.py:65 | the message is `'invalid tuple length: expected {0} got {0}'.format(length, len(t))`, so both slots print `length` | `parse_tuple("1,2,3", length=2)` raises "expected 2 got 2" | the second slot names `len(t)`: "expected 2 got 3" | not executed | Config.ParseTupleLengthExample | Config.ParseTupleIntended |
