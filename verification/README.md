# A verified model of sdkd-cxx

sdkd-cxx is a daemon that runs key/value workloads against Couchbase on behalf
of a test harness and reports timing results. This project models the stateful
parts of it in Dafny 4.11 and proves what holds over whole runs. Check it with
`dafny verify dfyconfig.toml`.

| file | what it models |
|---|---|
| `Prelude.dfy`, `Arith.dfy`, `Decimal.dfy` | 32-bit integers and other shared types; arithmetic facts; printing and reading decimal numerals |
| `Dataset.dfy` | `_fill_repeat`, the datasets and their iterators (src/Dataset.cpp, src/SDDataset.cpp, src/N1QLDataset.cpp, src/FTSDataset.cpp, src/CBASDataset.cpp) |
| `Keys.dfy` | when the items of a dataset have distinct keys |
| `Float32.dfy` | binary32 rounding (IEEE 754-2008, sections 3.4 and 4.3.1), for the float division in `getCollection` |
| `Collections.dfy`, `GenerationRace.dfy` | `generateCollections` (src/Collections.cpp), and several workers that call it |
| `Routing.dfy`, `SeededRouting.dfy` | `getCollection` (src/Handle.cpp), and what it makes of seeded keys |
| `Timeline.dfy` | the timeline of a run as a function of all its results |
| `Percentile.dfy` | `getPercentile` (src/ResultSet.h) |
| `ResultSet.dfy` | `setRescode`, `clear`, `resultsJson` (src/ResultSet.cpp) |
| `Handle.dfy` | the `ds*` operations, `postsubmit`, `collect_result`, `drainPendingFutures`, `processRequest` |
| `Report.dfy` | what a report says, from the outcomes and clock readings of the run |
| `Interleaving.dfy` | one operation and a cancelling thread, step by step |
| `Loaders.dfy` | the N1QL/SD/FTS/CBAS loaders and the view loader |
| `Framing.dfy` | `IOProtoHandler`: lines from recv chunks, partial sends (src/IODispatch.cpp) |
| `Lifetime.dfy` | `h2wmap`, workers and handles under register, cancel, exit and collect |
| `Composition.dfy` | what follows for a seeded dataset from the pieces together |

## Modelling decisions

- Objects the source updates in place are classes (`ResultSet`, `Handle`,
  `DatasetIterator`, `Collections`, `ViewLoader`, `IOProtoHandler`); their methods
  keep the source's branches and loops, and are proved against functions of the
  whole history. Long source functions are cut into several methods.
- The outside world is an oracle. `Environment` gives the error code of the k-th
  submission, the clock at the k-th result, and whether a cancel step lands
  between two readings of `do_cancel`; `IOProtoHandler` has scripts of what
  `recv`, `send` and `select` return; `Collections.fails` says which creation
  requests fail. All theorems hold for every oracle.
- `time_total`, `time_min` and `time_max` are unsigned 32-bit quantities and are
  modelled modulo 2^32; durations may be negative. A `timeres` of 0 becomes 1 at
  the first result, as in the code.
- A `cur_wintime` of 0 means "unset" in the code, so results in frame zero get a
  window each. The timeline includes this; `RegularIff` says when it matters.
- `limit - 1` in `_fill_repeat` is unsigned, so a size of 0 (a missing size) asks
  for 2^32 - 1 characters; `Target` models the wrap-around.
- `getCollection` converts the length of the key to int, so of a key of 2^31 or
  more characters it can keep all; `LastThree` models the conversion. For lengths
  of 2^31 up to 2^31 + 2 (modulo 2^32) the source subtracts 3 from an int below
  INT_MIN + 3, which is undefined; the model keeps the whole key. `scopes` and
  `collections` are 64-bit in the product (`unsigned long`).
- `getPercentile` multiplies two ints. The size is converted modulo 2^32, and a
  product that overflows is undefined: the percentile is then `None`, as when the
  code indexes outside its vector.
- `m_pFactor` is a static member, which every worker that creates a `ResultSet`
  sets: a report takes the factor in force at each window as an input.
- `GenerateCollections` is one call by itself. The singleton is shared by all
  workers, and its flag is loaded and stored in two steps; `GenerationRace` models
  these. A worker that finds the flag set returns while another may still create.
- The iterwait guard of `processRequest` looks at seeded datasets only, although
  its message speaks of continuous ones; `GuardBounds` says what this lets through.
- The documents of N1QL, FTS and CBAS datasets, and the one a sub-document dataset
  loads, are an input, since the JSON library makes them; their keys are modelled, with an N1QL field called "id"
  overwriting the key. An N1QL dataset with more parameters than values, which
  the source reads past the end of, is not represented.
- The comment in `DatasetSeededIterator::done` says that continuous iterators
  return true; the code returns false, and so does the model.
- `std::stoi` without a digit or past INT_MAX and a remainder by zero collections
  are `None` in `GetCollection`; operations require that no key of the dataset runs
  into them (`Routable`), since the exception ends the process.
- The lookup of CANCEL in src/Control.cpp:168 is not under `wmutex`, and
  `cur_handle` is set outside `hmutex`; `Lifetime` takes both to be atomic.

## Model

| member | source | states |
|---|---|---|
| Datasets.FillRepeat | src/Dataset.cpp:249-266 | the loop computes base followed by the least number of copies of repeat+index reaching limit-1, for every 32-bit limit |
| Datasets.CopiesLeast | src/Dataset.cpp:260-263 | that number of copies is the least one, at least 1, for which the length reaches the target |
| Datasets.FilledBounds | src/Dataset.cpp:249-266 | for sizes of at least 1 the length is at least size-1 and overshoots by less than one extension, unless one copy was enough; the result is base and k >= 1 whole copies |
| Datasets.SeededItem | src/Dataset.cpp:278-290 | key and value of a seeded item, character by character: the seed of each, then copies of repeat followed by the numeral of the index, as few as reach the size of each |
| Datasets.InlineItem | src/Dataset.cpp:168-178 | an inline item has its own key, and the value of the last item up to it that has one, or none |
| Datasets.NumberedItem | src/N1QLDataset.cpp:90-106 | sub-document and record items have the numeral of their index as an int for a key, unless fields are called id: then what the last of them says |
| Keys.SeededKeysInjective | src/Dataset.cpp:249-266 | with a non-digit in repeat, equal keys come from equal indices, for every seed and size |
| Keys.KeysDistinctIff | src/Dataset.cpp:249-266 | keys are distinct for all seeds, sizes and 32-bit indices exactly if repeat has a non-digit, or has nine or more digits and no period of at most nine that the numerals of two 32-bit indices of different lengths continue, within reach of a 32-bit size |
| Keys.CommonPeriod | src/Dataset.cpp:249-266 | two extensions whose copies make the same string are powers of one word, as long as the greatest common divisor of their lengths |
| Keys.ShortDigitsCollide | src/Dataset.cpp:249-266 | for every all-digit repeat of up to eight digits two 32-bit indices share a key |
| Keys.PeriodicDigitsCollide | src/Dataset.cpp:249-266 | such a period of a longer all-digit repeat makes two 32-bit indices share a key |
| Keys.NineDigitsDistinct | src/Dataset.cpp:249-266 | the all-digit repeat 123456789 keeps all keys apart |
| Keys.ItemKeysDistinctIff | src/Dataset.cpp:249-266 | the keys of one dataset are distinct exactly if no word of at most nine characters reads repeat and, with whole copies, the numerals of two of its items of different lengths whose keys are equally long |
| Keys.RecordKeysDistinctIff | src/N1QLDataset.cpp:90-106 | N1QL keys are distinct exactly if no field is called id |
| Datasets.IndexAfterClosedForm | src/Dataset.cpp:268-305 | after n advances a continuous iterator is at n mod count, a finite one at n, and it is done exactly from count on |
| Datasets.VisitsItems | src/Dataset.cpp:268-305 | for every kind of dataset which items are visited and when the iterator is done: inline items once, the others over and over if they say so |
| Datasets.DatasetIterator.Start | src/Dataset.cpp:124-129 | curidx, key and value are those of index 0 |
| Datasets.DatasetIterator.Advance | src/Dataset.cpp:131-135 | one more step, with wrap-around for continuous datasets; key and value follow |
| Datasets.DatasetIterator.Done | src/Dataset.cpp:293-305 | true exactly at the end of a finite dataset |
| Datasets.DatasetIterator.InitData | src/Dataset.cpp:168-178 | key, value, path and command of an index for every kind of dataset, including the value an inline item without one inherits; only a sub-document dataset to be run has a command |
| Float32.RoundNearest | src/Handle.cpp:528 | the executable rounding returns a binary32 number no farther from x than any other |
| Float32.TiesToEven | src/Handle.cpp:528 | of two nearest binary32 numbers it returns the one that is an even multiple of their difference |
| Float32.FloatFloorDivision | src/Handle.cpp:528 | for any nearest rounding of both operands and the quotient, and numerators up to 2^24, the floor of the float quotient is the integer quotient, unless 2^24 is divided by 2^24 + 1 |
| Float32.FloorQuotientExactIff | src/Handle.cpp:528 | the scope number computed in binary32 is collection / collections for collection numbers up to 2^24 and every unsigned divisor, except exactly for 2^24 and 2^24 + 1 |
| Float32.ExactUpToIff | src/Handle.cpp:528 | all numerators up to m are divided exactly by every unsigned divisor exactly if m < 2^24 |
| Float32.FloorQuotientInexact | src/Handle.cpp:528 | 2^24 + 1 divided by 1 is not 2^24 + 1 |
| CollectionPlan.PlanMember | src/Collections.cpp:33-47 | a pair is created exactly if it is collection j in scope j / collections with that scope below scopes |
| CollectionPlan.PlanOrder | src/Collections.cpp:33-47 | the k-th request of the plan: every scope is created just before its collections, which are numbered on from scope to scope; nothing else is requested |
| CollectionPlan.Collections.GenerateCollections | src/Collections.cpp:26-53 | the first call requests the plan up to the first failure and reports whether there was none; later calls request nothing and return false |
| CollectionPlan.Collections.GenerateScopes | src/Collections.cpp:33-47 | the nested loops make the requests of the plan in order and stop at the first failure |
| GenerationRace.SomeoneCreates | src/Collections.cpp:29-30 | when n >= 1 workers are past the flag, at least one of them creates |
| GenerationRace.OneCreatorIff | src/Collections.cpp:29-30 | exactly one does in every interleaving exactly if n = 1; of more, all can |
| GenerationRace.CreatesIff | src/Collections.cpp:29-30 | in every interleaving the workers that create are exactly those that loaded the flag before it was first stored |
| CollectionPlan.AttemptsStop | src/Collections.cpp:36-45 | a failure in the front part of the plan hides all later requests |
| Routing.RouteExact | src/Handle.cpp:519-534 | for every key whose length is an int, the pair is the collection number and the scope that number belongs to by integer division |
| Routing.DefaultIff | src/Handle.cpp:519-522 | the pair is the default collection of the default scope exactly without collections or for an empty key; any other pair is two numerals |
| Routing.RoutingFails | src/Handle.cpp:525-527 | routing throws exactly without a digit in what is kept of the key, with a number past INT_MAX, or without collections; at most three characters are kept of a key whose length is an int |
| Routing.EveryKeyCreatedIff | src/Handle.cpp:519-534 | all keys of any length that route name created pairs exactly if both options survive the conversion to int and the float division finds the scope of every collection number |
| Routing.RoutedIsCreated | src/Handle.cpp:519-534 | for up to 2^24 + 1 collections that is so exactly if they are not 2^24 + 1 in one scope |
| Routing.RoutingLimit | src/Handle.cpp:519-534 | all keys of any length are routed to created pairs, for every split into scopes, exactly up to 2^24 collections |
| Routing.MisroutedKey | src/Handle.cpp:519-534 | a key that is sent to scope 1 where only scope 0 was created |
| Routing.RoutingAgreesWithCreation | src/Handle.cpp:519-534 | for a key whose length is an int: exactly if both options survive the conversion to int |
| SeededRouting.SeededKeyNumber | src/Handle.cpp:525-526 | under the condition of NumbersFollowIff the number read from a seeded key is its index mod 1000 |
| SeededRouting.NumbersFollowIff | src/Handle.cpp:525-526 | for each seed, size and repeat: all 32-bit indices are read as index mod 1000 exactly if the keys of 1 to 10 digit indices are shorter than 2^31 and the two characters before the numeral are no digits or 0 |
| SeededRouting.ReadableIff | src/Handle.cpp:525-526 | the same for a seeded dataset and its items |
| SeededRouting.SizesFit | src/Dataset.cpp:249-266 | a size of at least 1 keeps the keys that short if it, the seed and repeat are |
| SeededRouting.SizeZeroMisreads | src/Handle.cpp:525-526 | a size of 0 or above 2^31 makes keys be misread, whatever the seed and repeat |
| SeededRouting.NumberedKeyNumber | src/SDDataset.cpp:93 | a numbered key is read as its index mod 1000 below 2^31, and as that of a negative number from there on |
| SeededRouting.SeededRoute | src/Handle.cpp:519-534 | under that condition item idx goes to collection (idx mod 1000) mod (scopes * collections) and its scope |
| SeededRouting.CoversIff | src/Handle.cpp:519-534 | under that condition every created collection receives an item exactly if there are at most 1000 of them and at most count |
| Timeline.SlotStep | src/ResultSet.cpp:104-122 | the window of one more result, whatever the clock does: the latest frame moves by the number of windows opened |
| Timeline.HistogramGrows | src/ResultSet.cpp:104-132 | opening windows and adding to the last one turns the timeline of a run into that of the run with one more result |
| Timeline.ResultInItsWindow | src/ResultSet.cpp:124-132 | the k-th result is in the window given by the running maximum of the frames up to it |
| Timeline.WindowConsistency | src/ResultSet.cpp:124-132 | count, durations and error counts of a window agree with its results; min and max are attained bounds, total is the sum mod 2^32; a window without results has zero totals and extremes and no counters |
| Timeline.Conservation | src/ResultSet.cpp:75-132 | window counts and stats both add up to the number of results, and error by error the windows add up to stats |
| Timeline.EachInOneWindow | src/ResultSet.cpp:104-132 | every result is in exactly one window |
| Timeline.RegularIff | src/ResultSet.cpp:97-132 | windows number (latest frame - win_begin)/T + 1 and result k sits (running maximum - win_begin)/T after the first, exactly if there is one result or the first is not in frame zero |
| Results.RepresentsNext | src/ResultSet.cpp:64-133 | counters and windows that are those of a run become those of the longer run |
| Results.ResultSet.SetRescode | src/ResultSet.cpp:63-133 | after every call the incremental state is the tally and the timeline of all results since clear(), and remaining is one less |
| Results.ResultSet.OpenWindow | src/ResultSet.cpp:104-122 | the gap-filling loop stops exactly at the current frame, with an unset minimum in the last window only |
| Results.ResultSet.Clear | src/ResultSet.h:168-178 | the state of an empty run |
| Results.ResultSet.ResultsJson | src/ResultSet.cpp:138-207 | the report is a function of the results and of the percentile factor in force at each window; StatsAre, WindowOfRun and ReportOfRun say what that function reports |
| Results.ReportSound | src/ResultSet.cpp:180-200 | in a reported window with results avg <= max; min <= avg unless the total overflows; the percentile is between min and max for factors from 50 to 100 whose product with the count is an int, if the durations fit 32 bits |
| Reports.StatsAre | src/ResultSet.cpp:71-75 | under every text the counters of a run have the number of its submissions that failed with this text, and under success also of those that succeeded; texts without any are absent |
| Reports.WindowOfRun | src/ResultSet.cpp:124-200 | for every reported window the results it stands for, and from their durations and error codes alone: count, minimum and maximum as attained bounds, avg as the quotient of the wrapped total rounded down, all 0 without results, the percentile, and every error counter |
| Reports.ReportOfRun | src/ResultSet.cpp:138-207 | stats count all results; timings are left out exactly without a resolution and results; base is the start of the frame of the first result outside frame zero, or 0, step the resolution asked for, or 1, and the windows are all those of the run |
| Percentiles.InRangeIff | src/ResultSet.h:164-165 | the index is inside the vector exactly if 100 <= n*p < 100*(n+1) and n*p is an int |
| Percentiles.DefinedIff | src/ResultSet.h:154-166 | a factor gives a defined percentile for every vector of up to n >= 100 durations exactly if it is from 50 to 100 and n*p is an int |
| Percentiles.OrderStatistic | src/ResultSet.h:154-166 | the percentile is one of the durations, or 0 without any; of two or more, at least floor(n*p/100) are at most it and at least n - floor(n*p/100) + 1 at least it |
| Percentiles.PermutationInvariant | src/ResultSet.h:154-166 | the order of the durations does not matter |
| Percentiles.Monotone | src/ResultSet.h:154-166 | a larger factor never gives a smaller percentile |
| Pipeline.Handle.DrainPendingFutures | src/Handle.h:197-204 | records the results of all pending futures in order and leaves none |
| Pipeline.Handle.Postsubmit | src/Handle.cpp:178-201 | buffers exactly while iterwait is 0 or the count is positive and below it, and drains otherwise |
| Pipeline.Handle.CollectResult | src/Handle.cpp:162-176 | drains unless remaining is 0 |
| Pipeline.Handle.DsGet | src/Handle.cpp:203-228 | on return nothing is pending, remaining is 0, exactly the submissions are recorded in order, and the most futures in flight were min(iterwait, n), or n without iterwait |
| Pipeline.Handle.DsMutate | src/Handle.cpp:230-285 | the same, and false with nothing submitted for a command that is no mutation |
| Pipeline.Handle.DsKeyop | src/Handle.cpp:414-444 | the same as DsGet |
| Pipeline.Handle.DsSDSinglePath | src/Handle.cpp:446-505 | the same if the command of the dataset is one of the eight it knows; otherwise nothing is submitted and remaining ends at the number of items |
| Pipeline.CompleteIff | src/Handle.cpp:211 | a finite dataset is submitted completely exactly if no cancel lands before its last item is submitted |
| Pipeline.WithoutCollections | src/Handle.cpp:519-522 | without collections every dataset can be routed and every submission names the default collection |
| Pipeline.StatsFromOutcomes | src/ResultSet.cpp:71-75 | the counters depend on the error codes alone |
| Pipeline.EndToEnd | src/Worker.cpp:304-312 | stats and window counts of the report add up to the number of items submitted, the only one possible, and the dataset's size when finite and not cancelled |
| Pipeline.InFlightIff | src/Handle.cpp:178-201 | the futures in flight of a request stay within iterwait, or count without it, exactly if it does not submit the items of a continuous dataset without iterwait, and otherwise exceed any bound |
| Pipeline.GuardBounds | src/Worker.cpp:188-198 | an accepted request has bounded futures in flight exactly if it does not submit the items of a continuous sub-document or N1QL dataset without iterwait |
| Pipeline.AcceptedUnbounded | src/Worker.cpp:188-198 | one request that is accepted and exceeds any bound |
| Pipeline.ProcessRequest | src/Worker.cpp:188-312 | rejects exactly seeded continuous datasets without iterwait; otherwise reports the run of the operation, with the exact peak of its futures, and leaves none |
| Interleaving.Reachable | src/Handle.cpp:203-228 | the invariant of every state of every interleaving of the operation with cancel steps |
| Interleaving.BoundedInFlight | src/Handle.cpp:178-201 | at any time at most iterwait futures are pending, or count without iterwait |
| Interleaving.DrainsFullBatches | src/Handle.cpp:178-201 | in every interleaving the loop drains after a submission exactly if the number of submissions is a multiple of a positive iterwait, and then one full batch |
| Interleaving.LeavesLoop | src/Handle.cpp:162-228 | the loop is left exactly at the end of a finite dataset or after a cancel step, with a drain exactly if something is pending |
| Interleaving.InFlightIff | src/Handle.cpp:178-201 | over all interleavings pending futures are bounded exactly if not (continuous and no iterwait) |
| Interleaving.ReturnsClean | src/Handle.cpp:162-228 | on return nothing is pending, remaining is 0, the submissions are recorded in order; all of them without a cancel after the reset, and at most one item after it otherwise |
| Interleaving.BatchingTransparent | src/Handle.cpp:178-201 | two runs in any batches record one a prefix of the other, and the same if neither is cancelled |
| Interleaving.Terminates | src/Handle.cpp:203-228 | a finite or cancelled operation returns within a bounded number of its own steps in every interleaving |
| Interleaving.CancelReturnsSoon | src/Handle.cpp:507-515 | after a cancel that bound is linear in the pending futures, also for continuous datasets |
| Loaders.Populate | src/N1QLLoader.cpp:5-35 | true exactly if the dataset is finite and no item up to index 100*floor((n-1)/100) failed; on false, also for continuous datasets, it stopped at the first failing batch and submitted nothing past it; at most 100 futures pending, none on return |
| Loaders.ReturnsIff | src/N1QLLoader.cpp:12-30 | a loader returns exactly if the dataset is finite or some item fails |
| Loaders.CheckedMeaning | src/N1QLLoader.cpp:22-28 | the items a check in the loop has looked at are those up to the last index divisible by 100 |
| Loaders.ViewLoader.FlushValues | src/ViewLoader.cpp:14-31 | uploads the values in order and records the failures among them |
| Loaders.ViewLoader.PopulateViewData | src/ViewLoader.cpp:33-67 | every item is uploaded once in order, the failures alone are recorded so remaining ends at minus their number, and the last partial batch stays in values |
| Framing.JoinSplit | src/IODispatch.cpp:76-86 | lines and tail make up the bytes again and contain no newline |
| Framing.SplitJoin | src/IODispatch.cpp:76-86 | newline-free lines and tail are the only split of their concatenation |
| Protocol.IOProtoHandler.ReadSocket | src/IODispatch.cpp:69-89 | takes the data recv returns, byte by byte, into lines and the unterminated tail, until recv first returns no data |
| Protocol.IOProtoHandler.GetRawMessage | src/IODispatch.cpp:93-135 | OK gives the next non-empty line; NOTYET and ERR come only with no complete line left, after a would-block or a close or error; terminates on every script |
| Protocol.ChunkIndependent | src/IODispatch.cpp:69-135 | messages delivered and queued, and the unterminated tail, depend on the bytes alone, not on the chunks |
| Protocol.IOProtoHandler.WriteResponse | src/IODispatch.cpp:241-251 | queues one newline-terminated line |
| Protocol.IOProtoHandler.FlushBuffer | src/IODispatch.cpp:168-213 | what was sent is the first bytes of outbuf, as many as the logged sends accepted, each up to its limit and the rest on offer; the others stay in outbuf; it sends again exactly after a partial send or an interrupt; 0 exactly if all is sent or the socket would block |
| Protocol.IOProtoHandler.SendAll | src/IODispatch.cpp:168-213 | the loop sends just what the sends accept |
| Protocol.IOProtoHandler.FlushBufferBlock | src/IODispatch.cpp:215-239 | the same bytes over all its flushes; one flush for each time select is ready and none after an interrupt; it stops at the first failure of select or send; 0 exactly when everything written was sent, -1 only after such a failure |
| Protocol.WireRoundTrip | src/IODispatch.cpp:69-251 | a reader of any part of a writer's bytes delivers a prefix of the messages written, and all of them in the end |
| Lifetime.Reachable | src/Control.cpp:52-66 | the invariant of every interleaving with non-zero handle ids |
| Lifetime.SafeIff | src/Worker.cpp:380-395 | no run with these ids ever has a dangling pointer, a use of a destroyed handle or a destruction by another thread, exactly if 0 is not among them |
| Lifetime.NothingLeaks | src/Worker.cpp:388-394 | when all workers are collected every handle was destroyed exactly once, by its own worker, and h2wmap holds null pointers only |
| Lifetime.CancelReaches | src/Control.cpp:167-176 | with distinct ids CANCEL with a registered id cancels that handle and no other, whatever steps come between lookup and call |
| Lifetime.CancelledIff | src/Worker.cpp:402-409 | over all runs with non-zero ids a handle is cancelled exactly if its worker has destroyed it or a CANCEL call reached the worker while it held it |
| Lifetime.LookupOfUnknown | src/Control.cpp:167-176 | CANCEL with an id nobody is registered under calls no worker; it leaves a null pointer under the id and changes nothing else |
| Lifetime.CancelChildReaches | src/Control.cpp:29-33 | a call of the control thread on one of its workers cancels the handle the worker holds and no other, whatever comes between |
| Lifetime.CancelPossible | src/Control.cpp:167-176 | both can be done at once whenever no other call is in progress |
| Lifetime.CanAlwaysEnd | src/Control.cpp:27-35 | from every reachable state at most five steps for each worker, and one for a call in progress, end all workers, destroy every handle and leave null pointers only in h2wmap |
| Composition.InterleavedRecords | src/Handle.cpp:203-228 | every interleaving records what the operation records by itself, with the same outcomes and clock, when it is cancelled at the item the interleaving stops at |
| Composition.InterleavedEndToEnd | src/Handle.cpp:162-228 | after every interleaving window counts and stats add up to the items submitted, all of a finite dataset if not cancelled after the reset |
| Composition.SameStats | src/Handle.cpp:178-201 | the final counters are the same for all batch sizes, interleavings and clocks |
| Composition.SeededRoutable | src/Handle.cpp:519-534 | under the condition of NumbersFollowIff no key of a seeded dataset makes getCollection throw |
| Composition.SeededSubmissions | src/Handle.cpp:211-217 | under the conditions of NumbersFollowIff and ItemKeysDistinctIff a finite seeded dataset submits no key twice and item k to its closed-form collection |
| Composition.ContinuousCycles | src/Dataset.cpp:268-276 | a continuous dataset is submitted over and over in the same order |

## Left out

- SetRescode: `stats`, `count` and `remaining` do not overflow in the model; `fullstats`, which is never reported, and the key arguments are not modelled.
- SetRescode: the duration is an input, measured from the last `markBegin`; what it means for a single item of a batch is not modelled.
- GenerateScopes: `i * collections` is not limited to 32 bits, since its overflow is undefined in the source.
- PermutationInvariant: a vector whose size converts to 1 without being 1 is excluded; the order statistics are stated for sizes that are an int.
- ProcessRequest: requests without a dataset or a handle, references to registered datasets, loaders and error responses for bad datasets are not part of it; a continuous dataset must be cancelled at some time for it to return, and no key may make `getCollection` throw.
- DsSDSinglePath: the kind of request, its path and value are not modelled; a submission is a key and a collection.
- DsMutate: the same of its kind, value, expiry and flags.
- DsKeyop: whether it removes or touches is not modelled.
- Populate: the iterator the source does not free on failure is not modelled, and the int counter does not overflow; a continuous dataset without a failing item, on which it never returns (not even after a cancel), is excluded.
- PopulateViewData: the JSON document built from the schema is represented by its key and sequence number; continuous datasets, on which it never returns, are excluded.
- FlushBufferBlock: `select` fails when its script has run out, where the source would block.
- Sort: stands for `std::sort`; its algorithm is not that of any C++ library.
- Sockets, threads, timers, TTL, usage collection, log upload, build scripts: input and output only.
- The Couchbase client and jsoncpp are not part of this model; an operation ends with an arbitrary error code.
- `getDelay` and the sleep in `postsubmit`, option parsing, error code tables and the query executors: simple or wrappers around the client.
- The registry of named datasets: nothing is ever inserted into it, since only references carry an id and no dataset is built for them.
- That queued requests are served without new input is not claimed: one line is taken per readiness of the socket.
