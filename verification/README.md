# Verification of aerospike-py

A Dafny model of the parts of the aerospike-py client where state, arithmetic or recursion make
mistakes easy, with proofs of what they promise. `dafny verify dfyconfig.toml` checks everything.

| Part | Source | Modules |
|---|---|---|
| Batch results and result codes | `rust/src/errors.rs`, aerospike-core | `BatchResults` |
| Batch-write retry driver | `rust/src/client_ops.rs` | `RetryDriver`, `RetryLedger`, `RetryStore`, `RetryForeign`, `RetryTiming` |
| Async lifecycle and operation limiter | `rust/src/async_client.rs`, `rust/src/backpressure.rs` | `AsyncLifecycle`, `AsyncClient` |
| Expression builders and converter | `src/aerospike_py/exp.py`, `rust/src/expressions.rs` | `ExprConverter`, `ExprUnfolding`, `ExprBuilder` |
| NumPy buffer codec | `rust/src/numpy_support.rs` | `ByteCodec`, `NumpyFields`, `NumpyFill`, `NumpyRows`, `NumpyRecords`, `NumpyRoundTrip`, `NumpyReading`, `NumpyValues`, `NumpyBounds` |
| Batch views and their cache | `rust/src/batch_types.rs` | `BatchViews`, `DictCache` |
| Query collecting and streaming | `rust/src/query.rs` | `QueryStream` |
| Operation lists and batch routing | `rust/src/operations.rs`, `rust/src/client_common.rs` | `OpRouting` |
| The logged `gh` command | `rust/src/bug_report.rs` | `ShellQuote` |

How the environment enters: the driver's clock, jitter, sleeps and replies are a script of turns,
one for each possible attempt, and results hold for every script; the server is any process that
applies only what was sent and answers Ok only for what it applied. Lifecycle futures, cancellation
and Python calls are events that interleave in any order. Python objects are nodes of a heap, so
cyclic expression dicts and shared inner dicts exist in the model. Dicts that callers hold may change
between any two calls, and outer and inner dicts are known by reference. Conversions between
floating-point formats are functions on bit patterns of which one law is assumed: narrowing undoes
the widening of a finite number.

## Findings

Documented claims that do not hold of the code in general, each with the exact condition under which they do.

- Re-driving a batch is said to be safe because every operation is an idempotent put
  (`rust/src/client_ops.rs:373-378`). It is safe exactly when no two records of the batch put
  different values on the same bin of the same key (`RetryStore.RedriveSafeIff`,
  `RetryStore.RepeatedKeyCounterexample`). Among other clients it can be told from a single delivery
  exactly when some put disputes a bin of a record: another client's put that lands between two
  deliveries is then lost (`RetryForeign.RedriveInvisibleIff`, `RetryForeign.LostPutExample`). In every
  case an all-Ok run leaves the store of one pass, with each record put once, at its last application
  (`RetryForeign.AllOkIsOnePass`).
- With no retries, the fast path reports `unresolved` as 0 even when records came back with
  retryable codes; it agrees with the driver exactly when none did (`RetryLedger.FastPathAgreement`,
  `RetryLedger.FastPathHidesTimeout`).
- The connect guard is said to keep an awaitable that is dropped before it completes from leaving the
  client connecting for ever. It is created inside the future's body, so it protects only a future that
  was polled: one dropped before its first poll leaves the client connecting, and a close future dropped
  before its final store leaves it closing (`AsyncLifecycle.UnpolledDropWedges`,
  `AsyncLifecycle.DroppedCloseWedges`; whether the runtime ever drops a future that early is outside
  the model). A third way needs no future at all: `max_concurrent_operations` is not bounded when it is
  parsed (`rust/src/policy/client_policy.rs:68-78`), and above tokio's largest semaphore, 2^61 - 1 permits
  on a 64-bit host, making the limiter panics after the state has become connecting
  (`AsyncLifecycle.OversizedLimitExample`). A client can get back to disconnected exactly when none of the
  three happened (`AsyncLifecycle.RecoverableIff`), and with limits within the bound exactly when neither
  of the first two did (`AsyncLifecycle.RecoverableWithinLimits`).
- `__len__` is documented to match the size of `to_dict()`. It does exactly when no two qualifying user
  keys are equal in Python: the same key in two sets, but also 1, 1.0 and True, which an explicit digest
  lets through as keys (`BatchViews.ViewSizes`, `BatchViews.EqualKeysShrinkDict`,
  `BatchViews.SharedEntries`).
- `to_dict` is documented to return a copy that callers can mutate freely. The copy is shallow:
  changing a bins dict inside it changes later dict reads exactly when the cache still refers to that
  dict (`DictCache.InnerMutationHarmlessIff`, `DictCache.ToDictSharesBins`). Changing the outer dict is
  invisible, because no run ever hands out the cached one (`DictCache.CacheNeverHanded`,
  `DictCache.OuterMutationInvisible`); of a dict that was the cached one it would not be
  (`DictCache.OuterMutationShowsIff`).
- `foreach` and `results` report different errors exactly when a record that cannot be converted comes
  before a stream error (`QueryStream.StreamingRefinesCollecting`, `QueryStream.MaskedConversionExample`).
- The dtype check promises that no field is overrun (`rust/src/numpy_support.rs:118-121`). It compares
  the field's own size with the row, while loads and stores of a numeric field access one whole base
  scalar. A field that passes is overrun exactly when it is shorter than a base scalar that can be
  stored, which among the dtypes that NumPy makes means a zero-length sub-array such as
  `('v', 'i4', (0,))`; stores stay in the buffer exactly when the scalar still ends within the row
  (`NumpyRows.CheckedFieldOverrunsIff`, `NumpyRows.ZeroLengthSubArrayOverruns`,
  `NumpyFields.ShortMeansEmpty`, `NumpyFields.StaysInBufferIff`).
- `batch_write_numpy` takes the dtype apart from the array (`rust/src/client.rs:1255-1278`), and nothing
  compares the two. With a dtype no wider than the array's items only the array is read; a wider one
  makes records out of memory that the array does not own. For a packed array whose dtype is filled by its
  fields that happens exactly when the dtype is wider than the items, for a slice exactly when its highest
  item leaves too little room (`NumpyBounds.NarrowDtypeInBounds`, `NumpyBounds.PackedWholeRowsIff`,
  `NumpyBounds.SliceInBoundsIff`, `NumpyBounds.WiderDtypeReadsForeignBytes`).
- The dtype check does not ask for disjoint fields. The row then depends on the order in which a hash
  map yields the bins exactly when stores of two fields share a byte (`NumpyRows.OrderIndependentIff`,
  `NumpyRows.OverlapDependsOnOrder`). Which error a bad record reports depends on that order too, unless
  all its bad bins fail for one reason (`NumpyRows.ErrorIndependentIff`).

## Model

| member | source | states |
|---|---|---|
| BatchResults.WireCode | rust/src/errors.rs:217-292 | the wire code is 0 exactly for a success, and a missing code is one |
| RetryDriver.CollectRetryableIndices | rust/src/client_ops.rs:354-364 | the out vector is strictly increasing and holds exactly the positions with a retryable code |
| RetryDriver.RetryListExact | rust/src/client_ops.rs:288-298 | the same of the retry list itself: increasing, in range, exactly the retryable positions |
| RetryDriver.RetriedWireCodes | rust/src/client_ops.rs:288-298 | a code is retried exactly when its wire code is 8, 9, 11, 14 or 18 |
| RetryDriver.MergeReply | rust/src/client_ops.rs:640-656 | a partial reply, even one of the wrong length, overwrites exactly the re-sent positions it answers |
| RetryDriver.LedgerSnoc | rust/src/client_ops.rs:640-661 | how one more attempt changes the ledger of latest replies: nothing on a transport error, the whole reply at first, a merge after that |
| RetryDriver.MergeUnique | rust/src/client_ops.rs:650-656 | the merge leaves no choice: two results that satisfy it are equal |
| RetryDriver.TakeReply | rust/src/client_ops.rs:614-672 | after one attempt the loop's variables are functions of the trace: latest replies, retryable positions, last transport error, and whether the loop may stop |
| RetryDriver.Attempt | rust/src/client_ops.rs:614-672 | one send extends the run by the attempt that the rules call for, and ends it exactly when nothing is left to retry |
| RetryDriver.DriveBatchWriteRetries | rust/src/client_ops.rs:558-704 | on every script the driver returns the report of the run that the retry rules determine: which attempts are sent, with which records, and when it stops |
| RetryDriver.YieldsTheRun | rust/src/client_ops.rs:558-704 | so the returned outcome is the report of whichever run the script allows |
| RetryDriver.DrivesUnique | rust/src/client_ops.rs:558-704 | one script allows only one trace and one truncation flag |
| RetryLedger.WholeBatchUntilResponse | rust/src/client_ops.rs:614-624 | an attempt sends the whole batch exactly when no earlier attempt has responded |
| RetryLedger.StepKeepsUnsent | rust/src/client_ops.rs:640-656 | an attempt leaves the results of records it did not re-send unchanged |
| RetryLedger.SettledStaysSettled | rust/src/client_ops.rs:614-672 | a settled record is never re-sent and its result never changes again |
| RetryLedger.ResentSetsShrink | rust/src/client_ops.rs:614-672 | successive re-sent sets form a decreasing chain of increasing lists |
| RetryLedger.LengthFixed | rust/src/client_ops.rs:657-660 | the first reply fixes the result vector; no later attempt changes which reply was first |
| RetryLedger.LedgerIsLatest | rust/src/client_ops.rs:640-660 | every reported result is the last reply delivered for that record |
| RetryLedger.RetryListCounts | rust/src/client_ops.rs:682-687 | the length of the retry list is the number of records with a retryable code |
| RetryLedger.ExitAccounting | rust/src/client_ops.rs:674-703 | Err exactly when every send failed, with the last error; attempts, unresolved and the truncation flag mean what their documentation says |
| RetryLedger.DoBatchWrite | rust/src/client_ops.rs:398-455 | the fast path and the driver together: same results and errors as the driver, fixed statistics without retries |
| RetryLedger.FastPathAgreement | rust/src/client_ops.rs:413-432 | without retries both paths agree on results and error, and on statistics exactly when nothing is retryable |
| RetryLedger.FastPathHidesTimeout | rust/src/client_ops.rs:413-432 | one record that times out without retries: the driver reports 1 unresolved, the fast path 0 |
| RetryStore.ExactlyOnce | rust/src/client_ops.rs:558-704 | with distinct keys, a record whose final code is Ok holds exactly one overlay of its bins, any other is untouched or fully overlaid, for every fault pattern |
| RetryStore.OtherKeysUnchanged | rust/src/client_ops.rs:515-550 | keys outside the batch are unchanged in every run |
| RetryStore.OrderAndRepetitionDoNotMatter | rust/src/client_ops.rs:373-378 | on compatible records, any two effect lists with the same members leave the same store |
| RetryStore.AllOkIsFaultFree | rust/src/client_ops.rs:373-378 | an all-Ok run on compatible records leaves the store of one fault-free pass |
| RetryStore.OkMeansApplied | rust/src/client_ops.rs:640-660 | a record whose latest reply is Ok was applied at least once |
| RetryStore.IncompatibleIsUnsafe | rust/src/client_ops.rs:373-378 | a batch that puts two values on one bin has an all-Ok run that ends in another store |
| RetryStore.RedriveSafeIff | rust/src/client_ops.rs:373-378 | the documented claim holds exactly for batches without conflicting records |
| RetryStore.RepeatedKeyCounterexample | rust/src/client_ops.rs:373-378 | a two-record batch on which the claim fails |
| RetryForeign.LastApplicationsSuffice | rust/src/client_ops.rs:373-378 | any history of puts ends in the store of the same history with each batch record put just once, the last time |
| RetryForeign.AllOkIsOnePass | rust/src/client_ops.rs:373-378 | among any puts of other clients, an all-Ok run leaves the store of one pass in which every record of the batch is put exactly once |
| RetryForeign.FirstApplicationsSuffice | rust/src/client_ops.rs:373-378 | when nobody disputes a bin of the batch, re-deliveries change nothing |
| RetryForeign.DisputedPutIsLost | rust/src/client_ops.rs:373-378 | a run in which another client's put is overwritten by the re-drive, for every disputed bin |
| RetryForeign.RedriveInvisibleIff | rust/src/client_ops.rs:373-378 | re-driving cannot be told from a single delivery exactly when no put, of the batch or of another client, disputes a bin of a record |
| RetryForeign.LostPutExample | rust/src/client_ops.rs:373-378 | one record and one other client's put on which it can |
| RetryTiming.BackoffRange | rust/src/client_ops.rs:304-309 | no overflow; 10 * 2^k below attempt 6 and the 500 ms cap from there on |
| RetryTiming.TotalTimeBound | rust/src/client_ops.rs:578-612 | with a timeout T and sends of at most S, a run ends before T + S plus sleep overshoot |
| RetryTiming.CutOffExactlyAtDeadline | rust/src/client_ops.rs:578-612 | on every run with a right clock: it is truncated only when the next backoff would end at the deadline or beyond, every retry made starts before the deadline, and without truncation the run used its retries or was finished |
| RetryTiming.DeadlineDecides | rust/src/client_ops.rs:317-319 | for every elapsed time and every backoff that the first retry can draw, the retry is made exactly when the backoff ends before the deadline |
| RetryTiming.TotalTimeBoundTight | rust/src/client_ops.rs:317-319 | the bound is reached at every backoff that the first retry can draw: with exact sleeps some run takes T - 1 + S |
| RetryTiming.TotalSleepBound | rust/src/client_ops.rs:304-309 | the sleeps of r retries add up to at most the closed form, 630 + 500 (r - 6) ms for r >= 6 |
| AsyncLifecycle.RunInv | rust/src/async_client.rs:163-257 | every interleaving of connects, cancellations, closes and operations keeps the ownership, client, pairing and permit invariants |
| AsyncLifecycle.ConnectStepInv | rust/src/async_client.rs:163-221 | each atomic step of connect and its future keeps the invariants |
| AsyncLifecycle.CloseStepInv | rust/src/async_client.rs:1474-1493 | each atomic step of close and its future keeps the invariants |
| AsyncLifecycle.OperationStepInv | rust/src/backpressure.rs:62-92 | each atomic step of a gated operation keeps the invariants |
| AsyncLifecycle.ConcurrencyBound | rust/src/backpressure.rs:42-92 | permits available plus operations in flight on one client equal its limit in every reachable state, even after a close |
| AsyncLifecycle.ConfiguredLimitApplies | rust/src/async_client.rs:189 | whatever happens after a connect with limit m got past its compare-exchange, the epoch it makes never has more than m operations in flight, and an operation on it is let through exactly while fewer than m are, or always when m is 0 |
| AsyncLifecycle.ClientsKeepTheirLimiter | rust/src/async_client.rs:351-362 | a stored client and every operation that captured one go with the limiter of the same connect |
| AsyncLifecycle.SingleOwner | rust/src/async_client.rs:163-257 | a transient state has exactly one owner, unless a connect was aborted before its future existed, and a settled one none; connected has a client and disconnected has none |
| AsyncLifecycle.StoresLoseNothing | rust/src/async_client.rs:35-65 | the guard's compare-exchange and every unconditional store act on the state they expect, so none overwrites a later transition |
| AsyncLifecycle.WedgedForever | rust/src/async_client.rs:193-221 | once a future that owns a transient state can no longer run, no continuation leaves that state |
| AsyncLifecycle.Recover | rust/src/async_client.rs:163-257 | from any reachable state that is not wedged some continuation gets back to disconnected |
| AsyncLifecycle.RecoverableIff | rust/src/async_client.rs:20-34 | the client can recover exactly when no connect beyond the largest semaphore got past its compare-exchange and no owning future was dropped where nothing cleans up |
| AsyncLifecycle.RecoverableWithinLimits | rust/src/policy/client_policy.rs:68-78 | with every configured limit at most the largest semaphore, only dropped futures stand in the way, and every transient state is owned |
| AsyncLifecycle.UnpolledDropWedges | rust/src/async_client.rs:193-197 | connect, then drop its awaitable before the first poll: connecting for ever |
| AsyncLifecycle.DroppedCloseWedges | rust/src/async_client.rs:246-255 | connect, then drop the close future before its final store: closing for ever |
| AsyncLifecycle.OversizedLimitWedges | rust/src/backpressure.rs:42-53 | beyond it, connecting a client in any disconnected state leaves it connecting with no way back |
| AsyncLifecycle.OversizedLimitExample | rust/src/backpressure.rs:42-53 | a fresh client with a limit of 2^61: connecting for ever, though no future was ever made |
| AsyncClient.PyAsyncClient.constructor | rust/src/async_client.rs:121-129 | disconnected, without a client, and the invariant of all runs holds |
| AsyncClient.PyAsyncClient.BeginConnect | rust/src/async_client.rs:163-178 | gets past the compare-exchange only from disconnected and with no client stored, and then carries the configured limit on; else reports the state found and changes nothing |
| AsyncClient.PyAsyncClient.InstallLimiter | rust/src/async_client.rs:180-193 | for a limit that a semaphore can hold, the limiter is new, of exactly that capacity with all permits free and nothing in flight, admits exactly up to the limit, and every older client stays within its own |
| AsyncClient.PyAsyncClient.AbortConnect | rust/src/backpressure.rs:42-53 | for any larger limit, the panic leaves the client connecting with no future and no way back |
| AsyncClient.PyAsyncClient.ArmGuard | rust/src/async_client.rs:193-197 | the guard is armed while the state is still this connect's connecting |
| AsyncClient.PyAsyncClient.StoreClient | rust/src/async_client.rs:206-210 | replaces no client, and the client goes with its own limiter |
| AsyncClient.PyAsyncClient.PublishConnected | rust/src/async_client.rs:211 | connected replaces this connect's own connecting, with its client and limiter in place |
| AsyncClient.PyAsyncClient.FailConnect | rust/src/async_client.rs:214-218 | disconnected replaces this connect's own connecting, with no client left |
| AsyncClient.PyAsyncClient.DropGuard | rust/src/async_client.rs:52-65 | the compare-exchange of a dropped guard always finds this connect's own connecting |
| AsyncClient.PyAsyncClient.DropUnpolled | rust/src/async_client.rs:193-197 | a future dropped before its guard exists leaves the client connecting with no way back |
| AsyncClient.PyAsyncClient.BeginClose | rust/src/async_client.rs:1474-1481 | no-op, error or go-ahead by the state found; the go-ahead comes with a client to close |
| AsyncClient.PyAsyncClient.StoreClosing | rust/src/async_client.rs:1482 | closing replaces the connected that was loaded before, although load and store are separate |
| AsyncClient.PyAsyncClient.SwapClient | rust/src/async_client.rs:1483 | the swap always takes a client out |
| AsyncClient.PyAsyncClient.SpawnClose | rust/src/async_client.rs:1484-1489 | after the limiter is reset, operations still in flight stay within their own client's limit |
| AsyncClient.PyAsyncClient.FinishClose | rust/src/async_client.rs:246-255 | the unconditional store replaces this close's own closing |
| AsyncClient.PyAsyncClient.DropClose | rust/src/async_client.rs:246-255 | a close future dropped at its await leaves the client closing with no way back |
| AsyncClient.PyAsyncClient.GetClient | rust/src/async_client.rs:353 | the stored client, which goes with the limiter of the moment, or the not-connected error |
| AsyncClient.PyAsyncClient.CaptureLimiter | rust/src/async_client.rs:354 | the limiter captured is that of the client loaded before |
| AsyncClient.PyAsyncClient.TryAcquire | rust/src/backpressure.rs:62-67 | admitted exactly when the capacity is zero or a permit is free |
| AsyncClient.PyAsyncClient.AcquireNamed | rust/src/backpressure.rs:62-92 | admitted, waiting or timed out: an operation waits or times out only while its client is at its limit, and times out without a permit |
| AsyncClient.PyAsyncClient.EndOperation | rust/src/async_client.rs:359-362 | however an operation ends, its client stays within its limit and loses at most this one operation |
| AsyncClient.PyAsyncClient.Perform | rust/src/async_client.rs:163-257 | every event of the lifecycle machine is one of the object's methods |
| AsyncClient.Drive | rust/src/async_client.rs:163-257 | every run of the machine is a run of the object, with every client within its limit and the stored one with its own limiter |
| ExprConverter.ParseSubExprList | rust/src/expressions.rs:343-357 | the list loop returns all conversions in order or the first failure |
| ExprUnfolding.ConvertNode | rust/src/expressions.rs:34-138 | at every node the converter is its shape rule plus the conversions of its operands |
| ExprUnfolding.Complete | rust/src/expressions.rs:34-138 | a finite well-shaped unfolding within the depth cap converts to what it denotes |
| ExprUnfolding.Sound | rust/src/expressions.rs:34-138 | a successful conversion exhibits such an unfolding |
| ExprUnfolding.ConvertsIff | rust/src/expressions.rs:27-138 | conversion succeeds exactly when the object unfolds finitely, at most 64 deep, with every node well shaped, and returns what the unfolding denotes |
| ExprUnfolding.WalksAreShort | rust/src/expressions.rs:34-39 | a converted object has no chain of operands longer than the depth cap |
| ExprUnfolding.CyclesAreRejected | rust/src/expressions.rs:34-39 | an object that reaches a cycle is never converted |
| ExprUnfolding.OnlyDepthFails | rust/src/expressions.rs:34-39 | on well-shaped input the depth cap is the only error |
| ExprUnfolding.SelfReferenceIsTooDeep | rust/src/expressions.rs:34-39 | a dict that is its own operand ends in the depth error |
| ExprBuilder.BuildGrows | src/aerospike_py/exp.py:172-181 | a builder only adds objects and never changes the dicts it was given |
| ExprBuilder.AllBuiltIn | src/aerospike_py/exp.py:389-401 | a builder's operand list holds the dicts of its arguments in order |
| ExprBuilder.BuiltNode | src/aerospike_py/exp.py:187-589 | the converter sees in every built dict the operation, scalars and operands it was built from |
| ExprBuilder.RoundTrip | rust/src/expressions.rs:34-138 | at any depth a built dict converts back exactly when the expression is legal and fits the depth left |
| ExprBuilder.BuilderRoundTrip | src/aerospike_py/exp.py:187-589 | for every expression, converting what the builders made gives it back exactly when it is legal and at most 64 deep, and fails otherwise |
| ExprBuilder.DepthCapInNumbers | rust/src/expressions.rs:24-39 | 64 nested negations convert, and 65 do not |
| ExprBuilder.OperandCounts | rust/src/expressions.rs:203-256 | a conditional converts with an odd number of operands from three on, a `let` with two or more, any other operand list with one or more |
| ExprBuilder.ScalarArguments | rust/src/expressions.rs:360-377 | 64-bit integers, the ten key types and bin names that are not empty convert, and no others |
| ExprBuilder.ConvertedShapes | rust/src/expressions.rs:258-300 | on any heap, a two-operand operation that converts has exactly two operands in order, and a single-operand one takes its first |
| ByteCodec.UnsignedRoundTrip | rust/src/numpy_support.rs:304-338 | an unsigned value in range survives being stored and loaded |
| ByteCodec.SignedRoundTrip | rust/src/numpy_support.rs:245-285 | a signed value in range survives, by two's complement |
| ByteCodec.BytesRoundTrip | rust/src/numpy_support.rs:884-921 | loaded bytes survive being stored again |
| ByteCodec.WriteUnaligned | rust/src/numpy_support.rs:245-285 | a store changes exactly its bytes of the buffer |
| ByteCodec.JoinRow | rust/src/numpy_support.rs:797-800 | row i of packed rows is the bytes at [i * stride, (i + 1) * stride) |
| NumpyFields.EncodeFits | rust/src/numpy_support.rs:245-285 | no value is stored past the field's extent, which need not be its size |
| NumpyFields.StoresWithinIff | rust/src/numpy_support.rs:442-569 | the extent is exact: for every bound, all stores stay within it exactly when the extent does |
| NumpyFields.StaysInFieldIff | rust/src/numpy_support.rs:158-163 | stores stay in their field exactly when it is not shorter than a base scalar that can be stored |
| NumpyFields.StaysInBufferIff | rust/src/numpy_support.rs:797-800 | for every number of rows, stores into every row stay in the buffer exactly when the extent stays in the row |
| NumpyFields.ReadDecidedByIff | rust/src/numpy_support.rs:854-947 | what a load returns depends on exactly the bytes of the extent, past a shorter field just as a store does |
| NumpyFill.WriteIntToBuffer | rust/src/numpy_support.rs:230-290 | stores the value's encoding at the field or reports overflow, and nothing else changes |
| NumpyFill.WriteUintToBuffer | rust/src/numpy_support.rs:292-347 | the same for unsigned values |
| NumpyFill.WriteFloatToBuffer | rust/src/numpy_support.rs:356-398 | the same for floats, with the range check before a narrowing store |
| NumpyFill.WriteBytesToBuffer | rust/src/numpy_support.rs:408-431 | copies at most the field's size, truncating longer data |
| NumpyFill.WriteValueToBuffer | rust/src/numpy_support.rs:442-569 | dispatches every value and field kind as the encoding says; on error the buffer is unchanged |
| NumpyFill.FillRowInPlace | rust/src/numpy_support.rs:797-810 | writes a record's bins into its row and touches no other byte, even when it fails |
| NumpyFill.FillRecord | rust/src/numpy_support.rs:776-810 | a row with a non-zero code or no body stays zero; any other gets generation, then time to live, and bins |
| NumpyFill.JoinedRowsShow | rust/src/numpy_support.rs:770-795 | read as NumPy reads them: each meta row is the generation and then the time to live of a record with data, or zeros; each code is the wire code; data rows of other records are zero |
| NumpyFill.FillBuffers | rust/src/numpy_support.rs:765-811 | for every dtype whose accesses stay in the row: succeeds exactly when every row encodes, then data, meta and code buffers are the batch's rows end to end and show each record's generation, time to live and wire code; otherwise the error is that of the first bad row |
| NumpyRows.ParseDtypeFields | rust/src/numpy_support.rs:122-176 | accepts exactly the dtypes whose entries all pass, keeps them in order, else reports the first that does not |
| NumpyRows.CheckedFieldsStayInRow | rust/src/numpy_support.rs:158-163 | for dtypes without fields shorter than their scalar, the parser's bounds check keeps every access in its row |
| NumpyRows.CheckedFieldOverrunsIff | rust/src/numpy_support.rs:118-163 | a field that passes the check is overrun by stores, and over-read by loads, exactly when it is shorter than its scalar |
| NumpyRows.ZeroLengthSubArrayOverruns | rust/src/numpy_support.rs:158-163 | a zero-length sub-array passes the check, and storing an integer writes four bytes past a buffer of any number of empty rows |
| NumpyRows.BatchToNumpy | rust/src/numpy_support.rs:657-811 | overflow check, zeroed arrays and fill: the three buffers are the rows of the batch, with generation first and time to live second in each meta row, the wire code in each code row, and zeros for records without data |
| NumpyRows.BatchToNumpyOfDtype | rust/src/numpy_support.rs:657-811 | from the dtype on: for every dtype whose extents end within the row, rejected with the first bad entry, or the three buffers of the batch and what they show of every record, or the batch's error |
| NumpyRows.FilledSlot | rust/src/numpy_support.rs:801-810 | each field's extent in a filled row is the zero-padded encoding of the bin of its name, or zeros |
| NumpyRows.UncoveredIsZero | rust/src/numpy_support.rs:678 | bytes outside all extents stay zero |
| NumpyRows.FillSucceedsIff | rust/src/numpy_support.rs:801-810 | a row fills exactly when every bin that has a field encodes in it; others are ignored |
| NumpyRows.FillOrderIndependent | rust/src/numpy_support.rs:801-810 | with disjoint fields the row is the same for every order of the bins |
| NumpyRows.SharedByteShowsOrder | rust/src/numpy_support.rs:801-810 | any two fields that share a byte have a record whose row shows the order of its two bins |
| NumpyRows.OrderIndependentIff | rust/src/numpy_support.rs:801-810 | rows are the same for every order of the bins exactly when no two fields share a byte that stores of both touch |
| NumpyRows.FirstBadBinIff | rust/src/numpy_support.rs:801-810 | a row reports exactly the error of its first bad bin in iteration order |
| NumpyRows.ErrorIndependentIff | rust/src/numpy_support.rs:801-810 | the reported error is the same for every order of a record's bins exactly when all its bad bins fail for one reason |
| NumpyRows.BatchOrderIndependent | rust/src/numpy_support.rs:765-811 | with disjoint fields all three buffers of a batch are the same for every order of every record's bins |
| NumpyRows.OverlapDependsOnOrder | rust/src/numpy_support.rs:122-176 | an instance: two bytes fields on one byte pass the dtype check and depend on the order |
| NumpyRecords.CheckedRowOffset | rust/src/numpy_support.rs:1021-1035 | the exact product, or an error exactly when the index or the product leaves the isize range |
| NumpyRecords.TrimNul | rust/src/numpy_support.rs:1109-1119 | a fixed-length value without its trailing NULs |
| NumpyRecords.ReachReached | rust/src/numpy_support.rs:1079-1096 | how far into a row the row loop reads: to the end of some field that it reads, and of none beyond |
| NumpyRecords.ReadBinFields | rust/src/numpy_support.rs:1168-1173 | the bin loop reads the fields in order or fails at the first that cannot be read |
| NumpyRecords.ReadRowBytes | rust/src/numpy_support.rs:1104-1175 | key, namespace, set, key check and bins of one row's bytes, with errors in the source's order |
| NumpyRecords.ReadOneRow | rust/src/numpy_support.rs:1100-1175 | one pass of the row loop reads its record from the bytes at the row's address, with errors in the source's order |
| NumpyRecords.NumpyToRecords | rust/src/numpy_support.rs:1053-1180 | for every view and every dtype argument: all rows in order, or the first failure, read from wherever the pointers lead; size, stride and key-field checks come first |
| NumpyReading.RecordsMean | rust/src/numpy_support.rs:1053-1180 | a read that ends well has one record for each row, from the bytes at that row's address: key without trailing NULs, namespace and set of the first field of that name or the default, and bins |
| NumpyReading.BinPositions | rust/src/numpy_support.rs:1079-1083 | the fields read as bins are, in dtype order and once each, exactly those whose name is neither the key field's nor starts with an underscore |
| NumpyReading.SelectionUnique | rust/src/numpy_support.rs:1079-1083 | only one list of positions does that |
| NumpyReading.ReservedColumnsAreNoBins | rust/src/numpy_support.rs:1079-1096 | with columns `_key`, `_namespace`, `_set` and `score`, only the last becomes a bin |
| NumpyReading.InvalidKeyIff | rust/src/numpy_support.rs:1154-1166 | the invalid-key error comes exactly from a key that is not bytes and is not accepted, when the fields of key and names could be read |
| NumpyReading.StrideAcceptedIff | rust/src/numpy_support.rs:972-1019 | a stride is accepted exactly when all rows coincide or no two rows share a byte, the least isize excepted |
| NumpyReading.PreparedIff | rust/src/numpy_support.rs:1066-1093 | size overflow and missing key field are reported exactly when they occur |
| NumpyRoundTrip.ReadsBackIff | rust/src/numpy_support.rs:854-947 | for every field and value, exactly which written values come back unchanged: integers on scalar integer fields, doubles that the field's format can hold, blobs of the field's size |
| NumpyValues.TakesIff | rust/src/numpy_support.rs:442-569 | a field takes a value exactly when its kind has a place for it and its width holds the integer, cut toward zero from a float in 64-bit range, or the double it is |
| NumpyValues.RefusalReasons | rust/src/numpy_support.rs:442-569 | kind mismatch, unsupported value, non-finite, negative and float overflow are reported exactly for the values they name |
| NumpyValues.IntegerFieldGivesBack | rust/src/numpy_support.rs:493-536 | an integer field gives back the integer that was stored: 1 or 0 for a boolean, a float cut toward zero; an unsigned one of 2^63 or more is refused on reading |
| NumpyValues.FloatFieldGivesBack | rust/src/numpy_support.rs:493-536 | integers, booleans and floats of both precisions come back from a float field as doubles rounded to its format |
| NumpyValues.TextGivesBack | rust/src/numpy_support.rs:553-562 | text comes back as its UTF-8 bytes, zero-padded or cut to the field |
| NumpyValues.NilGivesBack | rust/src/numpy_support.rs:563 | a nil leaves the zeros of the row |
| NumpyValues.UnsignedColumn | rust/src/numpy_support.rs:905-919 | every unsigned value below 2^63 is read as itself, and every one from there on is an overflow |
| NumpyValues.KindsByValues | rust/src/numpy_support.rs:137-153 | what each kind character means for values written and read back: signed, unsigned, float, and the two bytes kinds |
| NumpyValues.EntryPassesIff | rust/src/numpy_support.rs:122-163 | exactly the entries of five kinds pass, in the host's byte order or without one, and inside the row |
| NumpyRoundTrip.DoubleReadsBack | rust/src/numpy_support.rs:356-398 | a double comes back rounded to the field's format |
| NumpyRoundTrip.FormatsSurvive | rust/src/numpy_support.rs:356-398 | every finite single or half precision number survives a field of its own precision |
| NumpyRoundTrip.BlobReadsBack | rust/src/numpy_support.rs:408-431 | a blob comes back zero-padded or truncated to its field |
| NumpyRoundTrip.BytesKeyRoundTripIff | rust/src/numpy_support.rs:1104-1119 | a bytes key comes back equal exactly when it fits its field and does not end in NUL |
| NumpyRoundTrip.FilledIsWritten | rust/src/numpy_support.rs:801-810 | a filled row is, field by field, a row written with the record's own bins |
| NumpyRoundTrip.NameReads | rust/src/numpy_support.rs:1121-1148 | a namespace or set field gives back its bin's text without trailing NULs, or the default applies |
| NumpyRoundTrip.RowRoundTrip | rust/src/numpy_support.rs:1100-1175 | a filled row of a portable record reads back with the same key, namespace, set and bins |
| NumpyRoundTrip.BatchRoundTrip | rust/src/numpy_support.rs:1053-1180 | the packed buffer of a batch of portable records reads back as the same keys, namespaces, sets and bins, in order |
| NumpyBounds.InBoundsIff | rust/src/numpy_support.rs:849-856 | every byte read belongs to the array exactly when what is read depends on nothing outside it |
| NumpyBounds.NarrowDtypeInBounds | rust/src/numpy_support.rs:972-1019 | for every array as NumPy makes them, a dtype no wider than its items keeps every byte read within it |
| NumpyBounds.PackedInBoundsIff | rust/src/numpy_support.rs:990-992 | a packed array is read within its bounds exactly when its last row, at the dtype's size, still ends there |
| NumpyBounds.PackedWholeRowsIff | rust/src/numpy_support.rs:990-992 | when fields fill the dtype, exactly when the dtype is no wider than the items |
| NumpyBounds.SliceInBoundsIff | rust/src/numpy_support.rs:994-1018 | a slice of either sign is read within its array exactly when its highest item leaves room for what is read of a row |
| NumpyBounds.PackedAlignedIff | rust/src/numpy_support.rs:990-992 | a packed array of several items is read at its own items exactly when the dtype has their size |
| NumpyBounds.NumpyToRecordsOfDtype | rust/src/numpy_support.rs:1053-1180 | from the dtype argument on: rejected with the first bad entry, or the read; and only the array matters when extents stay in their rows and the dtype is no wider than the items |
| NumpyBounds.WiderDtypeReadsForeignBytes | rust/src/client.rs:1255-1278 | an item of four bytes read with a dtype of 1004: the record's bin is a thousand bytes that the array does not own |
| NumpyRoundTrip.SliceReadsItsRows | rust/src/numpy_support.rs:972-1019 | the stride of a slice of either sign is accepted, and every row read is the item start + i * step |
| NumpyRoundTrip.PackedReadsItsRows | rust/src/numpy_support.rs:990-992 | a packed array without strides reads its rows in order |
| NumpyRoundTrip.ReadRowsPointwise | rust/src/numpy_support.rs:1100-1176 | a read succeeds exactly when every row does, and then holds each row's record |
| NumpyRoundTrip.StrideRefinement | rust/src/numpy_support.rs:972-1035 | reading a slice of an array with its own dtype gives exactly the records start, start + step, ... of the packed read |
| NumpyRoundTrip.NoOffsetWraps | rust/src/numpy_support.rs:1021-1035 | for every view and dtype argument, a read that ends well took record i from base + i * stride; an offset beyond isize is never wrapped |
| BatchViews.BatchToDict | rust/src/batch_types.rs:711-788 | under the key of every record with a user key, a success code and a body, the bins of the last such record of that key, each with the value of the last bin of its name, and nothing else; or ends as the first record shown that fails, at its first bin that fails or at an unhashable key |
| BatchViews.ConvertRecord | rust/src/batch_types.rs:753-778 | a record's bins dict has exactly the bin names, each with the Python value of the last bin of that name; or ends as its first value that fails, and as a dict only when none does |
| BatchViews.ConvertBinsMeans | rust/src/batch_types.rs:761-778 | the same of the specification, by induction on the bins |
| BatchViews.BinsEndUnique | rust/src/batch_types.rs:761-778 | a record's bins can end in one way only |
| BatchViews.DictPanicsIff | rust/src/batch_types.rs:711-788 | the conversion panics exactly when the first failing record that it shows panics |
| BatchViews.EntriesAreEquality | rust/src/batch_types.rs:728-738 | two keys share an entry of a dict exactly when Python finds them equal, numbers by value whatever their types |
| BatchViews.BatchToList | rust/src/batch_types.rs:830-856 | one slot per record: the dict of all its bins exactly when it has a success code and a body, else none; ends as the first record with a body that fails does |
| BatchViews.MergeToDict | rust/src/batch_types.rs:506-517 | one dict view for each handle in order, or the end of the first handle that fails |
| BatchViews.DictViewUnique | rust/src/batch_types.rs:711-788 | what the dict view must hold determines it |
| BatchViews.DictAgreesWithList | rust/src/batch_types.rs:830-856 | a key of the dict view holds what the list view has at that key's last qualifying position |
| BatchViews.ListConvertsMore | rust/src/batch_types.rs:830-856 | with hashable keys, whatever the list view converts the dict view converts, and conversely without digest-only records |
| BatchViews.KeysCounted | rust/src/batch_types.rs:314-323 | entries of qualifying keys against `__len__`: never more, and as many exactly when no two qualifying keys are equal in Python |
| BatchViews.ViewSizes | rust/src/batch_types.rs:600-605 | size of to_dict <= `__len__` <= found_count <= length of to_list = all_user_keys = records, the first an equality exactly when qualifying keys are pairwise unequal in Python |
| BatchViews.CountsAreExact | rust/src/batch_types.rs:600-605 | found_count is the number of records with wire code 0 or none, and `__len__` that of those with a user key and a body too |
| BatchViews.CollectUserKeys | rust/src/batch_types.rs:881-896 | position i of all_user_keys is the user key of record i, or none |
| BatchViews.EqualKeysShrinkDict | rust/src/batch_types.rs:304-323 | any two found records: `__len__` is 2, and the dict view has 1 entry exactly when Python finds the keys equal |
| BatchViews.SharedEntries | rust/src/types/key.rs:92-104 | 1, 1.0 and True are different keys and one entry; a NaN key is never shared |
| BatchViews.PyBatchReadIter.Next | rust/src/batch_types.rs:666-673 | hands out the first remaining record, then nothing for ever |
| BatchViews.IterRecords | rust/src/batch_types.rs:397-402 | a loop over the iterator sees every record once, in request order |
| DictCache.ConversionShows | rust/src/batch_types.rs:711-788 | a conversion to dict objects shows exactly the dict view |
| DictCache.CacheNeverHanded | rust/src/batch_types.rs:434-437 | in every run, no dict that callers were given is the cached one |
| DictCache.OuterMutationShowsIff | rust/src/batch_types.rs:434-437 | changing an outer dict that a caller holds shows in dict reads exactly when it is the cached dict and the change is visible |
| DictCache.OuterMutationInvisible | rust/src/batch_types.rs:416-422 | after any run, whatever callers do to the outer dicts they hold, every later answer is the same |
| DictCache.CacheRefinesDirect | rust/src/batch_types.rs:287-299 | over every run in which callers leave cached bins dicts alone, the cache is absent or equal to a direct conversion and every dict read shows it |
| DictCache.CachedAgreesWithMerge | rust/src/batch_types.rs:506-517 | a cached read and the uncached merge_to_dict show the same dict |
| DictCache.InnerMutationHarmlessIff | rust/src/batch_types.rs:416-422 | changing a bins dict keeps the cache right exactly when the cache does not refer to it or the contents stay equal |
| DictCache.ToDictSharesBins | rust/src/batch_types.rs:416-438 | changing a bins dict inside the result of to_dict changes what later dict reads show |
| DictCache.OldBinsAreHarmless | rust/src/batch_types.rs:566-597 | after release_cache, bins dicts handed out before it no longer reach any dict read |
| DictCache.PoisonedIff | rust/src/batch_types.rs:287-293 | a handle is poisoned exactly when a dict read panicked since the last release |
| DictCache.PoisonedUntilReleased | rust/src/batch_types.rs:287-293 | while poisoned every dict read fails |
| DictCache.ReleaseRecovers | rust/src/batch_types.rs:558-597 | a release always clears the poison and the next read ends as the uncached conversion; it poisons again exactly when the first failing record panics, and shows a dict exactly when all records shown convert |
| DictCache.PanicRecurs | rust/src/batch_types.rs:558-564 | with a record that panics first, no run however full of releases ever shows a dict |
| DictCache.PyLazyBatchRecords.Convert | rust/src/batch_types.rs:711-788 | the conversion loop makes exactly the dict objects of the conversion, or none that anyone can reach |
| DictCache.PyLazyBatchRecords.CachedDict | rust/src/batch_types.rs:287-299 | the machine's cached read, and the cached dict stays private |
| DictCache.PyLazyBatchRecords.ToDict | rust/src/batch_types.rs:423-438 | the caller gets a new dict that is not the cached one and shows what it shows |
| DictCache.PyLazyBatchRecords.Lookup | rust/src/batch_types.rs:330-372 | item access, get and membership: the view's entry, nothing for other keys, or the read's error |
| DictCache.PyLazyBatchRecords.MergeToDict | rust/src/batch_types.rs:506-517 | the machine's merge step, which ignores the cache |
| DictCache.PyLazyBatchRecords.ReleaseCache | rust/src/batch_types.rs:566-597 | the machine's release step |
| QueryStream.CollectRaw | rust/src/query.rs:354-368 | all records, or the first stream error |
| QueryStream.ExecuteQuery | rust/src/query.rs:404-414 | all records converted in order; a stream error wins over any conversion error |
| QueryStream.ExecuteForeach | rust/src/query.rs:487-518 | the callback is called on exactly a prefix, which ends at the first stream, conversion or callback error, the first False or the end |
| QueryStream.ForeachOutcomeUnique | rust/src/query.rs:500-517 | only one prefix and one outcome fit |
| QueryStream.StreamingRefinesCollecting | rust/src/query.rs:487-518 | with a callback that never stops, both deliver the same records or both fail, with the same error exactly when no unconvertible record precedes a stream error |
| QueryStream.MaskedConversionExample | rust/src/query.rs:487-518 | one unconvertible record, then a stream error: streaming reports the conversion, collecting the stream |
| QueryStream.CallsArePrefix | rust/src/query.rs:487-518 | any callback is given a prefix of what collecting returns |
| OpRouting.CodeTellsWrite | rust/src/operations.rs:459-500 | for every convertible operation the code counts as a write exactly when its constructor writes |
| OpRouting.UnknownCodesAreWrites | rust/src/operations.rs:451-454 | a code outside the dispatch table never counts as a read |
| OpRouting.ConvertsOwnOperation | rust/src/operations.rs:540-573 | what is converted is the item's own operation: its bin unless it is a touch or delete, its arguments, the family of its code, and a write exactly if the code is |
| OpRouting.BasicCodesDo | rust/src/operations.rs:540-573 | what each of the seven basic codes does to a record: read and touch leave it, put sets, increment adds, append and prepend join text in their order, delete removes |
| OpRouting.PyOpsToRustChecked | rust/src/operations.rs:514-1283 | converts the whole list in order, each operation its item's own, or fails with the first bad operation; the flag says exactly whether the converted list has a write |
| OpRouting.BatchOperate | rust/src/client_common.rs:518-566 | one entry per key in order, each with the whole list, a batch write exactly when the list has a write |
| ShellQuote.EscapedReadsAsItself | rust/src/bug_report.rs:12-14 | inside single quotes the escaped text reads as the text |
| ShellQuote.QuotedIsOneWord | rust/src/bug_report.rs:12-14 | quoting the escaped text gives one shell word, whatever the text |
| ShellQuote.SanitizeForTitle | rust/src/bug_report.rs:20-28 | no newline; within the limit exactly when the text was or the limit is at least 3; all characters are kept within the limit, and beyond it those that leave room for the ellipsis it ends in |
| ShellQuote.CommandRecoversTitleAndBody | rust/src/bug_report.rs:33-48 | a POSIX shell splits the printed command into gh, its flags, and exactly the title and the body |
| ShellQuote.LoggedCommandTellsTheError | rust/src/bug_report.rs:33-48 | the shell passes gh a title with the error's first characters on one line, cut at 80 with an ellipsis, and a body with version, context and the whole detail |

## Left out

- RetryStore.ExactlyOnce: has no other client, which `RetryForeign` adds; assumes that a reply to the whole batch has one entry per record and that puts are plain updates; create-only and generation-checked writes are not modelled.
- RetryDriver.DriveBatchWriteRetries: `max_retries + 1` must fit u32, as the source's own arithmetic assumes.
- RetryTiming.TotalTimeBound: assumes a correct clock, and says nothing of a run whose sends take unboundedly long.
- AsyncLifecycle.ConcurrencyBound: covers operations that go through the limiter; `ping`, and everything that does not call `acquire_named`, is not gated in the source either.
- AsyncLifecycle.RecoverableIff: says that recovery stays possible, not that the event loop will schedule it.
- NumpyRows.BatchToNumpy: the key map and the `NumpyBatchRecords` wrapper built after the fill are not modelled.
- BatchViews.BatchToDict: the order of dict entries, which of two equal keys an entry shows, and a user key whose conversion fails are not modelled.
- QueryStream.ExecuteForeach: a query that cannot start is a stream whose first item is an error; panics inside a callback or the stream are not modelled.
- OpRouting.PyOpsToRustChecked: the fields that each operation's arm reads besides `op` and `bin` are one outcome per operation, so defaults and range checks of those fields are not modelled.
- OpRouting.BasicCodesDo: covers the seven basic codes; list, map, HyperLogLog and bit constructors are known by family and by what kind of operation they are.
- IEEE rounding: beyond the one law assumed, how a number rounds to a narrower format is not modelled; the finite and range guards around the conversions are.
- NumpyRows.BatchToNumpyOfDtype: a dtype whose extents leave the row is undefined behaviour in the source; the exact condition is proved, and what memory then holds is not modelled.
- NumpyRoundTrip.BatchRoundTrip: namespace and set fields of a numeric kind are not covered; that reading one gives the default is part of `NumpyReading.RecordsMean`.
- DictCache.PyLazyBatchRecords.MergeToDict: the heap of dict objects is that of one handle; several handles at once are `BatchViews.MergeToDict`, on values.
- NumpyRecords.NumpyToRecords: memory is a byte at every address; a read outside the array that would fault is not modelled as one.
- AsyncLifecycle.OversizedLimitWedges: the largest semaphore is tokio's documented one on a 64-bit host.
- ShellQuote.CommandRecoversTitleAndBody: no argument of a real process can hold a NUL character, which the model's texts may.
- RetryForeign.RedriveInvisibleIff: other clients put bins like the batch does; deletes, reads and conditional writes of theirs are not modelled.
- Host byte order is little-endian; a native big-endian host is not modelled.
- PyO3 extraction accepts some other Python types (an int for a float, a bool for an int, a list for bytes); the expression model takes the exact types only.
- Expression operation names are an enumeration with one case for all unknown names; contents of `list_val` and `map_val` are opaque.
- Key digests, `types::value`, `types::key`, policy parsing and aerospike-core are not part of this model.
- The backpressure timer is a flag that says it has run out; how long it runs is not modelled.
- Metrics, tracing, logging, GIL handling and the Tokio runtime are not modelled.
- Query predicates, `build_statement` and the `PyQuery` builder: case tables over one value each.
- `rust/src/client.rs` is a sequential special case of the async lifecycle; record, admin, info, UDF and index wrappers only pass values on.
- Attributes of the per-record wrappers (`PyBatchRecord`, lazy record cells): the views here read the raw records, not the wrappers, so nothing proved depends on them.
