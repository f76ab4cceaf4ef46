/**
 The batch-write retry driver of rust/src/client_ops.rs.

 The outside world (clock, sleep, one send per attempt) is a script with one turn per
 attempt; every adaptive cluster is some script once its run is fixed. A ghost trace records
 what each attempt sent and what came back, and the specification is stated over that trace:
 `Latest` looks up the last reply delivered for one record, independently of how the driver
 merges replies in place.
 */
module RetryDriver {
  import opened Wrappers
  import opened BatchResults

  const U32_LIMIT: nat := 0x1_0000_0000

  type TransportError = int

  type Reply = Result<seq<BatchRecord>, TransportError>

  predicate IsRetryableResultCode(rc: ResultCode) {
    rc.Timeout? || rc.DeviceOverload? || rc.KeyBusy? || rc.ServerMemError? || rc.PartitionUnavailable?
  }

  /** The filter of `collect_retryable_indices`. */
  predicate NeedsRetry(br: BatchRecord) {
    br.resultCode.Some? && br.resultCode.value != Ok && IsRetryableResultCode(br.resultCode.value)
  }

  /** On the wire: exactly server memory, timeout, partition unavailable, key busy and device overload are retried. */
  lemma RetriedWireCodes(br: BatchRecord)
    ensures NeedsRetry(br) <==> WireCode(br) in {8, 9, 11, 14, 18}
  {
  }

  // ---- Traces ---------------------------------------------------------------------------

  /** One issued attempt: `indices` is `None` for the whole batch. */
  datatype Send = Send(indices: Option<seq<nat>>, reply: Reply)

  /** Slot `p` of the attempt's reply answers record `i`. */
  predicate Carries(s: Send, i: nat, p: nat) {
    && s.reply.Success?
    && p < |s.reply.value|
    && match s.indices
       case None => p == i
       case Some(ix) => p < |ix| && ix[p] == i
  }

  /** The last reply delivered for record `i`. */
  ghost function Latest(trace: seq<Send>, i: nat): Option<BatchRecord>
    decreases |trace|
  {
    if trace == [] then None
    else
      var last := trace[|trace| - 1];
      if exists p: nat :: Carries(last, i, p) then
        var p: nat :| Carries(last, i, p);
        Some(last.reply.value[p])
      else
        Latest(trace[..|trace| - 1], i)
  }

  /** The first batch response, which fixes how many records are reported on. */
  function FirstReply(trace: seq<Send>): Option<seq<BatchRecord>>
    decreases |trace|
  {
    if trace == [] then None
    else
      var first := FirstReply(trace[..|trace| - 1]);
      if first.Some? then first
      else match trace[|trace| - 1].reply
           case Success(rs) => Some(rs)
           case Failure(_) => None
  }

  predicate Responded(trace: seq<Send>) {
    FirstReply(trace).Some?
  }

  /** Every record's latest reply, in batch order. */
  ghost function Ledger(trace: seq<Send>): seq<BatchRecord> {
    match FirstReply(trace)
    case None => []
    case Some(rs) =>
      seq(|rs|, (i: nat) => match Latest(trace, i) case Some(r) => r case None => BatchRecord(None, None, None))
  }

  /** Positions of the records that still carry a retryable code, in increasing order. */
  function RetryList(results: seq<BatchRecord>): (out: seq<nat>)
  {
    if results == [] then []
    else
      var n := |results| - 1;
      RetryList(results[..n]) + if NeedsRetry(results[n]) then [n] else []
  }

  ghost predicate StrictlyIncreasing(s: seq<nat>) {
    forall a, b :: 0 <= a < b < |s| ==> s[a] < s[b]
  }

  lemma {:induction false} RetryListExact(results: seq<BatchRecord>)
    ensures StrictlyIncreasing(RetryList(results))
    ensures forall i: nat :: i in RetryList(results) <==> i < |results| && NeedsRetry(results[i])
  {
    if results == [] {
    } else {
      var n := |results| - 1;
      var front := results[..n];
      RetryListExact(front);
      assert forall i: nat :: i < n ==> front[i] == results[i];
      forall i: nat
        ensures i in RetryList(results) <==> i < |results| && NeedsRetry(results[i])
      {
        assert i in RetryList(front) <==> i < n && NeedsRetry(front[i]);
      }
      forall a, b | 0 <= a < b < |RetryList(results)|
        ensures RetryList(results)[a] < RetryList(results)[b]
      {
        assert RetryList(front)[a] in RetryList(front);
      }
    }
  }

  /** What the next attempt sends: the whole batch until some attempt has responded. */
  ghost function NextIndices(trace: seq<Send>): Option<seq<nat>> {
    if Responded(trace) then Some(RetryList(Ledger(trace))) else None
  }

  ghost predicate ValidTrace(trace: seq<Send>) {
    forall k :: 0 <= k < |trace| ==> trace[k].indices == NextIndices(trace[..k])
  }

  ghost predicate Finished(trace: seq<Send>) {
    Responded(trace) && RetryList(Ledger(trace)) == []
  }

  lemma ValidTracePrefix(trace: seq<Send>, k: nat)
    requires ValidTrace(trace) && k <= |trace|
    ensures ValidTrace(trace[..k])
  {
    forall j | 0 <= j < k
      ensures trace[..k][j].indices == NextIndices(trace[..k][..j])
    {
      assert trace[..k][..j] == trace[..j];
    }
  }

  lemma RetryListInRange(results: seq<BatchRecord>)
    ensures forall p :: 0 <= p < |RetryList(results)| ==> RetryList(results)[p] < |results|
    ensures StrictlyIncreasing(RetryList(results))
  {
    RetryListExact(results);
    forall p | 0 <= p < |RetryList(results)|
      ensures RetryList(results)[p] < |results|
    {
      assert RetryList(results)[p] in RetryList(results);
    }
  }

  lemma CarriesUnique(s: Send, i: nat, p: nat, q: nat)
    requires s.indices.Some? ==> StrictlyIncreasing(s.indices.value)
    requires Carries(s, i, p) && Carries(s, i, q)
    ensures p == q
  {
    if s.indices.Some? {
      var ix := s.indices.value;
      assert p < |ix| && q < |ix| && ix[p] == ix[q];
    }
  }

  lemma LatestSnoc(trace: seq<Send>, s: Send, i: nat)
    ensures (forall p: nat :: !Carries(s, i, p)) ==> Latest(trace + [s], i) == Latest(trace, i)
    ensures forall p: nat :: Carries(s, i, p) && (s.indices.Some? ==> StrictlyIncreasing(s.indices.value))
              ==> Latest(trace + [s], i) == Some(s.reply.value[p])
  {
    var t := trace + [s];
    assert t[..|t| - 1] == trace;
    assert t[|t| - 1] == s;
    forall p: nat | Carries(s, i, p) && (s.indices.Some? ==> StrictlyIncreasing(s.indices.value))
      ensures Latest(t, i) == Some(s.reply.value[p])
    {
      var q: nat :| Carries(s, i, q) && Latest(t, i) == Some(s.reply.value[q]);
      CarriesUnique(s, i, p, q);
    }
  }

  lemma FirstReplySnoc(trace: seq<Send>, s: Send)
    ensures Responded(trace) ==> FirstReply(trace + [s]) == FirstReply(trace)
    ensures !Responded(trace) && s.reply.Success? ==> FirstReply(trace + [s]) == Some(s.reply.value)
    ensures !Responded(trace) && s.reply.Failure? ==> FirstReply(trace + [s]) == None
  {
    assert (trace + [s])[..|trace|] == trace;
  }

  /** The reply `rs` to the subset `ix` laid over `results`; replies past either length are dropped. */
  ghost predicate IsMerge(results: seq<BatchRecord>, ix: seq<nat>, rs: seq<BatchRecord>, merged: seq<BatchRecord>)
  {
    && |merged| == |results|
    && (forall p :: 0 <= p < |ix| && p < |rs| && ix[p] < |merged| ==> merged[ix[p]] == rs[p])
    && (forall i :: 0 <= i < |merged| && (forall p :: 0 <= p < |ix| && p < |rs| ==> ix[p] != i)
         ==> merged[i] == results[i])
  }

  /** How one more attempt changes the ledger. */
  lemma LedgerSnoc(trace: seq<Send>, s: Send)
    requires s.indices == NextIndices(trace)
    ensures s.reply.Failure? ==> Ledger(trace + [s]) == Ledger(trace)
    ensures s.reply.Success? && !Responded(trace) ==> Ledger(trace + [s]) == s.reply.value
    ensures s.reply.Success? && Responded(trace)
      ==> IsMerge(Ledger(trace), RetryList(Ledger(trace)), s.reply.value, Ledger(trace + [s]))
  {
    FirstReplySnoc(trace, s);
    RetryListExact(Ledger(trace));
    forall i: nat
      ensures (forall p: nat :: !Carries(s, i, p)) ==> Latest(trace + [s], i) == Latest(trace, i)
      ensures forall p: nat :: Carries(s, i, p) ==> Latest(trace + [s], i) == Some(s.reply.value[p])
    {
      LatestSnoc(trace, s, i);
    }
    if s.reply.Success? && !Responded(trace) {
      forall i | 0 <= i < |s.reply.value|
        ensures Ledger(trace + [s])[i] == s.reply.value[i]
      {
        assert Carries(s, i, i);
      }
    }
    if s.reply.Success? && Responded(trace) {
      var ix := RetryList(Ledger(trace));
      var after := Ledger(trace + [s]);
      forall p | 0 <= p < |ix| && p < |s.reply.value| && ix[p] < |after|
        ensures after[ix[p]] == s.reply.value[p]
      {
        assert Carries(s, ix[p], p);
      }
    }
  }

  /** A merge is determined by its inputs. */
  lemma MergeUnique(results: seq<BatchRecord>, ix: seq<nat>, rs: seq<BatchRecord>, a: seq<BatchRecord>,
                    b: seq<BatchRecord>)
    requires IsMerge(results, ix, rs, a) && IsMerge(results, ix, rs, b)
    ensures a == b
  {
    forall i | 0 <= i < |results|
      ensures a[i] == b[i]
    {
      if p :| 0 <= p < |ix| && p < |rs| && ix[p] == i {
      } else {
      }
    }
  }

  // ---- The driver -----------------------------------------------------------------------

  /** `min(cap, base * 2^min(attempt, 6))`: the upper end of the Full Jitter range. */
  function MaxBackoffMs(attempt: nat, baseMs: nat, capMs: nat): nat {
    var capped := if attempt < 6 then attempt else 6;
    var exponential := baseMs * Pow2(capped);
    if exponential < capMs then exponential else capMs
  }

  function Pow2(n: nat): (p: nat)
    ensures p >= 1
  {
    if n == 0 then 1 else 2 * Pow2(n - 1)
  }

  predicate RetryBudgetPermits(elapsedMs: nat, backoffMs: nat, timeoutMs: nat) {
    timeoutMs == 0 || elapsedMs + backoffMs < timeoutMs
  }

  /**
   What the world does around one attempt: the clock reading and the jittered backoff before
   it (unused for attempt 0), how long the sleep and the send really took, and the reply.
   */
  datatype Turn = Turn(elapsedMs: nat, backoffMs: nat, sleptMs: nat, tookMs: nat, reply: Reply)

  datatype RetryStats = RetryStats(attempts: nat, maxAttempts: nat, truncatedByTimeout: bool, unresolved: nat)

  datatype BatchOutcome = BatchOutcome(results: seq<BatchRecord>, stats: RetryStats)

  /** `trace` is a run of the loop so far: no attempt was issued after it should have stopped. */
  ghost predicate Underway(script: seq<Turn>, timeoutMs: nat, trace: seq<Send>) {
    && |trace| <= |script|
    && ValidTrace(trace)
    && (forall k :: 0 <= k < |trace| ==> trace[k].reply == script[k].reply)
    && (forall k :: 1 <= k < |trace| ==> !Finished(trace[..k]))
    && (forall k :: 1 <= k < |trace| ==> RetryBudgetPermits(script[k].elapsedMs, script[k].backoffMs, timeoutMs))
  }

  /** `trace` is what the driver does on `script`, and `truncated` says the time guard ended it. */
  ghost predicate Drives(script: seq<Turn>, maxRetries: nat, timeoutMs: nat, trace: seq<Send>, truncated: bool)
  {
    && |script| == maxRetries + 1
    && 1 <= |trace|
    && Underway(script, timeoutMs, trace)
    && (if truncated then
          && |trace| <= maxRetries
          && !Finished(trace)
          && !RetryBudgetPermits(script[|trace|].elapsedMs, script[|trace|].backoffMs, timeoutMs)
        else
          |trace| == maxRetries + 1 || Finished(trace))
  }

  lemma UnderwayStep(script: seq<Turn>, timeoutMs: nat, trace: seq<Send>, s: Send)
    requires Underway(script, timeoutMs, trace) && |trace| < |script|
    requires !Finished(trace)
    requires trace != [] ==>
               RetryBudgetPermits(script[|trace|].elapsedMs, script[|trace|].backoffMs, timeoutMs)
    requires s == Send(NextIndices(trace), script[|trace|].reply)
    ensures Underway(script, timeoutMs, trace + [s])
  {
    var t := trace + [s];
    forall k | 0 <= k < |t|
      ensures t[k].indices == NextIndices(t[..k])
      ensures 1 <= k ==> !Finished(t[..k])
    {
      assert t[..k] == trace[..k];
      assert trace[..|trace|] == trace;
    }
  }

  lemma MergedIsLedger(trace: seq<Send>, s: Send, merged: seq<BatchRecord>)
    requires Responded(trace) && s.reply.Success? && s.indices == NextIndices(trace)
    requires IsMerge(Ledger(trace), RetryList(Ledger(trace)), s.reply.value, merged)
    ensures merged == Ledger(trace + [s])
  {
    LedgerSnoc(trace, s);
    MergeUnique(Ledger(trace), RetryList(Ledger(trace)), s.reply.value, merged, Ledger(trace + [s]));
  }

  /** What the caller is told at the end of a run. */
  ghost function Report(trace: seq<Send>, maxRetries: nat, truncated: bool): Result<BatchOutcome, TransportError>
    requires trace != [] && (Responded(trace) || trace[|trace| - 1].reply.Failure?)
  {
    if Responded(trace) then
      Success(BatchOutcome(
                Ledger(trace),
                RetryStats(|trace|, maxRetries + 1, truncated, |RetryList(Ledger(trace))| % U32_LIMIT)))
    else
      Failure(trace[|trace| - 1].reply.error)
  }

  lemma {:induction false} RespondedMeansSomeReply(trace: seq<Send>)
    ensures Responded(trace) <==> exists k :: 0 <= k < |trace| && trace[k].reply.Success?
  {
    if trace != [] {
      var n := |trace| - 1;
      RespondedMeansSomeReply(trace[..n]);
      if k :| 0 <= k < n && trace[k].reply.Success? {
        assert trace[..n][k].reply.Success?;
      }
    }
  }

  /** The loop of `collect_retryable_indices`, which clears and refills its out vector. */
  method CollectRetryableIndices(results: seq<BatchRecord>) returns (out: seq<nat>)
    ensures out == RetryList(results)
    ensures StrictlyIncreasing(out)
    ensures forall i: nat :: i in out <==> i < |results| && NeedsRetry(results[i])
  {
    out := [];
    for i := 0 to |results|
      invariant out == RetryList(results[..i])
    {
      assert results[..i + 1][..i] == results[..i];
      if NeedsRetry(results[i]) {
        out := out + [i];
      }
    }
    assert results[..|results|] == results;
    RetryListExact(results);
  }

  /** The in-place merge of a retry reply, `results[original_idx] = retry_record`. */
  method MergeReply(results: seq<BatchRecord>, ix: seq<nat>, rs: seq<BatchRecord>) returns (merged: seq<BatchRecord>)
    requires StrictlyIncreasing(ix)
    requires forall p :: 0 <= p < |ix| ==> ix[p] < |results|
    ensures IsMerge(results, ix, rs, merged)
  {
    merged := results;
    var updateCount := if |rs| < |ix| then |rs| else |ix|;
    for p := 0 to updateCount
      invariant |merged| == |results|
      invariant forall q :: 0 <= q < p ==> merged[ix[q]] == rs[q]
      invariant forall i :: 0 <= i < |merged| && (forall q :: 0 <= q < p ==> ix[q] != i) ==> merged[i] == results[i]
    {
      merged := merged[ix[p] := rs[p]];
    }
  }

  /** What the driver returns on a script: the report of the run that the script determines. */
  ghost predicate Yields(script: seq<Turn>, maxRetries: nat, timeoutMs: nat,
                         outcome: Result<BatchOutcome, TransportError>) {
    exists trace: seq<Send>, truncated: bool ::
      && Drives(script, maxRetries, timeoutMs, trace, truncated)
      && (Responded(trace) || trace[|trace| - 1].reply.Failure?)
      && outcome == Report(trace, maxRetries, truncated)
  }

  /** The loop's variables after the attempts of `trace`. */
  ghost predicate Tracks(trace: seq<Send>, results: seq<BatchRecord>, retryIndices: seq<nat>, responded: bool,
                         lastTransportError: Option<TransportError>)
  {
    && responded == Responded(trace)
    && results == Ledger(trace)
    && retryIndices == (if responded then RetryList(results) else [])
    && (trace == [] ==> !responded)
    && (trace != [] ==>
          var last := trace[|trace| - 1].reply;
          && lastTransportError == (if last.Failure? then Some(last.error) else None)
          && (responded || last.Failure?))
  }

  /** What one attempt does with its reply; `settled` ends the loop. */
  method TakeReply(reply: Reply, results: seq<BatchRecord>, retryIndices: seq<nat>, responded: bool,
                     ghost trace: seq<Send>, ghost send: Send)
    returns (newResults: seq<BatchRecord>, newIndices: seq<nat>, hasResponded: bool,
      lastTransportError: Option<TransportError>,
             settled: bool)
    requires exists e :: Tracks(trace, results, retryIndices, responded, e)
    requires send == Send(NextIndices(trace), reply)
    ensures var t := trace + [send];
            && Tracks(t, newResults, newIndices, hasResponded, lastTransportError)
            && (settled <==> reply.Success? && RetryList(Ledger(t)) == [])
  {
    LedgerSnoc(trace, send);
    FirstReplySnoc(trace, send);
    newResults, newIndices, hasResponded, settled := results, retryIndices, responded, false;
    match reply {
      case Failure(e) =>
        lastTransportError := Some(e);
      case Success(attemptResults) =>
        if responded {
          RetryListInRange(results);
          newResults := MergeReply(results, retryIndices, attemptResults);
          MergedIsLedger(trace, send, newResults);
        } else {
          newResults := attemptResults;
          hasResponded := true;
        }
        lastTransportError := None;
        newIndices := CollectRetryableIndices(newResults);
        settled := newIndices == [];
    }
  }

  /** One send of the loop and what it does with the reply. */
  method Attempt(turn: Turn, results: seq<BatchRecord>, retryIndices: seq<nat>, responded: bool,
                 ghost script: seq<Turn>, ghost timeoutMs: nat, ghost trace: seq<Send>)
    returns (newResults: seq<BatchRecord>, newIndices: seq<nat>, hasResponded: bool,
      lastTransportError: Option<TransportError>,
             settled: bool)
    requires Underway(script, timeoutMs, trace) && |trace| < |script| && !Finished(trace)
    requires turn == script[|trace|]
    requires trace != [] ==> RetryBudgetPermits(turn.elapsedMs, turn.backoffMs, timeoutMs)
    requires exists e :: Tracks(trace, results, retryIndices, responded, e)
    ensures var t := trace + [Send(NextIndices(trace), turn.reply)];
            && Underway(script, timeoutMs, t)
            && Tracks(t, newResults, newIndices, hasResponded, lastTransportError)
            && (settled <==> Finished(t))
  {
    ghost var send := Send(if responded then Some(retryIndices) else None, turn.reply);
    AttemptStep(script, timeoutMs, trace, send);
    newResults, newIndices, hasResponded, lastTransportError, settled :=
      TakeReply(turn.reply, results, retryIndices, responded, trace, send);
  }

  /**
   `drive_batch_write_retries`. Attempt 0 is the initial send and runs inside the loop, so a
   transport error on it consumes retry budget like any other.
   */
  method DriveBatchWriteRetries(script: seq<Turn>, maxRetries: nat, timeoutMs: nat)
    returns (outcome: Result<BatchOutcome, TransportError>)
    requires |script| == maxRetries + 1 < U32_LIMIT
    ensures Yields(script, maxRetries, timeoutMs, outcome)
  {
    var results: seq<BatchRecord> := [];
    var retryIndices: seq<nat> := [];
    var responded := false;
    var lastTransportError: Option<TransportError> := None;
    var attemptsMade := 0;
    var truncatedByTimeout := false;
    ghost var trace: seq<Send> := [];

    for attempt := 0 to maxRetries + 1
      invariant |trace| == attemptsMade == attempt
      invariant !truncatedByTimeout
      invariant Underway(script, timeoutMs, trace) && !Finished(trace)
      invariant Tracks(trace, results, retryIndices, responded, lastTransportError)
    {
      if attempt > 0 && !RetryBudgetPermits(script[attempt].elapsedMs, script[attempt].backoffMs, timeoutMs) {
        truncatedByTimeout := true;
        break;
      }
      attemptsMade := attemptsMade + 1;
      var settled;
      ghost var send := Send(NextIndices(trace), script[attempt].reply);
      results, retryIndices, responded, lastTransportError, settled :=
        Attempt(script[attempt], results, retryIndices, responded, script, timeoutMs, trace);
      trace := trace + [send];
      if settled {
        break;
      }
    }

    TracksReport(trace, results, retryIndices, responded, lastTransportError, maxRetries, truncatedByTimeout);
    RunYields(script, maxRetries, timeoutMs, trace, truncatedByTimeout);
    if lastTransportError.Some? && !responded {
      outcome := Failure(lastTransportError.value);
    } else {
      outcome := Success(BatchOutcome(
        results,
        RetryStats(attemptsMade, maxRetries + 1, truncatedByTimeout, |retryIndices| % U32_LIMIT)));
    }
  }

  /** An attempt extends the run, and a transport error settles nothing. */
  lemma AttemptStep(script: seq<Turn>, timeoutMs: nat, trace: seq<Send>, s: Send)
    requires Underway(script, timeoutMs, trace) && |trace| < |script| && !Finished(trace)
    requires trace != [] ==>
               RetryBudgetPermits(script[|trace|].elapsedMs, script[|trace|].backoffMs, timeoutMs)
    requires s == Send(NextIndices(trace), script[|trace|].reply)
    ensures Underway(script, timeoutMs, trace + [s])
    ensures Finished(trace + [s]) <==> s.reply.Success? && RetryList(Ledger(trace + [s])) == []
  {
    UnderwayStep(script, timeoutMs, trace, s);
    LedgerSnoc(trace, s);
    FirstReplySnoc(trace, s);
  }

  lemma RunYields(script: seq<Turn>, maxRetries: nat, timeoutMs: nat, trace: seq<Send>, truncated: bool)
    requires Drives(script, maxRetries, timeoutMs, trace, truncated)
    requires Responded(trace) || trace[|trace| - 1].reply.Failure?
    ensures Yields(script, maxRetries, timeoutMs, Report(trace, maxRetries, truncated))
  {
  }

  /** The loop's variables make up the report. */
  lemma TracksReport(trace: seq<Send>, results: seq<BatchRecord>, retryIndices: seq<nat>, responded: bool,
                     lastTransportError: Option<TransportError>, maxRetries: nat, truncated: bool)
    requires trace != [] && Tracks(trace, results, retryIndices, responded, lastTransportError)
    ensures Responded(trace) || trace[|trace| - 1].reply.Failure?
    ensures Report(trace, maxRetries, truncated) ==
            if lastTransportError.Some? && !responded then Failure(lastTransportError.value)
            else Success(BatchOutcome(results,
              RetryStats(|trace|, maxRetries + 1, truncated, |retryIndices| % U32_LIMIT)))
  {
  }

  /** A script leaves the driver no choice. */
  lemma DrivesUnique(script: seq<Turn>, maxRetries: nat, timeoutMs: nat,
                     a: seq<Send>, aTruncated: bool, b: seq<Send>, bTruncated: bool)
    requires Drives(script, maxRetries, timeoutMs, a, aTruncated)
    requires Drives(script, maxRetries, timeoutMs, b, bTruncated)
    ensures a == b && aTruncated == bTruncated
  {
    var m := if |a| < |b| then |a| else |b|;
    CommonPrefix(a, b, m);
    assert a[..|a|] == a && b[..|b|] == b;
  }

  /** So the outcome is the report of whichever run the script allows. */
  lemma YieldsTheRun(script: seq<Turn>, maxRetries: nat, timeoutMs: nat, outcome: Result<BatchOutcome, TransportError>,
                     trace: seq<Send>, truncated: bool)
    requires Yields(script, maxRetries, timeoutMs, outcome) && Drives(script, maxRetries, timeoutMs, trace, truncated)
    ensures Responded(trace) || trace[|trace| - 1].reply.Failure?
    ensures outcome == Report(trace, maxRetries, truncated)
  {
    var run: seq<Send>, cut: bool :|
      && Drives(script, maxRetries, timeoutMs, run, cut)
      && (Responded(run) || run[|run| - 1].reply.Failure?)
      && outcome == Report(run, maxRetries, cut);
    DrivesUnique(script, maxRetries, timeoutMs, run, cut, trace, truncated);
  }

  lemma {:induction false} CommonPrefix(a: seq<Send>, b: seq<Send>, m: nat)
    requires ValidTrace(a) && ValidTrace(b) && m <= |a| && m <= |b|
    requires forall k :: 0 <= k < m ==> a[k].reply == b[k].reply
    ensures a[..m] == b[..m]
  {
    if m > 0 {
      CommonPrefix(a, b, m - 1);
      assert a[m - 1] == b[m - 1];
    }
  }
}
