/** What every run of the batch-write driver keeps, and what its report means. */
module RetryLedger {
  import opened Wrappers
  import opened BatchResults
  import opened RetryDriver

  /** Every attempt sends the whole batch exactly until one has responded. */
  lemma WholeBatchUntilResponse(trace: seq<Send>, k: nat)
    requires ValidTrace(trace) && k < |trace|
    ensures trace[k].indices.None? <==> forall j :: 0 <= j < k ==> trace[j].reply.Failure?
  {
    RespondedMeansSomeReply(trace[..k]);
    assert forall j :: 0 <= j < k ==> trace[..k][j] == trace[j];
  }

  lemma PrefixPlusOne(trace: seq<Send>, k: nat)
    requires k < |trace|
    ensures trace[..k + 1] == trace[..k] + [trace[k]]
  {
  }

  /** One more attempt leaves everything it did not re-send as it was. */
  lemma StepKeepsUnsent(trace: seq<Send>, k: nat, i: nat)
    requires ValidTrace(trace) && k < |trace| && Responded(trace[..k])
    requires i < |Ledger(trace[..k])| && i !in RetryList(Ledger(trace[..k]))
    ensures Responded(trace[..k + 1])
    ensures |Ledger(trace[..k + 1])| == |Ledger(trace[..k])|
    ensures Ledger(trace[..k + 1])[i] == Ledger(trace[..k])[i]
  {
    PrefixPlusOne(trace, k);
    LedgerSnoc(trace[..k], trace[k]);
    FirstReplySnoc(trace[..k], trace[k]);
  }

  /**
   A record that has settled is never re-sent and its reported result never changes again,
   whatever the later attempts do.
   */
  lemma {:induction false} SettledStaysSettled(trace: seq<Send>, j: nat, k: nat, i: nat)
    requires ValidTrace(trace) && j <= k <= |trace| && Responded(trace[..j])
    requires i < |Ledger(trace[..j])| && !NeedsRetry(Ledger(trace[..j])[i])
    ensures Responded(trace[..k]) && i < |Ledger(trace[..k])|
    ensures Ledger(trace[..k])[i] == Ledger(trace[..j])[i]
    ensures k < |trace| ==> trace[k].indices.Some? && i !in trace[k].indices.value
    decreases k - j
  {
    RetryListExact(Ledger(trace[..j]));
    if j < k {
      StepKeepsUnsent(trace, j, i);
      SettledStaysSettled(trace, j + 1, k, i);
    }
  }

  lemma {:induction false} LengthFixed(trace: seq<Send>, j: nat, k: nat)
    requires j <= k <= |trace| && Responded(trace[..j])
    ensures FirstReply(trace[..k]) == FirstReply(trace[..j])
    decreases k - j
  {
    if j < k {
      PrefixPlusOne(trace, j);
      FirstReplySnoc(trace[..j], trace[j]);
      LengthFixed(trace, j + 1, k);
    }
  }

  /** Successive re-sent sets form a decreasing chain. */
  lemma ResentSetsShrink(trace: seq<Send>, j: nat, k: nat)
    requires ValidTrace(trace) && j <= k < |trace|
    requires trace[j].indices.Some?
    ensures trace[k].indices.Some?
    ensures forall i :: i in trace[k].indices.value ==> i in trace[j].indices.value
    ensures StrictlyIncreasing(trace[k].indices.value)
  {
    LengthFixed(trace, j, k);
    RetryListExact(Ledger(trace[..j]));
    RetryListExact(Ledger(trace[..k]));
    forall i | i in trace[k].indices.value
      ensures i in trace[j].indices.value
    {
      if !NeedsRetry(Ledger(trace[..j])[i]) {
        SettledStaysSettled(trace, j, k, i);
      }
    }
  }

  /** The reported result of every record is the last reply delivered for it. */
  lemma {:induction false} LedgerIsLatest(trace: seq<Send>)
    requires ValidTrace(trace) && Responded(trace)
    ensures |Ledger(trace)| == |FirstReply(trace).value|
    ensures forall i: nat :: i < |Ledger(trace)| ==> Latest(trace, i) == Some(Ledger(trace)[i])
  {
    var n := |trace| - 1;
    var front, last := trace[..n], trace[n];
    assert trace == front + [last];
    FirstReplySnoc(front, last);
    if Responded(front) {
      ValidTracePrefix(trace, n);
      LedgerIsLatest(front);
      RetryListExact(Ledger(front));
    }
    forall i: nat | i < |FirstReply(trace).value|
      ensures Latest(trace, i).Some?
    {
      LatestSnoc(front, last, i);
      if !Responded(front) {
        assert Carries(last, i, i);
      }
    }
  }

  // ---- Exit accounting ------------------------------------------------------------------

  lemma {:induction false} IncreasingListCard(s: seq<nat>, members: set<nat>)
    requires StrictlyIncreasing(s)
    requires forall i: nat :: i in s <==> i in members
    ensures |s| == |members|
  {
    if s == [] {
      assert members == {};
    } else {
      var n := |s| - 1;
      forall i: nat
        ensures i in s[..n] <==> i in members - {s[n]}
      {
        if i in s[..n] {
          var a :| 0 <= a < n && s[a] == i;
          assert s[a] < s[n];
        } else if i in s {
          var a :| 0 <= a < |s| && s[a] == i;
          assert a == n;
        }
      }
      IncreasingListCard(s[..n], members - {s[n]});
      assert s[n] in members;
    }
  }

  /** How many records still carry a retryable code. */
  function RetryableSet(results: seq<BatchRecord>): set<nat> {
    set i: nat | i < |results| && NeedsRetry(results[i])
  }

  lemma RetryListCounts(results: seq<BatchRecord>)
    ensures |RetryList(results)| == |RetryableSet(results)|
  {
    RetryListExact(results);
    IncreasingListCard(RetryList(results), RetryableSet(results));
  }

  /** What the driver's result and its statistics say about the run, for every script. */
  lemma ExitAccounting(script: seq<Turn>, maxRetries: nat, timeoutMs: nat, trace: seq<Send>, truncated: bool)
    requires Drives(script, maxRetries, timeoutMs, trace, truncated)
    ensures Responded(trace) || trace[|trace| - 1].reply.Failure?
    ensures var outcome := Report(trace, maxRetries, truncated);
            // Err exactly when every send failed at transport level, and then with the last error.
            && (outcome.Failure? <==> forall k :: 0 <= k < |trace| ==> script[k].reply.Failure?)
            && (outcome.Failure? ==> outcome.error == script[|trace| - 1].reply.error)
            && (outcome.Success? ==>
                  var stats := outcome.value.stats;
                  && stats.attempts == |trace|
                  && 1 <= stats.attempts <= stats.maxAttempts == maxRetries + 1
                  && (|outcome.value.results| < U32_LIMIT ==>
                        && stats.unresolved == |RetryableSet(outcome.value.results)|
                        && (stats.truncatedByTimeout ==> stats.unresolved > 0 && stats.attempts < stats.maxAttempts)
                        && (stats.unresolved > 0 && !stats.truncatedByTimeout ==> stats.attempts == stats.maxAttempts)
                        && (stats.attempts < stats.maxAttempts && !stats.truncatedByTimeout ==> stats.unresolved == 0)))
  {
    RespondedMeansSomeReply(trace);
    if Responded(trace) {
      var results := Ledger(trace);
      RetryListCounts(results);
      RetryListInRange(results);
      SetBound(results);
    }
  }

  lemma {:induction false} SetBound(results: seq<BatchRecord>)
    ensures |RetryList(results)| <= |results|
  {
    if results != [] {
      SetBound(results[..|results| - 1]);
    }
  }

  // ---- The fast path --------------------------------------------------------------------

  const SINGLE_ATTEMPT := RetryStats(1, 1, false, 0)

  /** Same results or error, and same statistics unless the fast path reported them. */
  predicate AgreesWith(outcome: Result<BatchOutcome, TransportError>, driven: Result<BatchOutcome, TransportError>,
                       maxRetries: nat) {
    if outcome.Success? && maxRetries == 0 then
      driven.Success? && outcome.value.results == driven.value.results && outcome.value.stats == SINGLE_ATTEMPT
    else
      outcome == driven
  }

  /** `do_batch_write`: one send with fixed statistics when no retry was asked for, else the driver. */
  method DoBatchWrite(script: seq<Turn>, maxRetries: nat, timeoutMs: nat)
    returns (outcome: Result<BatchOutcome, TransportError>)
    requires |script| == maxRetries + 1 < U32_LIMIT
    ensures exists driven :: Yields(script, maxRetries, timeoutMs, driven) && AgreesWith(outcome, driven, maxRetries)
  {
    if maxRetries == 0 {
      ghost var trace := [Send(None, script[0].reply)];
      FastPathTrace(script, timeoutMs);
      assert Drives(script, 0, timeoutMs, trace, false);
      ghost var driven := Report(trace, 0, false);
      assert Yields(script, 0, timeoutMs, driven);
      match script[0].reply {
        case Success(results) => outcome := Success(BatchOutcome(results, SINGLE_ATTEMPT));
        case Failure(e) => outcome := Failure(e);
      }
      assert AgreesWith(outcome, driven, maxRetries);
    } else {
      outcome := DriveBatchWriteRetries(script, maxRetries, timeoutMs);
      assert AgreesWith(outcome, outcome, maxRetries);
    }
  }

  lemma FastPathTrace(script: seq<Turn>, timeoutMs: nat)
    requires |script| == 1
    ensures var trace := [Send(None, script[0].reply)];
            && Drives(script, 0, timeoutMs, trace, false)
            && (Responded(trace) <==> script[0].reply.Success?)
            && (Responded(trace) ==> Ledger(trace) == script[0].reply.value)
  {
    var s := Send(None, script[0].reply);
    assert [] + [s] == [s];
    LedgerSnoc([], s);
    FirstReplySnoc([], s);
    UnderwayStep(script, timeoutMs, [], s);
  }

  /**
   With no retries the fast path and the driver agree on results and error for every reply, and
   on the statistics exactly when no record came back with a retryable code.
   */
  lemma FastPathAgreement(script: seq<Turn>, timeoutMs: nat, trace: seq<Send>, truncated: bool)
    requires Drives(script, 0, timeoutMs, trace, truncated)
    requires script[0].reply.Success? ==> |script[0].reply.value| < U32_LIMIT
    ensures Responded(trace) || trace[|trace| - 1].reply.Failure?
    ensures match script[0].reply
            case Failure(e) => Report(trace, 0, truncated) == Failure(e)
            case Success(results) =>
              && Report(trace, 0, truncated).Success?
              && Report(trace, 0, truncated).value.results == results
              && (Report(trace, 0, truncated).value.stats == SINGLE_ATTEMPT
                  <==> forall i :: 0 <= i < |results| ==> !NeedsRetry(results[i]))
  {
    FastPathTrace(script, timeoutMs);
    DrivesUnique(script, 0, timeoutMs, trace, truncated, [Send(None, script[0].reply)], false);
    ExitAccounting(script, 0, timeoutMs, trace, truncated);
    if script[0].reply.Success? {
      var results := script[0].reply.value;
      RetryListExact(results);
      RetryListCounts(results);
      if i :| 0 <= i < |results| && NeedsRetry(results[i]) {
        assert i in RetryList(results);
      } else {
        assert RetryableSet(results) == {};
      }
    }
  }

  /** One record that times out, no retries: the driver would report it unresolved, the fast path does not. */
  lemma FastPathHidesTimeout(timeoutMs: nat)
    ensures var script := [Turn(0, 0, 0, 0, Success([BatchRecord(None, Some(Timeout), None)]))];
            && SINGLE_ATTEMPT.unresolved == 0
            && exists driven :: Yields(script, 0, timeoutMs, driven) && driven.Success?
                 && driven.value.stats.unresolved == 1
  {
    var reply := [BatchRecord(None, Some(Timeout), None)];
    var script := [Turn(0, 0, 0, 0, Success(reply))];
    var trace := [Send(None, script[0].reply)];
    FastPathTrace(script, timeoutMs);
    assert Drives(script, 0, timeoutMs, trace, false);
    assert reply[..0] == [] && RetryList(reply[..0]) == [];
    assert RetryList(reply) == [0];
    var driven := Report(trace, 0, false);
    assert Yields(script, 0, timeoutMs, driven);
    assert driven.Success? && driven.value.stats.unresolved == 1;
  }
}
