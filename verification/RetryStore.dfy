/**
 Effects of a retried batch write on the server's records.

 The documentation of `do_batch_write` calls re-driving safe because every operation is a pure
 put, an idempotent full-bin overwrite. Here the server may apply each sent record any number
 of times, in any order, late, and also during attempts that end in a transport error; it only
 has to have applied a record before answering Ok for it.
 */
module RetryStore {
  import opened Wrappers
  import opened BatchResults
  import opened RetryDriver
  import opened RetryLedger

  type Key = int
  type Bin = string
  type Bins = map<Bin, int>
  type Store = map<Key, Bins>

  /** One element of the batch: a key and the bins put on it under a plain update policy. */
  datatype WriteRecord = WriteRecord(key: Key, bins: Bins)

  /** A put overlays its bins on the record, creating the record when it is absent. */
  function Put(store: Store, rec: WriteRecord): Store {
    store[rec.key := (if rec.key in store then store[rec.key] else map[]) + rec.bins]
  }

  predicate InBatch(effects: seq<nat>, n: nat) {
    forall k :: 0 <= k < |effects| ==> effects[k] < n
  }

  /** The server's work: batch positions in the order in which they were applied. */
  function ApplyAll(store: Store, records: seq<WriteRecord>, effects: seq<nat>): Store
    requires InBatch(effects, |records|)
  {
    if effects == [] then store
    else Put(ApplyAll(store, records, effects[..|effects| - 1]), records[effects[|effects| - 1]])
  }

  function Positions(n: nat): (s: seq<nat>)
    ensures |s| == n && forall i :: 0 <= i < n ==> s[i] == i
  {
    seq(n, (i: nat) => i)
  }

  /** A pass in which every record of the batch is applied once, in batch order. */
  function FaultFree(store: Store, records: seq<WriteRecord>): Store {
    ApplyAll(store, records, Positions(|records|))
  }

  /** Batch positions sent by an attempt on a batch of `n` records. */
  ghost predicate Sends(s: Send, n: nat, i: nat) {
    i < n && (s.indices.None? || i in s.indices.value)
  }

  ghost predicate SentBy(trace: seq<Send>, k: nat, n: nat, i: nat)
    requires k < |trace|
  {
    exists j :: 0 <= j <= k && Sends(trace[j], n, i)
  }

  ghost predicate AppliedBy(effects: seq<seq<nat>>, k: nat, i: nat)
    requires k < |effects|
  {
    exists j :: 0 <= j <= k && i in effects[j]
  }

  /**
   `effects[k]` lists what the server applied around attempt `k`. It may repeat, reorder and
   postpone, but it applies only what had been sent, answers the whole batch in full, and
   answers Ok only for what it has applied.
   */
  ghost predicate HonestServer(n: nat, trace: seq<Send>, effects: seq<seq<nat>>) {
    && |effects| == |trace|
    && (forall k, i :: 0 <= k < |trace| && i in effects[k] ==> SentBy(trace, k, n, i))
    && (forall k :: 0 <= k < |trace| && trace[k].indices.None? && trace[k].reply.Success?
         ==> |trace[k].reply.value| == n)
    && (forall k, i: nat, p: nat :: 0 <= k < |trace| && Carries(trace[k], i, p) && IsOk(trace[k].reply.value[p])
          ==> AppliedBy(effects, k, i))
  }

  function Flatten(effects: seq<seq<nat>>): seq<nat> {
    if effects == [] then [] else Flatten(effects[..|effects| - 1]) + effects[|effects| - 1]
  }

  lemma {:induction false} FlattenMembers(effects: seq<seq<nat>>)
    ensures forall i: nat :: i in Flatten(effects) <==> exists k :: 0 <= k < |effects| && i in effects[k]
  {
    if effects != [] {
      var n := |effects| - 1;
      FlattenMembers(effects[..n]);
      forall i: nat
        ensures i in Flatten(effects) <==> exists k :: 0 <= k < |effects| && i in effects[k]
      {
        if k :| 0 <= k < |effects| && i in effects[k] {
          if k < n {
            assert i in effects[..n][k];
          }
        }
      }
    }
  }

  /** The store after the whole run. */
  ghost function FinalStore(store: Store, records: seq<WriteRecord>, trace: seq<Send>, effects: seq<seq<nat>>): Store
    requires HonestServer(|records|, trace, effects)
  {
    EffectsInRange(|records|, trace, effects);
    ApplyAll(store, records, Flatten(effects))
  }

  lemma EffectsInRange(n: nat, trace: seq<Send>, effects: seq<seq<nat>>)
    requires HonestServer(n, trace, effects)
    ensures InBatch(Flatten(effects), n)
  {
    FlattenMembers(effects);
    var flat := Flatten(effects);
    forall k | 0 <= k < |flat|
      ensures flat[k] < n
    {
      assert flat[k] in flat;
    }
  }

  // ---- What an effect list does, bin by bin ---------------------------------------------

  predicate Writes(records: seq<WriteRecord>, i: nat, key: Key, bin: Bin) {
    i < |records| && records[i].key == key && bin in records[i].bins
  }

  ghost predicate Wrote(records: seq<WriteRecord>, effects: seq<nat>, key: Key, bin: Bin) {
    exists k :: 0 <= k < |effects| && Writes(records, effects[k], key, bin)
  }

  /** Two records of the batch never put different values on the same bin of the same key. */
  ghost predicate Compatible(records: seq<WriteRecord>) {
    forall i: nat, j: nat, b ::
      i < |records| && j < |records| && records[i].key == records[j].key
      && b in records[i].bins && b in records[j].bins
      ==> records[i].bins[b] == records[j].bins[b]
  }

  ghost predicate DistinctKeys(records: seq<WriteRecord>) {
    forall i, j :: 0 <= i < j < |records| ==> records[i].key != records[j].key
  }

  lemma {:induction false} StoreKeys(store: Store, records: seq<WriteRecord>, effects: seq<nat>, key: Key)
    requires InBatch(effects, |records|)
    ensures key in ApplyAll(store, records, effects)
      <==> key in store || exists e :: e in effects && records[e].key == key
  {
    if effects != [] {
      var n := |effects| - 1;
      StoreKeys(store, records, effects[..n], key);
      assert effects == effects[..n] + [effects[n]];
    }
  }

  lemma WroteSnoc(records: seq<WriteRecord>, effects: seq<nat>, key: Key, bin: Bin)
    requires effects != []
    ensures var n := |effects| - 1;
            Wrote(records, effects, key, bin)
            <==> Wrote(records, effects[..n], key, bin) || Writes(records, effects[n], key, bin)
  {
    var n := |effects| - 1;
    if k :| 0 <= k < |effects| && Writes(records, effects[k], key, bin) {
      if k < n {
        assert effects[..n][k] == effects[k];
      }
    }
  }

  lemma {:induction false} StoreBins(store: Store, records: seq<WriteRecord>, effects: seq<nat>, key: Key, bin: Bin)
    requires InBatch(effects, |records|)
    requires key in ApplyAll(store, records, effects)
    ensures bin in ApplyAll(store, records, effects)[key]
      <==> (key in store && bin in store[key]) || Wrote(records, effects, key, bin)
  {
    if effects != [] {
      var n := |effects| - 1;
      WroteSnoc(records, effects, key, bin);
      if key in ApplyAll(store, records, effects[..n]) {
        StoreBins(store, records, effects[..n], key, bin);
      } else {
        StoreKeys(store, records, effects[..n], key);
      }
    }
  }

  /** A bin nobody wrote is as it was; otherwise some applied record put its value there. */
  lemma {:induction false} StoreValues(store: Store, records: seq<WriteRecord>, effects: seq<nat>, key: Key, bin: Bin)
    requires InBatch(effects, |records|)
    requires key in ApplyAll(store, records, effects) && bin in ApplyAll(store, records, effects)[key]
    ensures Wrote(records, effects, key, bin)
            ==> exists k :: 0 <= k < |effects| && Writes(records, effects[k], key, bin)
                            && records[effects[k]].bins[bin] == ApplyAll(store, records, effects)[key][bin]
    ensures !Wrote(records, effects, key, bin)
            ==> key in store && bin in store[key] && ApplyAll(store, records, effects)[key][bin] == store[key][bin]
  {
    if effects != [] {
      var n := |effects| - 1;
      WroteSnoc(records, effects, key, bin);
      if !Writes(records, effects[n], key, bin) {
        StoreValues(store, records, effects[..n], key, bin);
        if Wrote(records, effects[..n], key, bin) {
          var k :| 0 <= k < n && Writes(records, effects[..n][k], key, bin)
                   && records[effects[..n][k]].bins[bin] == ApplyAll(store, records, effects[..n])[key][bin];
          assert effects[..n][k] == effects[k];
        }
      }
    }
  }

  lemma WroteSameMembers(records: seq<WriteRecord>, a: seq<nat>, b: seq<nat>, key: Key, bin: Bin)
    requires forall e :: e in a ==> e in b
    ensures Wrote(records, a, key, bin) ==> Wrote(records, b, key, bin)
  {
    if k :| 0 <= k < |a| && Writes(records, a[k], key, bin) {
      assert a[k] in b;
    }
  }

  /** For compatible records the store depends only on which records were applied. */
  lemma OrderAndRepetitionDoNotMatter(store: Store, records: seq<WriteRecord>, a: seq<nat>, b: seq<nat>)
    requires Compatible(records)
    requires InBatch(a, |records|) && InBatch(b, |records|)
    requires forall e :: e in a <==> e in b
    ensures ApplyAll(store, records, a) == ApplyAll(store, records, b)
  {
    var sa, sb := ApplyAll(store, records, a), ApplyAll(store, records, b);
    forall key
      ensures key in sa <==> key in sb
    {
      StoreKeys(store, records, a, key);
      StoreKeys(store, records, b, key);
    }
    forall key | key in sa
      ensures sa[key] == sb[key]
    {
      forall bin
        ensures bin in sa[key] <==> bin in sb[key]
        ensures bin in sa[key] ==> sa[key][bin] == sb[key][bin]
      {
        StoreBins(store, records, a, key, bin);
        StoreBins(store, records, b, key, bin);
        WroteSameMembers(records, a, b, key, bin);
        WroteSameMembers(records, b, a, key, bin);
        if bin in sa[key] {
          StoreValues(store, records, a, key, bin);
          StoreValues(store, records, b, key, bin);
        }
      }
    }
  }

  // ---- Exactly-once effect --------------------------------------------------------------

  /** A record whose final code is Ok has been applied. */
  lemma {:induction false} OkMeansApplied(n: nat, trace: seq<Send>, effects: seq<seq<nat>>, i: nat)
    requires ValidTrace(trace) && Responded(trace) && HonestServer(n, trace, effects)
    requires i < |Ledger(trace)| && IsOk(Ledger(trace)[i])
    ensures i in Flatten(effects)
  {
    LedgerIsLatest(trace);
    LatestWasCarried(trace, i);
    var k, p: nat :| 0 <= k < |trace| && Carries(trace[k], i, p) && trace[k].reply.value[p] == Ledger(trace)[i];
    assert AppliedBy(effects, k, i);
    FlattenMembers(effects);
  }

  lemma {:induction false} LatestWasCarried(trace: seq<Send>, i: nat)
    requires Latest(trace, i).Some?
    ensures exists k, p: nat ::
              0 <= k < |trace| && Carries(trace[k], i, p) && trace[k].reply.value[p] == Latest(trace, i).value
  {
    var n := |trace| - 1;
    if p: nat :| Carries(trace[n], i, p) && trace[n].reply.value[p] == Latest(trace, i).value {
    } else {
      LatestWasCarried(trace[..n], i);
      var k, p: nat :| 0 <= k < n && Carries(trace[..n][k], i, p)
          && trace[..n][k].reply.value[p] == Latest(trace, i).value;
      assert Carries(trace[k], i, p);
    }
  }

  lemma LedgerLength(n: nat, trace: seq<Send>, effects: seq<seq<nat>>)
    requires ValidTrace(trace) && Responded(trace) && HonestServer(n, trace, effects)
    ensures |Ledger(trace)| == n
  {
    RespondedMeansSomeReply(trace);
    FirstReplyIsFull(trace, n);
  }

  lemma {:induction false} FirstReplyIsFull(trace: seq<Send>, n: nat)
    requires ValidTrace(trace) && Responded(trace)
    requires forall k :: 0 <= k < |trace| && trace[k].indices.None? && trace[k].reply.Success? ==>
               |trace[k].reply.value| == n
    ensures |FirstReply(trace).value| == n
  {
    var m := |trace| - 1;
    if Responded(trace[..m]) {
      ValidTracePrefix(trace, m);
      FirstReplyIsFull(trace[..m], n);
    } else {
      assert trace[m].indices == NextIndices(trace[..m]);
    }
  }

  function Lookup(store: Store, key: Key): Option<Bins> {
    if key in store then Some(store[key]) else None
  }

  /** The record as one application of `rec` leaves it. */
  function Overlaid(store: Store, rec: WriteRecord): Bins {
    (if rec.key in store then store[rec.key] else map[]) + rec.bins
  }

  lemma {:induction false} DistinctKeyEffect(store: Store, records: seq<WriteRecord>, effects: seq<nat>, i: nat)
    requires DistinctKeys(records) && i < |records|
    requires InBatch(effects, |records|)
    ensures Lookup(ApplyAll(store, records, effects), records[i].key)
         == if i in effects then Some(Overlaid(store, records[i])) else Lookup(store, records[i].key)
  {
    if effects != [] {
      var n := |effects| - 1;
      assert effects == effects[..n] + [effects[n]];
      DistinctKeyEffect(store, records, effects[..n], i);
      if effects[n] == i && i in effects[..n] {
        assert Overlaid(store, records[i]) + records[i].bins == Overlaid(store, records[i]);
      }
    }
  }

  /**
   Exactly-once effect from at-least-once sends, record by record: for pairwise distinct keys,
   every run and every fault pattern, a record whose final code is Ok holds exactly one overlay
   of its bins, and any other batch record is untouched or fully overlaid.
   */
  lemma ExactlyOnce(store: Store, records: seq<WriteRecord>, trace: seq<Send>, effects: seq<seq<nat>>, i: nat)
    requires DistinctKeys(records) && i < |records|
    requires ValidTrace(trace) && HonestServer(|records|, trace, effects)
    ensures Responded(trace) ==> |Ledger(trace)| == |records|
    ensures Responded(trace) && IsOk(Ledger(trace)[i])
      ==> Lookup(FinalStore(store, records, trace, effects), records[i].key) == Some(Overlaid(store, records[i]))
    ensures Lookup(FinalStore(store, records, trace, effects), records[i].key)
      in {Some(Overlaid(store, records[i])), Lookup(store, records[i].key)}
  {
    EffectsInRange(|records|, trace, effects);
    DistinctKeyEffect(store, records, Flatten(effects), i);
    if Responded(trace) {
      LedgerLength(|records|, trace, effects);
      if IsOk(Ledger(trace)[i]) {
        OkMeansApplied(|records|, trace, effects, i);
      }
    }
  }

  /** Keys outside the batch are unchanged in every run. */
  lemma OtherKeysUnchanged(store: Store, records: seq<WriteRecord>, trace: seq<Send>, effects: seq<seq<nat>>, key: Key)
    requires HonestServer(|records|, trace, effects)
    requires forall i :: 0 <= i < |records| ==> records[i].key != key
    ensures Lookup(FinalStore(store, records, trace, effects), key) == Lookup(store, key)
  {
    EffectsInRange(|records|, trace, effects);
    UntouchedKey(store, records, Flatten(effects), key);
  }

  ghost predicate AllOk(results: seq<BatchRecord>) {
    forall i :: 0 <= i < |results| ==> IsOk(results[i])
  }

  /** An all-Ok run on compatible records leaves the store of one fault-free pass. */
  lemma AllOkIsFaultFree(store: Store, records: seq<WriteRecord>, trace: seq<Send>, effects: seq<seq<nat>>)
    requires Compatible(records)
    requires ValidTrace(trace) && Responded(trace) && HonestServer(|records|, trace, effects)
    requires AllOk(Ledger(trace))
    ensures FinalStore(store, records, trace, effects) == FaultFree(store, records)
  {
    EffectsInRange(|records|, trace, effects);
    LedgerLength(|records|, trace, effects);
    var flat, all := Flatten(effects), Positions(|records|);
    forall e: nat
      ensures e in flat <==> e in all
    {
      if e in flat {
        assert e < |records| && all[e] == e;
      } else if e < |records| {
        OkMeansApplied(|records|, trace, effects, e);
      }
    }
    OrderAndRepetitionDoNotMatter(store, records, flat, all);
  }

  lemma {:induction false} UntouchedKey(store: Store, records: seq<WriteRecord>, effects: seq<nat>, key: Key)
    requires InBatch(effects, |records|)
    requires forall e :: e in effects ==> records[e].key != key
    ensures Lookup(ApplyAll(store, records, effects), key) == Lookup(store, key)
  {
    if effects != [] {
      var n := |effects| - 1;
      assert effects == effects[..n] + [effects[n]];
      UntouchedKey(store, records, effects[..n], key);
    }
  }

  // ---- Exactly when re-driving is safe --------------------------------------------------

  /**
   The claim as the documentation makes it: whenever the driver ends with every record Ok, the
   store is the one a fault-free pass leaves, for every run within `maxRetries` retries.
   */
  ghost predicate RedriveSafe(records: seq<WriteRecord>, maxRetries: nat) {
    forall store, script, timeoutMs: nat, trace, truncated, effects
      {:trigger FinalStore(store, records, trace, effects),
                Drives(script, maxRetries, timeoutMs, trace, truncated)} ::
      && Drives(script, maxRetries, timeoutMs, trace, truncated)
      && HonestServer(|records|, trace, effects)
      && Responded(trace) && AllOk(Ledger(trace))
      ==> FinalStore(store, records, trace, effects) == FaultFree(store, records)
  }

  /** The last record of the batch that writes this bin. */
  lemma {:induction false} LastWriter(records: seq<WriteRecord>, n: nat, i: nat, bin: Bin) returns (m: nat)
    requires i < n <= |records| && bin in records[i].bins
    ensures i <= m < n && Writes(records, m, records[i].key, bin)
    ensures forall j :: m < j < n ==> !Writes(records, j, records[i].key, bin)
  {
    if Writes(records, n - 1, records[i].key, bin) {
      m := n - 1;
    } else {
      m := LastWriter(records, n - 1, i, bin);
    }
  }

  lemma PositionsSnoc(n: nat)
    requires n > 0
    ensures Positions(n)[..n - 1] == Positions(n - 1)
  {
  }

  lemma {:induction false} FaultFreeValue(store: Store, records: seq<WriteRecord>, n: nat, m: nat, bin: Bin)
    requires m < n <= |records| && bin in records[m].bins
    requires forall j :: m < j < n ==> !Writes(records, j, records[m].key, bin)
    ensures var s := ApplyAll(store, records, Positions(n));
            && records[m].key in s && bin in s[records[m].key]
            && s[records[m].key][bin] == records[m].bins[bin]
  {
    PositionsSnoc(n);
    assert Positions(n)[n - 1] == n - 1;
    if m < n - 1 {
      assert !Writes(records, n - 1, records[m].key, bin);
      FaultFreeValue(store, records, n - 1, m, bin);
    }
  }

  /**
   The run that breaks the claim: the server applies the whole batch but answers Timeout for
   record `r`, which the driver then re-drives after every other record.
   */
  function BusyReply(n: nat, r: nat): seq<BatchRecord> {
    seq(n, (i: nat) => BatchRecord(None, Some(if i == r then Timeout else Ok), None))
  }

  const OK_ANSWER := BatchRecord(None, Some(Ok), None)

  function BusyScript(n: nat, r: nat, maxRetries: nat): seq<Turn> {
    seq(maxRetries + 1, (k: nat) =>
      Turn(0, 0, 0, 0, Success(if k == 0 then BusyReply(n, r) else [OK_ANSWER])))
  }

  function BusyTrace(n: nat, r: nat): seq<Send> {
    [Send(None, Success(BusyReply(n, r))), Send(Some([r]), Success([OK_ANSWER]))]
  }

  lemma BusyRetryList(n: nat, r: nat)
    requires r < n
    ensures RetryList(BusyReply(n, r)) == [r]
  {
    var list := RetryList(BusyReply(n, r));
    RetryListExact(BusyReply(n, r));
    IncreasingListCard(list, {r});
    assert list[0] in list;
  }

  /** After its second reply every record of the busy run answers Ok. */
  lemma BusyLedger(n: nat, r: nat, maxRetries: nat)
    requires r < n && maxRetries >= 1
    ensures Ledger(BusyTrace(n, r)) == seq(n, (i: nat) => OK_ANSWER)
  {
    var first, second := BusyTrace(n, r)[0], BusyTrace(n, r)[1];
    BusyFirst(n, r, maxRetries);
    BusyRetryList(n, r);
    var end := seq(n, (i: nat) => OK_ANSWER);
    assert IsMerge(BusyReply(n, r), [r], [OK_ANSWER], end) by {
      assert [r][0] == r;
    }
    MergedIsLedger([first], second, end);
    assert [first] + [second] == BusyTrace(n, r);
  }

  lemma BusyRun(n: nat, r: nat, maxRetries: nat)
    requires r < n && maxRetries >= 1
    ensures Drives(BusyScript(n, r, maxRetries), maxRetries, 0, BusyTrace(n, r), false)
    ensures Responded(BusyTrace(n, r)) && AllOk(Ledger(BusyTrace(n, r)))
  {
    var first, second := BusyTrace(n, r)[0], BusyTrace(n, r)[1];
    assert [first] + [second] == BusyTrace(n, r);
    BusyFirst(n, r, maxRetries);
    BusyRetryList(n, r);
    FirstReplySnoc([first], second);
    UnderwayStep(BusyScript(n, r, maxRetries), 0, [first], second);
    BusyLedger(n, r, maxRetries);
    NothingToRetry(Ledger(BusyTrace(n, r)));
  }

  lemma {:induction false} NothingToRetry(results: seq<BatchRecord>)
    requires forall i :: 0 <= i < |results| ==> !NeedsRetry(results[i])
    ensures RetryList(results) == []
  {
    if results != [] {
      NothingToRetry(results[..|results| - 1]);
    }
  }

  /** The state of the busy run after its first reply. */
  lemma BusyFirst(n: nat, r: nat, maxRetries: nat)
    requires r < n && maxRetries >= 1
    ensures Underway(BusyScript(n, r, maxRetries), 0, [BusyTrace(n, r)[0]])
    ensures Responded([BusyTrace(n, r)[0]]) && Ledger([BusyTrace(n, r)[0]]) == BusyReply(n, r)
  {
    var first := BusyTrace(n, r)[0];
    assert [] + [first] == [first];
    LedgerSnoc([], first);
    FirstReplySnoc([], first);
    UnderwayStep(BusyScript(n, r, maxRetries), 0, [], first);
  }

  lemma BusyHonest(n: nat, r: nat)
    requires r < n
    ensures HonestServer(n, BusyTrace(n, r), [Positions(n), [r]])
  {
    var trace, effects := BusyTrace(n, r), [Positions(n), [r]];
    forall k, i | 0 <= k < |trace| && i in effects[k]
      ensures SentBy(trace, k, n, i)
    {
      assert Sends(trace[0], n, i);
    }
    forall k, i: nat, p: nat | 0 <= k < |trace| && Carries(trace[k], i, p) && IsOk(trace[k].reply.value[p])
      ensures AppliedBy(effects, k, i)
    {
      assert Positions(n)[i] == i;
      assert i in effects[0];
    }
  }

  /** After that run the re-driven record's value is on its bin. */
  lemma BusyStore(records: seq<WriteRecord>, r: nat, bin: Bin)
    requires r < |records| && bin in records[r].bins
    ensures var trace, effects := BusyTrace(|records|, r), [Positions(|records|), [r]];
            && HonestServer(|records|, trace, effects)
            && var s := FinalStore(map[], records, trace, effects);
               records[r].key in s && bin in s[records[r].key] && s[records[r].key][bin] == records[r].bins[bin]
  {
    var n := |records|;
    var effects: seq<seq<nat>> := [Positions(n), [r]];
    BusyHonest(n, r);
    EffectsInRange(n, BusyTrace(n, r), effects);
    assert effects[..1] == [Positions(n)] && effects[..1][..0] == [];
    assert Flatten(effects[..1]) == Flatten([]) + Positions(n);
    assert Flatten(effects) == Positions(n) + [r];
    assert (Positions(n) + [r])[..n] == Positions(n);
  }

  /** A batch that puts two values on one bin has an all-Ok run that ends in a different store. */
  lemma IncompatibleIsUnsafe(records: seq<WriteRecord>, maxRetries: nat)
    requires maxRetries >= 1 && !Compatible(records)
    ensures !RedriveSafe(records, maxRetries)
  {
    var n := |records|;
    var i: nat, j: nat, bin :| i < n && j < n && records[i].key == records[j].key
      && bin in records[i].bins && bin in records[j].bins && records[i].bins[bin] != records[j].bins[bin];
    var m := LastWriter(records, n, i, bin);
    var r := if records[i].bins[bin] != records[m].bins[bin] then i else j;
    BusyRun(n, r, maxRetries);
    BusyStore(records, r, bin);
    FaultFreeValue(map[], records, n, m, bin);
    assert FinalStore(map[], records, BusyTrace(n, r), [Positions(n), [r]]) != FaultFree(map[], records);
    assert Drives(BusyScript(n, r, maxRetries), maxRetries, 0, BusyTrace(n, r), false);
  }

  /**
   Re-driving a batch is safe exactly when no two of its records put different values on the same
   bin of the same key; with repeated keys that disagree, the documented claim is false.
   */
  lemma RedriveSafeIff(records: seq<WriteRecord>, maxRetries: nat)
    requires maxRetries >= 1
    ensures RedriveSafe(records, maxRetries) <==> Compatible(records)
  {
    if Compatible(records) {
      forall store, script, timeoutMs: nat, trace, truncated, effects
        | && Drives(script, maxRetries, timeoutMs, trace, truncated)
          && HonestServer(|records|, trace, effects)
          && Responded(trace) && AllOk(Ledger(trace))
        ensures FinalStore(store, records, trace, effects) == FaultFree(store, records)
      {
        AllOkIsFaultFree(store, records, trace, effects);
      }
    } else {
      IncompatibleIsUnsafe(records, maxRetries);
    }
  }

  /** A smallest batch on which the claim fails: one key, one bin, two values. */
  lemma RepeatedKeyCounterexample()
    ensures !RedriveSafe([WriteRecord(7, map["v" := 1]), WriteRecord(7, map["v" := 2])], 1)
  {
    var records := [WriteRecord(7, map["v" := 1]), WriteRecord(7, map["v" := 2])];
    assert records[0].bins["v"] != records[1].bins["v"];
    IncompatibleIsUnsafe(records, 1);
  }
}
