/**
 Re-driven batch writes among other clients' puts: which stores they can end in, and when the re-drive
 can be told from a single delivery.
 */
module RetryForeign {
  import opened Wrappers
  import opened BatchResults
  import opened RetryDriver
  import opened RetryLedger
  import opened RetryStore

  /**
   What was applied, in order: positions below `n` are this batch's records, the others are puts of
   other clients. The server is honest about the batch; the others come whenever they like.
   */
  ghost predicate HonestAmong(n: nat, m: nat, trace: seq<Send>, effects: seq<seq<nat>>) {
    && |effects| == |trace|
    && (forall k, i :: 0 <= k < |trace| && i in effects[k] ==> i < n + m && (i < n ==> SentBy(trace, k, n, i)))
    && (forall k :: 0 <= k < |trace| && trace[k].indices.None? && trace[k].reply.Success?
          ==> |trace[k].reply.value| == n)
    && (forall k, i: nat, p: nat :: 0 <= k < |trace| && Carries(trace[k], i, p) && IsOk(trace[k].reply.value[p])
          ==> AppliedBy(effects, k, i))
  }

  lemma AmongInRange(n: nat, m: nat, trace: seq<Send>, effects: seq<seq<nat>>)
    requires HonestAmong(n, m, trace, effects)
    ensures InBatch(Flatten(effects), n + m)
  {
    FlattenMembers(effects);
    var flat := Flatten(effects);
    forall k | 0 <= k < |flat|
      ensures flat[k] < n + m
    {
      assert flat[k] in flat;
    }
  }

  ghost function FinalAmong(store: Store, records: seq<WriteRecord>, foreign: seq<WriteRecord>,
                            trace: seq<Send>, effects: seq<seq<nat>>): Store
    requires HonestAmong(|records|, |foreign|, trace, effects)
  {
    AmongInRange(|records|, |foreign|, trace, effects);
    ApplyAll(store, records + foreign, Flatten(effects))
  }

  // ---- Each record once, at its last application ----------------------------------------

  /** The history without applications of a batch record that is applied again later. */
  function LastOnly(n: nat, history: seq<nat>): (h: seq<nat>)
    ensures forall i :: i in h <==> i in history
  {
    if history == [] then []
    else
      var rest := LastOnly(n, history[1..]);
      if history[0] < n && history[0] in history[1..] then rest else [history[0]] + rest
  }

  lemma {:induction false} AppliedOnce(n: nat, history: seq<nat>, a: nat, b: nat)
    requires a < b < |LastOnly(n, history)| && LastOnly(n, history)[a] < n
    ensures LastOnly(n, history)[a] != LastOnly(n, history)[b]
  {
    var rest := LastOnly(n, history[1..]);
    if history[0] < n && history[0] in history[1..] {
      AppliedOnce(n, history[1..], a, b);
    } else if a > 0 {
      AppliedOnce(n, history[1..], a - 1, b - 1);
    } else {
      assert rest[b - 1] in history[1..];
    }
  }

  /** Stores that one put of `rec` makes equal. */
  ghost predicate EqualBut(s: Store, t: Store, rec: WriteRecord) {
    Put(s, rec) == Put(t, rec)
    && forall key :: key != rec.key ==> Lookup(s, key) == Lookup(t, key)
  }

  lemma PutKeepsEqualBut(s: Store, t: Store, rec: WriteRecord, other: WriteRecord)
    requires EqualBut(s, t, rec)
    ensures EqualBut(Put(s, other), Put(t, other), rec)
  {
    var x := if rec.key in s then s[rec.key] else map[];
    var y := if rec.key in t then t[rec.key] else map[];
    assert x + rec.bins == Put(s, rec)[rec.key] == Put(t, rec)[rec.key] == y + rec.bins;
    OverlayBetween(x, y, other.bins, rec.bins);
    var s2, t2 := Put(Put(s, other), rec), Put(Put(t, other), rec);
    forall key
      ensures Lookup(s2, key) == Lookup(t2, key)
    {
      assert key != rec.key ==> Lookup(s, key) == Lookup(t, key);
    }
    SameLookups(s2, t2);
    forall key | key != rec.key
      ensures Lookup(Put(s, other), key) == Lookup(Put(t, other), key)
    {
      assert Lookup(s, key) == Lookup(t, key);
    }
  }

  lemma OverlayBetween(x: Bins, y: Bins, p: Bins, r: Bins)
    requires x + r == y + r
    ensures (x + p) + r == (y + p) + r
  {
    forall bin
      ensures bin in (x + p) + r <==> bin in (y + p) + r
      ensures bin in (x + p) + r ==> ((x + p) + r)[bin] == ((y + p) + r)[bin]
    {
      assert bin in x + r <==> bin in y + r;
      if bin in x && bin !in r {
        assert (x + r)[bin] == (y + r)[bin];
      }
    }
  }

  lemma SameLookups(s: Store, t: Store)
    requires forall key :: Lookup(s, key) == Lookup(t, key)
    ensures s == t
  {
    forall key
      ensures key in s <==> key in t
      ensures key in s ==> s[key] == t[key]
    {
      assert Lookup(s, key) == Lookup(t, key);
    }
  }

  lemma {:induction false} ApplyKeepsEqualBut(s: Store, t: Store, all: seq<WriteRecord>, history: seq<nat>,
                                              rec: WriteRecord)
    requires InBatch(history, |all|) && EqualBut(s, t, rec)
    ensures EqualBut(ApplyAll(s, all, history), ApplyAll(t, all, history), rec)
  {
    if history != [] {
      var n := |history| - 1;
      ApplyKeepsEqualBut(s, t, all, history[..n], rec);
      PutKeepsEqualBut(ApplyAll(s, all, history[..n]), ApplyAll(t, all, history[..n]), rec, all[history[n]]);
    }
  }

  /** A put is absorbed by a later put of the same record, whatever lies between. */
  lemma {:induction false} LaterPutAbsorbs(store: Store, all: seq<WriteRecord>, i: nat, history: seq<nat>)
    requires InBatch(history, |all|) && i in history && i < |all|
    ensures ApplyAll(Put(store, all[i]), all, history) == ApplyAll(store, all, history)
    decreases |history|
  {
    var n := |history| - 1;
    assert history == history[..n] + [history[n]];
    if i in history[..n] {
      LaterPutAbsorbs(store, all, i, history[..n]);
    } else {
      PutTwice(store, all[i]);
      ApplyKeepsEqualBut(Put(store, all[i]), store, all, history[..n], all[i]);
    }
  }

  lemma PutTwice(store: Store, rec: WriteRecord)
    ensures EqualBut(Put(store, rec), store, rec)
  {
    var x := if rec.key in store then store[rec.key] else map[];
    assert (x + rec.bins) + rec.bins == x + rec.bins;
  }

  lemma {:induction false} ApplyFromFront(store: Store, all: seq<WriteRecord>, i: nat, history: seq<nat>)
    requires i < |all| && InBatch(history, |all|)
    ensures InBatch([i] + history, |all|)
    ensures ApplyAll(store, all, [i] + history) == ApplyAll(Put(store, all[i]), all, history)
    decreases |history|
  {
    if history == [] {
      assert [i] + history == [i] && [i][..0] == [];
    } else {
      var n := |history| - 1;
      ApplyFromFront(store, all, i, history[..n]);
      assert ([i] + history)[..|history|] == [i] + history[..n];
    }
  }

  /** Any history ends in the store of the same history with each batch record applied just once, the last time. */
  lemma {:induction false} LastApplicationsSuffice(store: Store, all: seq<WriteRecord>, n: nat, history: seq<nat>)
    requires InBatch(history, |all|)
    ensures InBatch(LastOnly(n, history), |all|)
    ensures ApplyAll(store, all, history) == ApplyAll(store, all, LastOnly(n, history))
    decreases |history|
  {
    if history != [] {
      var i, rest := history[0], history[1..];
      assert history == [i] + rest && InBatch(rest, |all|);
      ApplyFromFront(store, all, i, rest);
      if i < n && i in rest {
        LaterPutAbsorbs(store, all, i, rest);
        LastApplicationsSuffice(store, all, n, rest);
      } else {
        LastApplicationsSuffice(Put(store, all[i]), all, n, rest);
        ApplyFromFront(store, all, i, LastOnly(n, rest));
      }
    }
  }

  /**
   Among any puts of other clients, every run of the driver that ends all Ok leaves the store of one
   pass: each record of the batch is put exactly once, at the moment of its last application.
   */
  lemma AllOkIsOnePass(store: Store, records: seq<WriteRecord>, foreign: seq<WriteRecord>,
                       trace: seq<Send>, effects: seq<seq<nat>>)
    requires HonestAmong(|records|, |foreign|, trace, effects)
    requires ValidTrace(trace) && Responded(trace) && AllOk(Ledger(trace))
    ensures var pass := LastOnly(|records|, Flatten(effects));
            && InBatch(pass, |records + foreign|)
            && FinalAmong(store, records, foreign, trace, effects) == ApplyAll(store, records + foreign, pass)
            && (forall i: nat :: i < |records| ==> i in pass)
            && (forall a, b :: 0 <= a < b < |pass| && pass[a] < |records| ==> pass[a] != pass[b])
  {
    var n, flat := |records|, Flatten(effects);
    AmongInRange(n, |foreign|, trace, effects);
    LastApplicationsSuffice(store, records + foreign, n, flat);
    forall i: nat | i < n
      ensures i in LastOnly(n, flat)
    {
      OkIsApplied(n, |foreign|, trace, effects, i);
    }
    forall a, b | 0 <= a < b < |LastOnly(n, flat)| && LastOnly(n, flat)[a] < n
      ensures LastOnly(n, flat)[a] != LastOnly(n, flat)[b]
    {
      AppliedOnce(n, flat, a, b);
    }
  }

  lemma OkIsApplied(n: nat, m: nat, trace: seq<Send>, effects: seq<seq<nat>>, i: nat)
    requires HonestAmong(n, m, trace, effects) && i < n
    requires ValidTrace(trace) && Responded(trace) && AllOk(Ledger(trace))
    ensures i in Flatten(effects)
  {
    FirstReplyIsFull(trace, n);
    LedgerIsLatest(trace);
    LatestWasCarried(trace, i);
    var k, p: nat :|
      0 <= k < |trace| && Carries(trace[k], i, p) && trace[k].reply.value[p] == Ledger(trace)[i];
    assert AppliedBy(effects, k, i);
    FlattenMembers(effects);
  }

  // ---- When the re-drive itself can be seen ---------------------------------------------

  /** The history without the re-deliveries: each batch record applied just the first time. */
  function FirstOnly(n: nat, history: seq<nat>): (h: seq<nat>)
    ensures forall i :: i in h ==> i in history
  {
    if history == [] then []
    else
      var k := |history| - 1;
      var front := FirstOnly(n, history[..k]);
      if history[k] < n && history[k] in history[..k] then front else front + [history[k]]
  }

  /** No put of anyone disagrees with a record of the batch on a bin of the same key. */
  ghost predicate Undisputed(records: seq<WriteRecord>, foreign: seq<WriteRecord>) {
    var all := records + foreign;
    forall i: nat, j: nat, b ::
      i < |records| && j < |all| && all[i].key == all[j].key && b in all[i].bins && b in all[j].bins
      ==> all[i].bins[b] == all[j].bins[b]
  }

  /** Putting again what nobody disputes changes nothing. */
  lemma PutAgain(store: Store, records: seq<WriteRecord>, foreign: seq<WriteRecord>, history: seq<nat>, i: nat)
    requires Undisputed(records, foreign) && InBatch(history, |records + foreign|) && i < |records| && i in history
    ensures var s := ApplyAll(store, records + foreign, history); Put(s, (records + foreign)[i]) == s
  {
    var all := records + foreign;
    var s, rec := ApplyAll(store, all, history), all[i];
    StoreKeys(store, all, history, rec.key);
    forall bin | bin in rec.bins
      ensures bin in s[rec.key] && s[rec.key][bin] == rec.bins[bin]
    {
      var k :| 0 <= k < |history| && history[k] == i;
      assert Writes(all, history[k], rec.key, bin);
      StoreBins(store, all, history, rec.key, bin);
      StoreValues(store, all, history, rec.key, bin);
    }
    assert s[rec.key] + rec.bins == s[rec.key];
  }

  lemma {:induction false} FirstApplicationsSuffice(store: Store, records: seq<WriteRecord>, foreign: seq<WriteRecord>,
                                                     history: seq<nat>)
    requires Undisputed(records, foreign) && InBatch(history, |records + foreign|)
    ensures InBatch(FirstOnly(|records|, history), |records + foreign|)
    ensures ApplyAll(store, records + foreign, FirstOnly(|records|, history))
         == ApplyAll(store, records + foreign, history)
    decreases |history|
  {
    if history != [] {
      var n, k := |records|, |history| - 1;
      var front := FirstOnly(n, history[..k]);
      FirstApplicationsSuffice(store, records, foreign, history[..k]);
      if history[k] < n && history[k] in history[..k] {
        PutAgain(store, records, foreign, history[..k], history[k]);
      } else {
        assert (front + [history[k]])[..|front|] == front;
      }
    }
  }

  /**
   Re-driving cannot be seen: every all-Ok run, with any puts of `foreign` at any time, ends as if no
   record had been delivered again.
   */
  ghost predicate RedriveInvisible(records: seq<WriteRecord>, foreign: seq<WriteRecord>, maxRetries: nat) {
    forall store, script, timeoutMs: nat, trace, truncated, effects
      {:trigger FinalAmong(store, records, foreign, trace, effects),
                Drives(script, maxRetries, timeoutMs, trace, truncated)} ::
      && Drives(script, maxRetries, timeoutMs, trace, truncated)
      && HonestAmong(|records|, |foreign|, trace, effects)
      && Responded(trace) && AllOk(Ledger(trace))
      ==> SameAsDeliveredOnce(store, records, foreign, trace, effects)
  }

  ghost predicate SameAsDeliveredOnce(store: Store, records: seq<WriteRecord>, foreign: seq<WriteRecord>,
                                      trace: seq<Send>, effects: seq<seq<nat>>)
    requires HonestAmong(|records|, |foreign|, trace, effects)
  {
    var once := FirstOnly(|records|, Flatten(effects));
    InBatch(once, |records + foreign|)
    && FinalAmong(store, records, foreign, trace, effects) == ApplyAll(store, records + foreign, once)
  }

  /** The busy run with a put of another client after the whole batch and before the re-drive. */
  lemma BusyAmongHonest(n: nat, m: nat, r: nat, extra: seq<nat>)
    requires r < n && forall i :: i in extra ==> n <= i < n + m
    ensures HonestAmong(n, m, BusyTrace(n, r), [Positions(n) + extra, [r]])
  {
    var trace, effects := BusyTrace(n, r), [Positions(n) + extra, [r]];
    forall k, i | 0 <= k < |trace| && i in effects[k]
      ensures i < n + m && (i < n ==> SentBy(trace, k, n, i))
    {
      if i < n {
        assert Sends(trace[0], n, i);
      }
    }
    forall k, i: nat, p: nat | 0 <= k < |trace| && Carries(trace[k], i, p) && IsOk(trace[k].reply.value[p])
      ensures AppliedBy(effects, k, i)
    {
      assert Positions(n)[i] == i;
      assert i in effects[0];
    }
  }

  lemma {:induction false} PositionsOnce(n: nat, k: nat)
    requires k <= n
    ensures FirstOnly(n, Positions(k)) == Positions(k)
  {
    if k > 0 {
      PositionsSnoc(k);
      PositionsOnce(n, k - 1);
      assert Positions(k) == Positions(k - 1) + [k - 1];
    }
  }

  lemma FirstOnlySnoc(n: nat, history: seq<nat>, x: nat)
    ensures FirstOnly(n, history + [x])
         == if x < n && x in history then FirstOnly(n, history) else FirstOnly(n, history) + [x]
  {
    assert (history + [x])[..|history|] == history;
  }

  lemma FlattenTwo(a: seq<nat>, b: seq<nat>)
    ensures Flatten([a, b]) == a + b
  {
    var effects: seq<seq<nat>> := [a, b];
    assert effects[..1] == [a] && [a][..0] == [];
    assert Flatten([a]) == Flatten([a][..0]) + a;
    assert [] + a == a;
  }

  /** The history of that run, and the same without the re-drive. */
  lemma BusyAmongHistory(n: nat, r: nat, extra: seq<nat>)
    requires r < n && (extra == [] || (|extra| == 1 && n <= extra[0]))
    ensures Flatten([Positions(n) + extra, [r]]) == Positions(n) + extra + [r]
    ensures FirstOnly(n, Positions(n) + extra + [r]) == Positions(n) + extra
  {
    var before := Positions(n) + extra;
    FlattenTwo(before, [r]);
    PositionsOnce(n, n);
    if extra == [] {
      assert before == Positions(n);
    } else {
      assert before == Positions(n) + [extra[0]];
      FirstOnlySnoc(n, Positions(n), extra[0]);
    }
    assert before[r] == r;
    FirstOnlySnoc(n, before, r);
  }

  /** A run with this history refutes the claim when the history without re-deliveries ends elsewhere. */
  lemma RunRefutes(records: seq<WriteRecord>, foreign: seq<WriteRecord>, script: seq<Turn>, maxRetries: nat,
                   trace: seq<Send>, effects: seq<seq<nat>>, history: seq<nat>, once: seq<nat>)
    requires Drives(script, maxRetries, 0, trace, false) && HonestAmong(|records|, |foreign|, trace, effects)
    requires Responded(trace) && AllOk(Ledger(trace))
    requires Flatten(effects) == history && FirstOnly(|records|, history) == once
    requires InBatch(history, |records + foreign|) && InBatch(once, |records + foreign|)
    requires ApplyAll(map[], records + foreign, history) != ApplyAll(map[], records + foreign, once)
    ensures !RedriveInvisible(records, foreign, maxRetries)
  {
    assert !SameAsDeliveredOnce(map[], records, foreign, trace, effects);
    assert FinalAmong(map[], records, foreign, trace, effects) == ApplyAll(map[], records + foreign, history);
  }

  /** The busy run refutes the claim when its last put can be seen. */
  lemma BusyAmongRefutes(records: seq<WriteRecord>, foreign: seq<WriteRecord>, maxRetries: nat, r: nat, extra: seq<nat>,
                         history: seq<nat>, once: seq<nat>)
    requires maxRetries >= 1 && r < |records|
    requires extra == [] || (|extra| == 1 && |records| <= extra[0] < |records + foreign|)
    requires once == Positions(|records|) + extra && history == once + [r]
    requires InBatch(history, |records + foreign|) && InBatch(once, |records + foreign|)
    requires ApplyAll(map[], records + foreign, history) != ApplyAll(map[], records + foreign, once)
    ensures !RedriveInvisible(records, foreign, maxRetries)
  {
    var n := |records|;
    var script, trace, effects := BusyScript(n, r, maxRetries), BusyTrace(n, r), [once, [r]];
    BusyRun(n, r, maxRetries);
    BusyAmongHonest(n, |foreign|, r, extra);
    BusyAmongHistory(n, r, extra);
    RunRefutes(records, foreign, script, maxRetries, trace, effects, history, once);
  }

  lemma LastPutWins(store: Store, all: seq<WriteRecord>, history: seq<nat>, x: nat, bin: Bin)
    requires InBatch(history, |all|) && x < |all| && bin in all[x].bins
    ensures InBatch(history + [x], |all|)
    ensures var s := ApplyAll(store, all, history + [x]);
            all[x].key in s && bin in s[all[x].key] && s[all[x].key][bin] == all[x].bins[bin]
  {
    assert (history + [x])[..|history|] == history;
  }

  /** A put of another client that disputes record `i` is overwritten by the re-drive. */
  lemma DisputedPutIsLost(records: seq<WriteRecord>, foreign: seq<WriteRecord>, maxRetries: nat, i: nat, j: nat,
                          bin: Bin)
    requires maxRetries >= 1 && i < |records| && j < |foreign| && records[i].key == foreign[j].key
    requires bin in records[i].bins && bin in foreign[j].bins && records[i].bins[bin] != foreign[j].bins[bin]
    ensures !RedriveInvisible(records, foreign, maxRetries)
  {
    var n, all := |records|, records + foreign;
    assert all[n + j] == foreign[j] && all[i] == records[i];
    LastPutWins(map[], all, Positions(n), n + j, bin);
    LastPutWins(map[], all, Positions(n) + [n + j], i, bin);
    BusyAmongRefutes(records, foreign, maxRetries, i, [n + j], Positions(n) + [n + j] + [i], Positions(n) + [n + j]);
  }

  /** Two records of the batch that dispute a bin show the re-drive without any other client. */
  lemma DisputedBatchShows(records: seq<WriteRecord>, foreign: seq<WriteRecord>, maxRetries: nat, i: nat, j: nat,
                           bin: Bin)
    requires maxRetries >= 1 && i < |records| && j < |records| && records[i].key == records[j].key
    requires bin in records[i].bins && bin in records[j].bins && records[i].bins[bin] != records[j].bins[bin]
    ensures !RedriveInvisible(records, foreign, maxRetries)
  {
    var n, all := |records|, records + foreign;
    assert all[i] == records[i] && all[j] == records[j];
    var m := LastWriter(all, n, i, bin);
    var r := if all[i].bins[bin] != all[m].bins[bin] then i else j;
    FaultFreeValue(map[], all, n, m, bin);
    assert Positions(n) + [] == Positions(n);
    LastPutWins(map[], all, Positions(n), r, bin);
    BusyAmongRefutes(records, foreign, maxRetries, r, [], Positions(n) + [r], Positions(n));
  }

  /**
   Among puts of other clients, re-driving a batch cannot be seen exactly when no put, of another client
   or of the batch itself, disputes a bin of one of its records. A disputed put of another client that
   lands between two deliveries is lost.
   */
  lemma RedriveInvisibleIff(records: seq<WriteRecord>, foreign: seq<WriteRecord>, maxRetries: nat)
    requires maxRetries >= 1
    ensures RedriveInvisible(records, foreign, maxRetries) <==> Undisputed(records, foreign)
  {
    var all, n := records + foreign, |records|;
    if Undisputed(records, foreign) {
      forall store, script, timeoutMs: nat, trace, truncated, effects
        | && Drives(script, maxRetries, timeoutMs, trace, truncated)
          && HonestAmong(n, |foreign|, trace, effects)
          && Responded(trace) && AllOk(Ledger(trace))
        ensures SameAsDeliveredOnce(store, records, foreign, trace, effects)
      {
        AmongInRange(n, |foreign|, trace, effects);
        FirstApplicationsSuffice(store, records, foreign, Flatten(effects));
      }
    } else {
      var i: nat, j: nat, bin :|
        i < n && j < |all| && all[i].key == all[j].key && bin in all[i].bins && bin in all[j].bins
        && all[i].bins[bin] != all[j].bins[bin];
      if j < n {
        DisputedBatchShows(records, foreign, maxRetries, i, j, bin);
      } else {
        DisputedPutIsLost(records, foreign, maxRetries, i, j - n, bin);
      }
    }
  }

  /** A smallest lost put: one record, one other client, one bin. */
  lemma LostPutExample()
    ensures !RedriveInvisible([WriteRecord(7, map["v" := 1])], [WriteRecord(7, map["v" := 2])], 1)
  {
    DisputedPutIsLost([WriteRecord(7, map["v" := 1])], [WriteRecord(7, map["v" := 2])], 1, 0, 0, "v");
  }
}
