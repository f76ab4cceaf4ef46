/**
 Running a query: collecting all records against streaming them to a callback
 (`execute_query_collect`, `execute_query` and `execute_foreach` in rust/src/query.rs).
 */
module QueryStream {
  import opened Wrappers

  /** What the record stream yields: raw records and at any point an error. */
  datatype Item = Raw(id: int) | Broken(code: int)

  datatype QueryError = Transport(code: int) | Conversion(why: int) | CallbackRaised(exception: int)

  /** What a callback does: returns anything but `False`, returns `False`, or raises. */
  datatype Answer = Continue | Stop | Raise(exception: int)

  /** `record_to_py`, which may fail on a record. */
  type Convert = int -> Result<int, int>

  /** A callback may keep state: it answers to all records it has been given so far. */
  type Callback = seq<int> -> Answer

  predicate Delivers(items: seq<Item>, conv: Convert, i: nat) {
    i < |items| && items[i].Raw? && conv(items[i].id).Success?
  }

  predicate DeliversAll(items: seq<Item>, conv: Convert, n: nat) {
    n <= |items| && forall i: nat :: i < n ==> Delivers(items, conv, i)
  }

  lemma AllRaw(items: seq<Item>, conv: Convert, n: nat)
    requires n <= |items|
    ensures DeliversAll(items, conv, n) <==> forall i: nat :: i < n ==> items[i].Raw? && conv(items[i].id).Success?
  {
    if DeliversAll(items, conv, n) {
      forall i: nat | i < n
        ensures items[i].Raw? && conv(items[i].id).Success?
      {
        assert Delivers(items, conv, i);
      }
    }
  }

  /** Record `i` as the caller sees it. */
  function PyRecord(items: seq<Item>, conv: Convert, i: nat): int
    requires Delivers(items, conv, i)
  {
    conv(items[i].id).value
  }

  /** The first `n` records as the caller sees them. */
  function Delivered(items: seq<Item>, conv: Convert, n: nat): (out: seq<int>)
    requires DeliversAll(items, conv, n)
    ensures |out| == n
    ensures forall i: nat :: i < n ==> Delivers(items, conv, i) && out[i] == PyRecord(items, conv, i)
  {
    seq(n, i requires 0 <= i < n => assert Delivers(items, conv, i); PyRecord(items, conv, i))
  }

  predicate FirstBroken(items: seq<Item>, i: nat) {
    i < |items| && items[i].Broken? && forall j: nat :: j < i ==> items[j].Raw?
  }

  predicate FirstUnconvertible(items: seq<Item>, conv: Convert, i: nat) {
    i < |items| && items[i].Raw? && conv(items[i].id).Failure? && DeliversAll(items, conv, i)
  }

  // ---- Collecting -----------------------------------------------------------------------

  /** The outcome of `results`: a stream error comes before any conversion. */
  ghost predicate CollectOutcome(items: seq<Item>, conv: Convert, r: Result<seq<int>, QueryError>) {
    || (exists i: nat :: FirstBroken(items, i) && r == Failure(Transport(items[i].code)))
    || ((forall i: nat :: i < |items| ==> items[i].Raw?)
        && (|| (exists i: nat ::
                  FirstUnconvertible(items, conv, i) && r == Failure(Conversion(conv(items[i].id).error)))
            || (DeliversAll(items, conv, |items|) && r == Success(Delivered(items, conv, |items|)))))
  }

  /** The collecting loop: all records, or the first stream error. */
  method CollectRaw(items: seq<Item>) returns (r: Result<seq<int>, QueryError>)
    ensures r.Success? ==> |r.value| == |items| && forall i: nat :: i < |items| ==> items[i] == Raw(r.value[i])
    ensures r.Failure? ==> exists i: nat :: FirstBroken(items, i) && r.error == Transport(items[i].code)
  {
    var results: seq<int> := [];
    for n := 0 to |items|
      invariant |results| == n && forall i: nat :: i < n ==> items[i] == Raw(results[i])
    {
      match items[n] {
        case Raw(id) =>
          results := results + [id];
        case Broken(code) =>
          assert FirstBroken(items, n);
          return Failure(Transport(code));
      }
    }
    r := Success(results);
  }

  method ExecuteQuery(items: seq<Item>, conv: Convert) returns (r: Result<seq<int>, QueryError>)
    ensures CollectOutcome(items, conv, r)
  {
    var records := CollectRaw(items);
    if records.Failure? {
      return Failure(records.error);
    }
    var out: seq<int> := [];
    for n := 0 to |items|
      invariant DeliversAll(items, conv, n) && out == Delivered(items, conv, n)
    {
      match conv(records.value[n]) {
        case Success(py) =>
          assert Delivers(items, conv, n);
          out := out + [py];
        case Failure(why) =>
          assert FirstUnconvertible(items, conv, n);
          return Failure(Conversion(why));
      }
    }
    r := Success(out);
  }

  // ---- Streaming ------------------------------------------------------------------------

  /** The callback has been given the first `n` records and let the query go on each time but the last. */
  predicate Fed(items: seq<Item>, conv: Convert, callback: Callback, n: nat) {
    DeliversAll(items, conv, n)
    && forall k: nat :: 0 < k < n ==> callback(Delivered(items, conv, n)[..k]) == Continue
  }

  /** The callback was given exactly the first `n` records, and why the query then ended. */
  predicate ForeachOutcome(items: seq<Item>, conv: Convert, callback: Callback, n: nat, r: Result<(), QueryError>) {
    && Fed(items, conv, callback, n)
    && if n > 0 && callback(Delivered(items, conv, n)) != Continue then
         r == match callback(Delivered(items, conv, n))
              case Raise(exception) => Failure(CallbackRaised(exception))
              case _ => Success(())
       else if n == |items| then r == Success(())
       else !Delivers(items, conv, n) && r == Failure(ItemError(items, conv, n))
  }

  function ItemError(items: seq<Item>, conv: Convert, n: nat): QueryError
    requires n < |items| && !Delivers(items, conv, n)
  {
    match items[n]
    case Broken(code) => Transport(code)
    case Raw(id) => Conversion(conv(id).error)
  }

  /** The loop of `execute_foreach`. */
  method ExecuteForeach(items: seq<Item>, conv: Convert, callback: Callback)
    returns (r: Result<(), QueryError>, calls: seq<int>)
    ensures DeliversAll(items, conv, |calls|) && calls == Delivered(items, conv, |calls|)
    ensures ForeachOutcome(items, conv, callback, |calls|, r)
  {
    calls := [];
    for n := 0 to |items|
      invariant |calls| == n && Fed(items, conv, callback, n) && calls == Delivered(items, conv, n)
      invariant n > 0 ==> callback(calls) == Continue
    {
      var raw: int;
      match items[n] {
        case Raw(id) =>
          raw := id;
        case Broken(code) =>
          return Failure(Transport(code)), calls;
      }
      var py := conv(raw);
      if py.Failure? {
        return Failure(Conversion(py.error)), calls;
      }
      FedStep(items, conv, callback, n);
      calls := calls + [py.value];
      match callback(calls) {
        case Raise(exception) =>
          return Failure(CallbackRaised(exception)), calls;
        case Stop =>
          return Success(()), calls;
        case Continue =>
      }
    }
    r := Success(());
  }

  lemma FedStep(items: seq<Item>, conv: Convert, callback: Callback, n: nat)
    requires Fed(items, conv, callback, n) && Delivers(items, conv, n)
    requires n > 0 ==> callback(Delivered(items, conv, n)) == Continue
    ensures Fed(items, conv, callback, n + 1)
    ensures Delivered(items, conv, n + 1) == Delivered(items, conv, n) + [conv(items[n].id).value]
  {
    var before, after := Delivered(items, conv, n), Delivered(items, conv, n + 1);
    assert after == before + [conv(items[n].id).value];
    forall k: nat | 0 < k < n + 1
      ensures callback(after[..k]) == Continue
    {
      if k == n {
        assert after[..n] == before;
      } else {
        assert after[..k] == before[..k];
      }
    }
  }

  lemma DeliveredPrefix(items: seq<Item>, conv: Convert, n: nat, m: nat)
    requires n <= m && DeliversAll(items, conv, m)
    ensures DeliversAll(items, conv, n) && Delivered(items, conv, m)[..n] == Delivered(items, conv, n)
  {
    assert forall i: nat :: i < n ==> Delivers(items, conv, i);
  }

  /** There is exactly one prefix and one outcome that fit. */
  lemma ForeachOutcomeUnique(items: seq<Item>, conv: Convert, callback: Callback,
                             n: nat, r: Result<(), QueryError>, m: nat, q: Result<(), QueryError>)
    requires ForeachOutcome(items, conv, callback, n, r) && ForeachOutcome(items, conv, callback, m, q)
    ensures n == m && r == q
  {
    if n < m {
      ForeachOutcomeOrder(items, conv, callback, n, r, m);
    } else if m < n {
      ForeachOutcomeOrder(items, conv, callback, m, q, n);
    }
  }

  lemma ForeachOutcomeOrder(items: seq<Item>, conv: Convert, callback: Callback, n: nat, r: Result<(), QueryError>,
                            m: nat)
    requires ForeachOutcome(items, conv, callback, n, r) && Fed(items, conv, callback, m)
    ensures m <= n
  {
    if n < m {
      DeliveredPrefix(items, conv, n, m);
    }
  }

  // ---- Streaming refines collecting -----------------------------------------------------

  ghost predicate NeverStops(callback: Callback) {
    forall given: seq<int> :: callback(given) == Continue
  }

  /** A record that cannot be converted comes before a stream error. */
  predicate MaskedConversion(items: seq<Item>, conv: Convert) {
    exists i: nat, j: nat :: i < j < |items| && FirstUnconvertible(items, conv, i) && FirstBroken(items, j)
  }

  /**
   With a callback that never stops, both ways deliver the same records or both fail. They report
   the same error exactly when no unconvertible record comes before a stream error: then streaming
   reports the conversion, and collecting the stream error.
   */
  lemma StreamingRefinesCollecting(items: seq<Item>, conv: Convert, callback: Callback, n: nat,
                                   r: Result<(), QueryError>,
                                   collected: Result<seq<int>, QueryError>)
    requires NeverStops(callback)
    requires ForeachOutcome(items, conv, callback, n, r) && CollectOutcome(items, conv, collected)
    ensures r.Success? <==> collected.Success?
    ensures collected.Success? ==> Delivered(items, conv, n) == collected.value
    ensures r.Failure? ==> (r.error == collected.error <==> !MaskedConversion(items, conv))
  {
    if n < |items| {
      assert !Delivers(items, conv, n);
      if items[n].Broken? {
        FailsOnBroken(items, conv, n, collected);
      } else {
        FailsOnUnconvertible(items, conv, n, collected);
      }
    } else {
      AllRaw(items, conv, n);
    }
  }

  /** One unconvertible record, then a stream error: the two ways report different errors. */
  lemma MaskedConversionExample(why: int, code: int, callback: Callback)
    ensures var items, conv := [Raw(0), Broken(code)], (id: int) => Failure(why);
            && MaskedConversion(items, conv)
            && ForeachOutcome(items, conv, callback, 0, Failure(Conversion(why)))
            && CollectOutcome(items, conv, Failure(Transport(code)))
  {
    var items: seq<Item>, conv: Convert := [Raw(0), Broken(code)], (id: int) => Failure(why);
    assert FirstUnconvertible(items, conv, 0) && FirstBroken(items, 1);
  }

  lemma FailsOnBroken(items: seq<Item>, conv: Convert, n: nat, collected: Result<seq<int>, QueryError>)
    requires DeliversAll(items, conv, n) && n < |items| && items[n].Broken? && CollectOutcome(items, conv, collected)
    ensures collected == Failure(Transport(items[n].code)) && !MaskedConversion(items, conv)
  {
    AllRaw(items, conv, n);
    assert FirstBroken(items, n);
    forall i: nat, j: nat | i < j < |items| && FirstBroken(items, j)
      ensures !FirstUnconvertible(items, conv, i)
    {
      assert j == n;
    }
  }

  lemma FailsOnUnconvertible(items: seq<Item>, conv: Convert, n: nat, collected: Result<seq<int>, QueryError>)
    requires FirstUnconvertible(items, conv, n) && CollectOutcome(items, conv, collected)
    ensures collected.Failure?
    ensures collected.error == Conversion(conv(items[n].id).error) <==> !MaskedConversion(items, conv)
  {
    AllRaw(items, conv, n);
    assert !Delivers(items, conv, n);
    if j: nat :| FirstBroken(items, j) {
      assert items[n].Raw?;
      assert n < j;
    } else {
      assert forall i: nat :: FirstUnconvertible(items, conv, i) ==> i == n;
    }
  }

  /** Any callback is given a prefix of what collecting returns. */
  lemma CallsArePrefix(items: seq<Item>, conv: Convert, callback: Callback, n: nat, r: Result<(), QueryError>,
                       collected: Result<seq<int>, QueryError>)
    requires ForeachOutcome(items, conv, callback, n, r) && CollectOutcome(items, conv, collected)
    requires collected.Success?
    ensures Delivered(items, conv, n) <= collected.value
  {
    DeliveredPrefix(items, conv, n, |items|);
  }
}
