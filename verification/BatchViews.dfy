/**
 The views that a handle on batch-read results offers: `to_dict`, `to_list`, `__len__`,
 `found_count`, `all_user_keys` and the record iterator (rust/src/batch_types.rs).
 */
module BatchViews {
  import opened Wrappers
  import opened BatchResults

  /** A Python value, opaque here. */
  type PyValue = int

  /** `value_to_py`: one bin value becomes a Python value, raises, or panics. */
  datatype Conversion = Converts(py: PyValue) | Raises | Panics

  type Converter = Value -> Conversion

  type PyBins = map<string, PyValue>

  /** How a conversion of several values ends. */
  datatype Outcome<+T> = Done(value: T) | Raised | Panicked

  // ---- Which records a view shows -------------------------------------------------------

  predicate HasBody(br: BatchRecord) {
    IsOk(br) && br.record.Some?
  }

  /** The records of the dict view. */
  predicate Qualifies(br: BatchRecord) {
    br.userKey.Some? && HasBody(br)
  }

  /**
   What makes two keys one entry of a Python dict. Numbers are one entry when they are equal, whatever
   their types; a NaN or a key that cannot be hashed is equal to no other key.
   */
  datatype DictKey =
    | TextEntry(s: string)
    | BytesEntry(data: seq<Byte>)
    | NumberEntry(r: real)
    | InfinityEntry(negative: bool)
    | OwnEntry(position: nat)

  function EntryKey(key: UserKey, position: nat): DictKey {
    match key
    case StringKey(s) => TextEntry(s)
    case BytesKey(data) => BytesEntry(data)
    case IntKey(k) => NumberEntry(k as real)
    case BoolKey(truth) => NumberEntry(if truth then 1.0 else 0.0)
    case FloatKey(Number(r)) => NumberEntry(r)
    case FloatKey(Infinite(negative)) => InfinityEntry(negative)
    case FloatKey(NotANumber) => OwnEntry(position)
    case UnhashableKey(_) => OwnEntry(position)
  }

  predicate Hashable(key: UserKey) {
    !key.UnhashableKey?
  }

  /** The value of a key that is a number. */
  function NumericValue(key: UserKey): Option<real> {
    match key
    case IntKey(k) => Some(k as real)
    case BoolKey(truth) => Some(if truth then 1.0 else 0.0)
    case FloatKey(Number(r)) => Some(r)
    case _ => None
  }

  /** Python's `==` on two keys that are different objects; unhashable keys never meet in a dict. */
  predicate PythonEqual(a: UserKey, b: UserKey) {
    || (NumericValue(a).Some? && NumericValue(a) == NumericValue(b))
    || (NumericValue(a).None? && a == b && a != FloatKey(NotANumber) && Hashable(a))
  }

  /** Keys at two positions share an entry exactly when Python finds them equal. */
  lemma EntriesAreEquality(a: UserKey, i: nat, b: UserKey, j: nat)
    requires i != j
    ensures EntryKey(a, i) == EntryKey(b, j) <==> PythonEqual(a, b)
  {
  }

  function KeyAt(results: seq<BatchRecord>, i: nat): DictKey
    requires i < |results| && results[i].userKey.Some?
  {
    EntryKey(results[i].userKey.value, i)
  }

  predicate QualifiesAs(results: seq<BatchRecord>, i: nat, k: DictKey) {
    i < |results| && Qualifies(results[i]) && KeyAt(results, i) == k
  }

  /** `i` is the last position that qualifies under its key. */
  predicate LastForItsKey(results: seq<BatchRecord>, i: nat) {
    i < |results| && Qualifies(results[i])
    && forall j: nat :: i < j < |results| ==> !QualifiesAs(results, j, KeyAt(results, i))
  }

  /** The bins dict of a record, in the order of its hash map; the first value that fails decides. */
  function ConvertBins(conv: Converter, bins: seq<(string, Value)>): Outcome<PyBins> {
    if bins == [] then Done(map[])
    else
      var n := |bins| - 1;
      match ConvertBins(conv, bins[..n])
      case Raised => Raised
      case Panicked => Panicked
      case Done(dict) =>
        match conv(bins[n].1)
        case Raises => Raised
        case Panics => Panicked
        case Converts(py) => Done(dict[bins[n].0 := py])
  }

  function BodyOf(conv: Converter, br: BatchRecord): Outcome<PyBins>
    requires HasBody(br)
  {
    ConvertBins(conv, br.record.value.bins)
  }

  /** A record's entry in the dict view; a key that cannot be hashed fails once the bins are converted. */
  function EntryOf(conv: Converter, br: BatchRecord): Outcome<PyBins>
    requires Qualifies(br)
  {
    var body := BodyOf(conv, br);
    if body.Done? && !Hashable(br.userKey.value) then Raised else body
  }

  /** The dict view: the keys of the qualifying records, each with its last qualifying bins. */
  ghost predicate IsDictView(conv: Converter, results: seq<BatchRecord>, d: map<DictKey, PyBins>) {
    && (forall k :: k in d ==> exists i: nat :: i < |results| && QualifiesAs(results, i, k))
    && (forall i: nat :: i < |results| && Qualifies(results[i]) ==> KeyAt(results, i) in d)
    && (forall i: nat :: LastForItsKey(results, i) ==> EntryOf(conv, results[i]) == Done(d[KeyAt(results, i)]))
  }

  /** The list view: one slot for each record, its bins or nothing. */
  predicate IsListView(conv: Converter, results: seq<BatchRecord>, l: seq<Option<PyBins>>) {
    && |l| == |results|
    && forall i: nat :: i < |results| ==> IsSlot(conv, results[i], l[i])
  }

  predicate IsSlot(conv: Converter, br: BatchRecord, slot: Option<PyBins>) {
    if HasBody(br) then slot.Some? && BodyOf(conv, br) == Done(slot.value) else slot == None
  }

  /** A record that the dict view shows, and that converts. */
  predicate ShowsFine(conv: Converter, br: BatchRecord) {
    Qualifies(br) ==> EntryOf(conv, br).Done?
  }

  predicate ListsFine(conv: Converter, br: BatchRecord) {
    HasBody(br) ==> BodyOf(conv, br).Done?
  }

  predicate DictConverts(conv: Converter, results: seq<BatchRecord>) {
    forall i: nat :: i < |results| ==> ShowsFine(conv, results[i])
  }

  predicate ListConverts(conv: Converter, results: seq<BatchRecord>) {
    forall i: nat :: i < |results| ==> ListsFine(conv, results[i])
  }

  /** How the conversion for the dict view ends: the first record shown that fails decides. */
  function DictOutcome(conv: Converter, results: seq<BatchRecord>): Outcome<()> {
    if results == [] then Done(())
    else
      var n := |results| - 1;
      var front := DictOutcome(conv, results[..n]);
      if !front.Done? || !Qualifies(results[n]) then front else Ending(EntryOf(conv, results[n]))
  }

  function Ending<T>(outcome: Outcome<T>): Outcome<()> {
    match outcome
    case Done(_) => Done(())
    case Raised => Raised
    case Panicked => Panicked
  }

  lemma {:induction false} DictOutcomeDone(conv: Converter, results: seq<BatchRecord>)
    ensures DictOutcome(conv, results).Done? <==> DictConverts(conv, results)
  {
    if results != [] {
      var n := |results| - 1;
      DictOutcomeDone(conv, results[..n]);
      assert forall i: nat :: i < n ==> results[..n][i] == results[i];
    }
  }

  /** The conversion panics exactly when the first failing record that it shows panics. */
  lemma {:induction false} DictPanicsIff(conv: Converter, results: seq<BatchRecord>)
    ensures DictOutcome(conv, results).Panicked?
      <==> exists i: nat :: i < |results| && Qualifies(results[i]) && EntryOf(conv, results[i]).Panicked?
                            && DictConverts(conv, results[..i])
  {
    if results != [] {
      var n := |results| - 1;
      var front := results[..n];
      DictPanicsIff(conv, front);
      DictOutcomeDone(conv, front);
      assert forall i: nat :: i < n ==> front[i] == results[i] && front[..i] == results[..i];
      if DictOutcome(conv, results).Panicked? {
        if DictOutcome(conv, front).Panicked? {
          var i: nat :| i < n && Qualifies(front[i]) && EntryOf(conv, front[i]).Panicked?
              && DictConverts(conv, front[..i]);
          assert Qualifies(results[i]) && DictConverts(conv, results[..i]);
        } else {
          assert Qualifies(results[n]) && DictConverts(conv, results[..n]);
        }
      }
      if i: nat :|
        && i < |results| && Qualifies(results[i]) && EntryOf(conv, results[i]).Panicked?
        && DictConverts(conv, results[..i])
      {
        if i < n {
          assert Qualifies(front[i]) && DictConverts(conv, front[..i]);
        }
      }
    }
  }

  lemma {:induction false} DictOutcomeStays(conv: Converter, results: seq<BatchRecord>, n: nat)
    requires n <= |results| && !DictOutcome(conv, results[..n]).Done?
    ensures DictOutcome(conv, results) == DictOutcome(conv, results[..n])
    decreases |results|
  {
    if n == |results| {
      assert results[..n] == results;
    } else {
      assert results[..|results| - 1][..n] == results[..n];
      DictOutcomeStays(conv, results[..|results| - 1], n);
    }
  }

  // ---- The conversions ------------------------------------------------------------------

  lemma {:induction false} BinsOutcomeStays(conv: Converter, bins: seq<(string, Value)>, n: nat)
    requires n <= |bins| && !ConvertBins(conv, bins[..n]).Done?
    ensures ConvertBins(conv, bins) == ConvertBins(conv, bins[..n])
    decreases |bins|
  {
    if n == |bins| {
      assert bins[..n] == bins;
    } else {
      assert bins[..|bins| - 1][..n] == bins[..n];
      BinsOutcomeStays(conv, bins[..|bins| - 1], n);
    }
  }

  predicate LastOfItsName(bins: seq<(string, Value)>, i: nat) {
    i < |bins| && forall j: nat :: i < j < |bins| ==> bins[j].0 != bins[i].0
  }

  predicate AllConvert(conv: Converter, bins: seq<(string, Value)>) {
    forall i: nat :: i < |bins| ==> conv(bins[i].1).Converts?
  }

  /** Bin `i` is the first that does not convert, and it ends as `c`. */
  predicate FailsAt(conv: Converter, bins: seq<(string, Value)>, i: nat, c: Conversion) {
    i < |bins| && conv(bins[i].1) == c && !c.Converts? && forall j: nat :: j < i ==> conv(bins[j].1).Converts?
  }

  predicate NameOccurs(bins: seq<(string, Value)>, name: string) {
    exists i: nat :: i < |bins| && bins[i].0 == name
  }

  /** The keys of `d` are exactly the bin names, and each has the Python value of the last bin of that name. */
  ghost predicate IsBinsDict(conv: Converter, bins: seq<(string, Value)>, d: PyBins) {
    && (forall i: nat :: i < |bins| ==> BinHeld(conv, bins, d, i))
    && (forall name :: name in d ==> NameOccurs(bins, name))
  }

  /** What a record's bins become: the dict of all of them, or the end of the first that fails. */
  ghost predicate BinsEndAs(conv: Converter, bins: seq<(string, Value)>, r: Outcome<PyBins>) {
    match r
    case Done(d) => AllConvert(conv, bins) && IsBinsDict(conv, bins, d)
    case Raised => exists i: nat :: FailsAt(conv, bins, i, Raises)
    case Panicked => exists i: nat :: FailsAt(conv, bins, i, Panics)
  }

  /** The key of one bin is in the dict, with that bin's value when it is the last of its name. */
  predicate BinHeld(conv: Converter, bins: seq<(string, Value)>, d: PyBins, i: nat)
    requires i < |bins|
  {
    bins[i].0 in d && (LastOfItsName(bins, i) ==> conv(bins[i].1) == Converts(d[bins[i].0]))
  }

  lemma LastInFront(bins: seq<(string, Value)>, i: nat)
    requires i < |bins| - 1 && LastOfItsName(bins, i)
    ensures LastOfItsName(bins[..|bins| - 1], i) && bins[|bins| - 1].0 != bins[i].0
  {
    var front := bins[..|bins| - 1];
    assert forall j: nat :: i < j < |front| ==> front[j] == bins[j];
  }

  /** One more bin takes its own name, and leaves every other name as it was. */
  lemma BinHeldStep(conv: Converter, bins: seq<(string, Value)>, d: PyBins, py: PyValue, i: nat)
    requires i < |bins| && conv(bins[|bins| - 1].1) == Converts(py)
    requires i < |bins| - 1 ==> BinHeld(conv, bins[..|bins| - 1], d, i)
    ensures BinHeld(conv, bins, d[bins[|bins| - 1].0 := py], i)
  {
    if i < |bins| - 1 && LastOfItsName(bins, i) {
      LastInFront(bins, i);
    }
  }

  lemma BinsDictStep(conv: Converter, bins: seq<(string, Value)>, d: PyBins, py: PyValue)
    requires bins != [] && IsBinsDict(conv, bins[..|bins| - 1], d) && conv(bins[|bins| - 1].1) == Converts(py)
    ensures IsBinsDict(conv, bins, d[bins[|bins| - 1].0 := py])
  {
    var n := |bins| - 1;
    var front, e := bins[..n], d[bins[n].0 := py];
    forall i: nat | i < |bins|
      ensures BinHeld(conv, bins, e, i)
    {
      if i < n {
        assert BinHeld(conv, front, d, i);
      }
      BinHeldStep(conv, bins, d, py, i);
    }
    forall name | name in e
      ensures NameOccurs(bins, name)
    {
      if name != bins[n].0 {
        assert NameOccurs(front, name);
        var i: nat :| i < n && front[i].0 == name;
        assert bins[i].0 == name;
      } else {
        assert bins[n].0 == name;
      }
    }
  }

  lemma FailureExtends(conv: Converter, bins: seq<(string, Value)>, i: nat, c: Conversion)
    requires bins != [] && FailsAt(conv, bins[..|bins| - 1], i, c)
    ensures FailsAt(conv, bins, i, c)
  {
    assert forall j: nat :: j <= i ==> bins[..|bins| - 1][j] == bins[j];
  }

  lemma FailsLast(conv: Converter, bins: seq<(string, Value)>, c: Conversion)
    requires bins != [] && conv(bins[|bins| - 1].1) == c && !c.Converts?
    requires forall i: nat :: i < |bins| - 1 ==> conv(bins[i].1).Converts?
    ensures FailsAt(conv, bins, |bins| - 1, c)
  {
  }

  lemma BinsEndStep(conv: Converter, bins: seq<(string, Value)>, d: PyBins)
    requires bins != [] && AllConvert(conv, bins[..|bins| - 1]) && IsBinsDict(conv, bins[..|bins| - 1], d)
    ensures match conv(bins[|bins| - 1].1)
            case Raises => BinsEndAs(conv, bins, Raised)
            case Panics => BinsEndAs(conv, bins, Panicked)
            case Converts(py) => BinsEndAs(conv, bins, Done(d[bins[|bins| - 1].0 := py]))
  {
    var n: nat := |bins| - 1;
    var front := bins[..n];
    forall i: nat | i < n
      ensures conv(bins[i].1).Converts?
    {
      assert conv(front[i].1).Converts?;
    }
    match conv(bins[n].1) {
      case Raises => FailsLast(conv, bins, Raises);
      case Panics => FailsLast(conv, bins, Panics);
      case Converts(py) => BinsDictStep(conv, bins, d, py);
    }
  }

  lemma {:induction false} ConvertBinsMeans(conv: Converter, bins: seq<(string, Value)>)
    ensures BinsEndAs(conv, bins, ConvertBins(conv, bins))
  {
    if bins != [] {
      var front := bins[..|bins| - 1];
      ConvertBinsMeans(conv, front);
      match ConvertBins(conv, front) {
        case Raised =>
          var i: nat :| FailsAt(conv, front, i, Raises);
          FailureExtends(conv, bins, i, Raises);
        case Panicked =>
          var i: nat :| FailsAt(conv, front, i, Panics);
          FailureExtends(conv, bins, i, Panics);
        case Done(d) => BinsEndStep(conv, bins, d);
      }
    }
  }

  lemma {:induction false} LastOfName(bins: seq<(string, Value)>, i: nat) returns (last: nat)
    requires i < |bins|
    ensures LastOfItsName(bins, last) && bins[last].0 == bins[i].0
    decreases |bins| - i
  {
    if LastOfItsName(bins, i) {
      last := i;
    } else {
      var j: nat :| i < j < |bins| && bins[j].0 == bins[i].0;
      last := LastOfName(bins, j);
    }
  }

  lemma BinsDictWithin(conv: Converter, bins: seq<(string, Value)>, a: PyBins, b: PyBins)
    requires IsBinsDict(conv, bins, a) && IsBinsDict(conv, bins, b)
    ensures forall name :: name in a ==> name in b
  {
    forall name | name in a
      ensures name in b
    {
      assert NameOccurs(bins, name);
      var i: nat :| i < |bins| && bins[i].0 == name;
      assert BinHeld(conv, bins, b, i);
    }
  }

  /** Two dicts of the same bins are the same dict. */
  lemma BinsDictUnique(conv: Converter, bins: seq<(string, Value)>, a: PyBins, b: PyBins)
    requires IsBinsDict(conv, bins, a) && IsBinsDict(conv, bins, b)
    ensures a == b
  {
    BinsDictWithin(conv, bins, a, b);
    BinsDictWithin(conv, bins, b, a);
    forall name | name in a
      ensures a[name] == b[name]
    {
      assert NameOccurs(bins, name);
      var i: nat :| i < |bins| && bins[i].0 == name;
      var last := LastOfName(bins, i);
      assert BinHeld(conv, bins, a, last) && BinHeld(conv, bins, b, last);
    }
  }

  /** The bins of a record can end in one way only. */
  lemma BinsEndUnique(conv: Converter, bins: seq<(string, Value)>, a: Outcome<PyBins>, b: Outcome<PyBins>)
    requires BinsEndAs(conv, bins, a) && BinsEndAs(conv, bins, b)
    ensures a == b
  {
    if a.Done? && b.Done? {
      BinsDictUnique(conv, bins, a.value, b.value);
    }
  }

  /** The inner loop over one record's bins. */
  method ConvertRecord(conv: Converter, bins: seq<(string, Value)>) returns (r: Outcome<PyBins>)
    ensures BinsEndAs(conv, bins, r) && r == ConvertBins(conv, bins)
  {
    ConvertBinsMeans(conv, bins);
    var dict: PyBins := map[];
    for n := 0 to |bins|
      invariant ConvertBins(conv, bins[..n]) == Done(dict)
    {
      assert bins[..n + 1][..n] == bins[..n];
      match conv(bins[n].1) {
        case Raises =>
          BinsOutcomeStays(conv, bins, n + 1);
          return Raised;
        case Panics =>
          BinsOutcomeStays(conv, bins, n + 1);
          return Panicked;
        case Converts(py) =>
          dict := dict[bins[n].0 := py];
      }
    }
    assert bins[..|bins|] == bins;
    r := Done(dict);
  }

  /** Within a prefix, records qualify under the same keys. */
  lemma SameInPrefix(results: seq<BatchRecord>, n: nat, i: nat, k: DictKey)
    requires i < n <= |results|
    ensures QualifiesAs(results[..n], i, k) <==> QualifiesAs(results, i, k)
  {
  }

  lemma LastInPrefix(results: seq<BatchRecord>, n: nat, i: nat)
    requires i < n < |results| && LastForItsKey(results[..n + 1], i)
    ensures LastForItsKey(results[..n], i) && KeyAt(results[..n], i) == KeyAt(results[..n + 1], i)
    ensures Qualifies(results[n]) ==> KeyAt(results, n) != KeyAt(results[..n + 1], i)
  {
    var longer, k := results[..n + 1], KeyAt(results[..n + 1], i);
    assert longer[..n] == results[..n];
    assert !QualifiesAs(longer, n, k);
    forall j: nat | i < j < n
      ensures !QualifiesAs(results[..n], j, k)
    {
      SameInPrefix(longer, n, j, k);
      assert !QualifiesAs(longer, j, k);
    }
  }

  lemma DictViewStep(conv: Converter, results: seq<BatchRecord>, n: nat, d: map<DictKey, PyBins>)
    requires n < |results| && IsDictView(conv, results[..n], d) && ShowsFine(conv, results[n])
    ensures var br := results[n];
            IsDictView(conv, results[..n + 1],
                       if Qualifies(br) then d[KeyAt(results, n) := EntryOf(conv, br).value] else d)
  {
    var br, rs, was := results[n], results[..n + 1], results[..n];
    var e := if Qualifies(br) then d[KeyAt(results, n) := EntryOf(conv, br).value] else d;
    assert rs[..n] == was && rs[n] == br;
    forall k | k in e
      ensures exists i: nat :: i < |rs| && QualifiesAs(rs, i, k)
    {
      if k in d {
        var i: nat :| i < |was| && QualifiesAs(was, i, k);
        SameInPrefix(rs, n, i, k);
      } else {
        assert QualifiesAs(rs, n, k);
      }
    }
    forall i: nat | i < |rs| && Qualifies(rs[i])
      ensures KeyAt(rs, i) in e
    {
      assert i < n ==> was[i] == rs[i] && KeyAt(was, i) in d;
    }
    forall i: nat | LastForItsKey(rs, i)
      ensures EntryOf(conv, rs[i]) == Done(e[KeyAt(rs, i)])
    {
      if i < n {
        LastInPrefix(results, n, i);
        assert was[i] == rs[i];
      }
    }
  }

  /** The dict built from the first `n` records. */
  ghost predicate Shown(conv: Converter, results: seq<BatchRecord>, n: nat, d: map<DictKey, PyBins>)
    requires n <= |results|
  {
    DictOutcome(conv, results[..n]) == Done(()) && IsDictView(conv, results[..n], d)
  }

  lemma ShownStep(conv: Converter, results: seq<BatchRecord>, n: nat, d: map<DictKey, PyBins>)
    requires n < |results| && Shown(conv, results, n, d)
    ensures !Qualifies(results[n]) ==> Shown(conv, results, n + 1, d)
    ensures Qualifies(results[n]) && EntryOf(conv, results[n]).Done?
      ==> Shown(conv, results, n + 1, d[KeyAt(results, n) := EntryOf(conv, results[n]).value])
    ensures Qualifies(results[n]) && !EntryOf(conv, results[n]).Done?
      ==> DictOutcome(conv, results) == Ending(EntryOf(conv, results[n]))
  {
    assert results[..n + 1][..n] == results[..n];
    if ShowsFine(conv, results[n]) {
      DictViewStep(conv, results, n, d);
    } else {
      DictOutcomeStays(conv, results, n + 1);
    }
  }

  /**
   The dict view bin by bin: under the key of every record with a user key, a success code and a body, the
   bins of the last such record with that key, and nothing under any other key.
   */
  ghost predicate ShowsBins(conv: Converter, results: seq<BatchRecord>, d: map<DictKey, PyBins>) {
    && (forall i: nat :: i < |results| && IsShown(results[i]) ==> EntryKey(results[i].userKey.value, i) in d)
    && (forall k :: k in d ==>
          exists i: nat :: i < |results| && IsShown(results[i]) && EntryKey(results[i].userKey.value, i) == k
                           && (forall j: nat :: i < j < |results| && IsShown(results[j])
                                 ==> EntryKey(results[j].userKey.value, j) != k)
                           && IsBinsDict(conv, results[i].record.value.bins, d[k]))
  }

  predicate IsShown(br: BatchRecord) {
    br.userKey.Some? && br.record.Some? && (br.resultCode.Some? ==> br.resultCode.value == Ok)
  }

  lemma DictViewShowsBins(conv: Converter, results: seq<BatchRecord>, d: map<DictKey, PyBins>)
    requires IsDictView(conv, results, d)
    ensures ShowsBins(conv, results, d)
  {
    forall k | k in d
      ensures exists i: nat :: i < |results| && IsShown(results[i]) && EntryKey(results[i].userKey.value, i) == k
                               && (forall j: nat :: i < j < |results| && IsShown(results[j])
                                     ==> EntryKey(results[j].userKey.value, j) != k)
                               && IsBinsDict(conv, results[i].record.value.bins, d[k])
    {
      var at: nat :| at < |results| && QualifiesAs(results, at, k);
      var i := LastPosition(results, at);
      assert EntryOf(conv, results[i]) == Done(d[k]);
      ConvertBinsMeans(conv, results[i].record.value.bins);
      forall j: nat | i < j < |results| && IsShown(results[j])
        ensures EntryKey(results[j].userKey.value, j) != k
      {
        assert !QualifiesAs(results, j, k);
      }
    }
  }

  /** The first record shown that fails: a bin that does not convert, or all do and the key cannot be hashed. */
  ghost predicate ShownFailsAt(conv: Converter, results: seq<BatchRecord>, i: nat, c: Conversion) {
    && i < |results| && IsShown(results[i])
    && (|| (exists b: nat :: FailsAt(conv, results[i].record.value.bins, b, c))
        || (c.Raises? && AllConvert(conv, results[i].record.value.bins) && results[i].userKey.value.UnhashableKey?))
    && forall j: nat :: j < i && IsShown(results[j]) ==>
         AllConvert(conv, results[j].record.value.bins) && !results[j].userKey.value.UnhashableKey?
  }

  lemma {:induction false} DictFailsAt(conv: Converter, results: seq<BatchRecord>) returns (i: nat)
    requires !DictOutcome(conv, results).Done?
    ensures i < |results| && Qualifies(results[i]) && DictConverts(conv, results[..i])
    ensures Ending(EntryOf(conv, results[i])) == DictOutcome(conv, results)
  {
    var n := |results| - 1;
    if DictOutcome(conv, results[..n]).Done? {
      DictOutcomeDone(conv, results[..n]);
      i := n;
    } else {
      i := DictFailsAt(conv, results[..n]);
      assert results[..n][..i] == results[..i];
    }
  }

  lemma DictFailureShows(conv: Converter, results: seq<BatchRecord>, c: Conversion)
    requires DictOutcome(conv, results) == if c.Raises? then Raised else Panicked
    requires !c.Converts?
    ensures exists i: nat :: ShownFailsAt(conv, results, i, c)
  {
    var i := DictFailsAt(conv, results);
    ConvertBinsMeans(conv, results[i].record.value.bins);
    forall j: nat | j < i && IsShown(results[j])
      ensures AllConvert(conv, results[j].record.value.bins) && !results[j].userKey.value.UnhashableKey?
    {
      assert results[..i][j] == results[j] && ShowsFine(conv, results[..i][j]);
      ConvertBinsMeans(conv, results[j].record.value.bins);
    }
    assert ShownFailsAt(conv, results, i, c);
  }

  /** `batch_to_dict_py`: ends as the first record it shows that fails does, or with the dict view. */
  method BatchToDict(conv: Converter, results: seq<BatchRecord>) returns (r: Outcome<map<DictKey, PyBins>>)
    ensures Ending(r) == DictOutcome(conv, results)
    ensures r.Done? ==> IsDictView(conv, results, r.value) && ShowsBins(conv, results, r.value)
    ensures r.Raised? ==> exists i: nat :: ShownFailsAt(conv, results, i, Raises)
    ensures r.Panicked? ==> exists i: nat :: ShownFailsAt(conv, results, i, Panics)
  {
    if DictOutcome(conv, results).Raised? {
      DictFailureShows(conv, results, Raises);
    } else if DictOutcome(conv, results).Panicked? {
      DictFailureShows(conv, results, Panics);
    }
    var dict: map<DictKey, PyBins> := map[];
    for n := 0 to |results|
      invariant Shown(conv, results, n, dict)
    {
      ShownStep(conv, results, n, dict);
      var br := results[n];
      if br.userKey.None? || !IsOk(br) {
        continue;
      }
      if br.record.Some? {
        var bins := ConvertRecord(conv, br.record.value.bins);
        match bins {
          case Raised => return Raised;
          case Panicked => return Panicked;
          case Done(body) =>
            if !Hashable(br.userKey.value) {
              return Raised;
            }
            dict := dict[KeyAt(results, n) := body];
        }
      }
    }
    assert results[..|results|] == results;
    DictViewShowsBins(conv, results, dict);
    r := Done(dict);
  }

  /** The list view bin by bin: a slot has bins exactly when its record has a success code and a body. */
  ghost predicate ListsBins(conv: Converter, results: seq<BatchRecord>, l: seq<Option<PyBins>>) {
    && |l| == |results|
    && forall i: nat :: i < |results| ==>
         var listed := results[i].record.Some? && (results[i].resultCode.Some? ==> results[i].resultCode.value == Ok);
         && (l[i].Some? <==> listed)
         && (listed ==> IsBinsDict(conv, results[i].record.value.bins, l[i].value))
  }

  lemma ListViewListsBins(conv: Converter, results: seq<BatchRecord>, l: seq<Option<PyBins>>)
    requires IsListView(conv, results, l)
    ensures ListsBins(conv, results, l)
  {
    forall i: nat | i < |results| && HasBody(results[i])
      ensures IsSlot(conv, results[i], l[i]) && IsBinsDict(conv, results[i].record.value.bins, l[i].value)
    {
      ConvertBinsMeans(conv, results[i].record.value.bins);
    }
    assert forall i: nat :: i < |results| ==> IsSlot(conv, results[i], l[i]);
  }

  /** `batch_to_list_py`. */
  method BatchToList(conv: Converter, results: seq<BatchRecord>) returns (r: Outcome<seq<Option<PyBins>>>)
    ensures r.Done? <==> ListConverts(conv, results)
    ensures r.Done? ==> IsListView(conv, results, r.value) && ListsBins(conv, results, r.value)
    ensures !r.Done? ==> exists i: nat :: i < |results| && HasBody(results[i])
                                          && Ending(BodyOf(conv, results[i])) == Ending(r)
                                          && forall j: nat :: j < i ==> ListsFine(conv, results[j])
  {
    var out: seq<Option<PyBins>> := [];
    for n := 0 to |results|
      invariant |out| == n
      invariant forall i: nat :: i < n ==> ListsFine(conv, results[i]) && IsSlot(conv, results[i], out[i])
    {
      var br := results[n];
      if !IsOk(br) {
        out := out + [None];
        continue;
      }
      match br.record {
        case Some(record) =>
          var bins := ConvertRecord(conv, record.bins);
          match bins {
            case Raised =>
              assert !ListsFine(conv, results[n]);
              return Raised;
            case Panicked =>
              assert !ListsFine(conv, results[n]);
              return Panicked;
            case Done(body) => out := out + [Some(body)];
          }
        case None =>
          out := out + [None];
      }
    }
    ListViewListsBins(conv, results, out);
    r := Done(out);
  }

  /** `merge_to_dict`: one dict view for each handle, or the end of the first that fails. */
  method MergeToDict(conv: Converter, handles: seq<seq<BatchRecord>>) returns (r: Outcome<seq<map<DictKey, PyBins>>>)
    ensures r.Done? <==> forall h: nat :: h < |handles| ==> DictOutcome(conv, handles[h]).Done?
    ensures r.Done? ==> |r.value| == |handles|
                        && forall h: nat :: h < |handles| ==> IsDictView(conv, handles[h], r.value[h])
    ensures !r.Done? ==> exists h: nat :: h < |handles| && DictOutcome(conv, handles[h]) == Ending(r)
                                          && forall j: nat :: j < h ==> DictOutcome(conv, handles[j]).Done?
  {
    var dicts: seq<map<DictKey, PyBins>> := [];
    for h := 0 to |handles|
      invariant |dicts| == h
      invariant forall j: nat :: j < h ==> DictOutcome(conv, handles[j]).Done? && IsDictView(conv, handles[j], dicts[j])
    {
      var dict := BatchToDict(conv, handles[h]);
      match dict {
        case Raised => return Raised;
        case Panicked => return Panicked;
        case Done(d) => dicts := dicts + [d];
      }
    }
    r := Done(dicts);
  }

  /** `__len__`, `found_count` and `collect_user_keys`: chains over the records. */
  function Len(results: seq<BatchRecord>): nat {
    if results == [] then 0
    else Len(results[..|results| - 1]) + if Qualifies(results[|results| - 1]) then 1 else 0
  }

  function FoundCount(results: seq<BatchRecord>): nat {
    if results == [] then 0
    else FoundCount(results[..|results| - 1]) + if IsOk(results[|results| - 1]) then 1 else 0
  }

  function CollectUserKeys(results: seq<BatchRecord>): (keys: seq<Option<UserKey>>)
    ensures |keys| == |results| && forall i: nat :: i < |keys| ==> keys[i] == results[i].userKey
  {
    seq(|results|, i requires 0 <= i < |results| => results[i].userKey)
  }

  /** The positions of the records that were delivered with wire code 0 or with none. */
  ghost function Successes(results: seq<BatchRecord>): set<nat> {
    set i: nat | i < |results| && (results[i].resultCode.Some? ==> ResultCodeToInt(results[i].resultCode.value) == 0)
  }

  /** The positions of the records that succeeded and have both a user key and a body. */
  ghost function ShownPositions(results: seq<BatchRecord>): set<nat> {
    set i: nat | i < |results| && IsShown(results[i])
  }

  lemma SuccessesSnoc(results: seq<BatchRecord>)
    requires results != []
    ensures var n := |results| - 1;
            Successes(results) == Successes(results[..n]) + if IsOk(results[n]) then {n} else {}
  {
    assert forall i: nat :: i < |results| - 1 ==> results[..|results| - 1][i] == results[i];
  }

  lemma ShownSnoc(results: seq<BatchRecord>)
    requires results != []
    ensures var n := |results| - 1;
            ShownPositions(results) == ShownPositions(results[..n]) + if Qualifies(results[n]) then {n} else {}
  {
    assert forall i: nat :: i < |results| - 1 ==> results[..|results| - 1][i] == results[i];
  }

  /** `found_count` counts the successes, and `__len__` those of them that have a user key and a body. */
  lemma {:induction false} CountsAreExact(results: seq<BatchRecord>)
    ensures FoundCount(results) == |Successes(results)| && Len(results) == |ShownPositions(results)|
  {
    if results != [] {
      var n := |results| - 1;
      var front := results[..n];
      CountsAreExact(front);
      SuccessesSnoc(results);
      ShownSnoc(results);
    }
  }

  // ---- How the views agree --------------------------------------------------------------

  predicate DistinctQualifyingKeys(results: seq<BatchRecord>) {
    forall i: nat, j: nat :: i < j < |results| && Qualifies(results[i]) && Qualifies(results[j])
      ==> KeyAt(results, i) != KeyAt(results, j)
  }

  lemma {:induction false} LastPosition(results: seq<BatchRecord>, i: nat) returns (last: nat)
    requires i < |results| && Qualifies(results[i])
    ensures LastForItsKey(results, last) && KeyAt(results, last) == KeyAt(results, i)
    decreases |results| - i
  {
    if LastForItsKey(results, i) {
      last := i;
    } else {
      var j: nat :| i < j < |results| && QualifiesAs(results, j, KeyAt(results, i));
      last := LastPosition(results, j);
    }
  }

  /** There is only one dict view. */
  lemma DictViewUnique(conv: Converter, results: seq<BatchRecord>, a: map<DictKey, PyBins>, b: map<DictKey, PyBins>)
    requires IsDictView(conv, results, a) && IsDictView(conv, results, b)
    ensures a == b
  {
    assert a.Keys == b.Keys;
    forall k | k in a
      ensures a[k] == b[k]
    {
      var i: nat :| i < |results| && QualifiesAs(results, i, k);
      var last := LastPosition(results, i);
    }
  }

  /** A key of the dict view holds what the list view has at that key's last qualifying position. */
  lemma DictAgreesWithList(conv: Converter, results: seq<BatchRecord>, d: map<DictKey, PyBins>, l: seq<Option<PyBins>>,
                           k: DictKey)
    returns (last: nat)
    requires IsDictView(conv, results, d) && IsListView(conv, results, l) && k in d
    ensures LastForItsKey(results, last) && KeyAt(results, last) == k && l[last] == Some(d[k])
  {
    var i: nat :| i < |results| && QualifiesAs(results, i, k);
    last := LastPosition(results, i);
  }

  predicate KeysHashable(results: seq<BatchRecord>) {
    forall i: nat :: i < |results| && Qualifies(results[i]) ==> Hashable(results[i].userKey.value)
  }

  /**
   With hashable keys, whatever the list view can convert the dict view can; the converse fails on
   digest-only records.
   */
  lemma ListConvertsMore(conv: Converter, results: seq<BatchRecord>)
    ensures ListConverts(conv, results) && KeysHashable(results) ==> DictConverts(conv, results)
    ensures DictConverts(conv, results)
      && (forall i: nat :: i < |results| && HasBody(results[i]) ==> results[i].userKey.Some?)
      ==> ListConverts(conv, results)
  {
    if ListConverts(conv, results) {
      assert forall i: nat :: i < |results| ==> ListsFine(conv, results[i]);
    }
    if DictConverts(conv, results) {
      assert forall i: nat :: i < |results| ==> ShowsFine(conv, results[i]);
    }
  }

  ghost function QualifyingKeys(results: seq<BatchRecord>): set<DictKey> {
    set i: nat | i < |results| && Qualifies(results[i]) :: KeyAt(results, i)
  }

  lemma KeysSnoc(results: seq<BatchRecord>)
    requires results != []
    ensures var n := |results| - 1;
            QualifyingKeys(results)
            == QualifyingKeys(results[..n]) + if Qualifies(results[n]) then {KeyAt(results, n)} else {}
  {
    var n := |results| - 1;
    assert forall i: nat :: i < n ==> results[..n][i] == results[i];
    if Qualifies(results[n]) {
      assert KeyAt(results, n) in QualifyingKeys(results);
    }
    forall k | k in QualifyingKeys(results[..n])
      ensures k in QualifyingKeys(results)
    {
      var i: nat :| i < n && Qualifies(results[..n][i]) && KeyAt(results[..n], i) == k;
      assert KeyAt(results, i) == k;
    }
  }

  lemma DistinctSnoc(results: seq<BatchRecord>)
    requires results != []
    ensures var n := |results| - 1;
            DistinctQualifyingKeys(results) <==>
            && DistinctQualifyingKeys(results[..n])
            && (Qualifies(results[n]) ==> KeyAt(results, n) !in QualifyingKeys(results[..n]))
  {
    var n := |results| - 1;
    var front := results[..n];
    assert forall i: nat :: i < n ==> front[i] == results[i];
    if Qualifies(results[n]) && KeyAt(results, n) !in QualifyingKeys(front) {
      forall i: nat | i < n && Qualifies(results[i])
        ensures KeyAt(results, i) != KeyAt(results, n)
      {
        assert KeyAt(front, i) in QualifyingKeys(front);
      }
    }
  }

  lemma {:induction false} KeysCounted(results: seq<BatchRecord>)
    ensures |QualifyingKeys(results)| <= Len(results)
    ensures |QualifyingKeys(results)| == Len(results) <==> DistinctQualifyingKeys(results)
  {
    if results != [] {
      KeysCounted(results[..|results| - 1]);
      KeysSnoc(results);
      DistinctSnoc(results);
    }
  }

  lemma {:induction false} LenWithinFound(results: seq<BatchRecord>)
    ensures Len(results) <= FoundCount(results) <= |results|
  {
    if results != [] {
      LenWithinFound(results[..|results| - 1]);
    }
  }

  lemma DictViewKeys(conv: Converter, results: seq<BatchRecord>, d: map<DictKey, PyBins>)
    requires IsDictView(conv, results, d)
    ensures d.Keys == QualifyingKeys(results)
  {
    forall k | k in d
      ensures k in QualifyingKeys(results)
    {
      var i: nat :| i < |results| && QualifiesAs(results, i, k);
      assert KeyAt(results, i) in QualifyingKeys(results);
    }
  }

  /**
   The sizes of the views. `__len__` promises the size of the dict view; that holds exactly when no
   user key qualifies twice (the same key in two sets of one batch does).
   */
  lemma ViewSizes(conv: Converter, results: seq<BatchRecord>, d: map<DictKey, PyBins>, l: seq<Option<PyBins>>)
    requires IsDictView(conv, results, d) && IsListView(conv, results, l)
    ensures |d| <= Len(results) <= FoundCount(results) <= |l| == |CollectUserKeys(results)| == |results|
    ensures |d| == Len(results) <==> DistinctQualifyingKeys(results)
  {
    DictViewKeys(conv, results, d);
    KeysCounted(results);
    LenWithinFound(results);
  }

  /**
   Two found records whose keys Python finds equal: `__len__` says 2, and the dict view has as many
   entries as it must.
   */
  lemma EqualKeysShrinkDict(conv: Converter, a: UserKey, b: UserKey, d: map<DictKey, PyBins>)
    requires IsDictView(conv, [Found(a), Found(b)], d)
    ensures Len([Found(a), Found(b)]) == 2 && |d| == if PythonEqual(a, b) then 1 else 2
  {
    var results := [Found(a), Found(b)];
    assert results[..1] == [Found(a)] && [Found(a)][..0] == [] && Len([Found(a)]) == 1;
    EntriesAreEquality(a, 0, b, 1);
    DictViewKeys(conv, results, d);
    TwoKeys(results);
    assert d.Keys == {KeyAt(results, 0), KeyAt(results, 1)};
  }

  lemma TwoKeys(results: seq<BatchRecord>)
    requires |results| == 2 && Qualifies(results[0]) && Qualifies(results[1])
    ensures QualifyingKeys(results) == {KeyAt(results, 0), KeyAt(results, 1)}
  {
    var first: nat, second: nat := 0, 1;
    assert KeyAt(results, first) in QualifyingKeys(results) && KeyAt(results, second) in QualifyingKeys(results);
  }

  /** The same key in two sets of one batch; or 1, 1.0 and True, which differ as values. A NaN key is never shared. */
  lemma SharedEntries(k: Int64)
    ensures PythonEqual(IntKey(k), IntKey(k)) && PythonEqual(IntKey(k), FloatKey(Number(k as real)))
    ensures IntKey(1) != FloatKey(Number(1.0)) && FloatKey(Number(1.0)) != BoolKey(true)
    ensures PythonEqual(IntKey(1), FloatKey(Number(1.0))) && PythonEqual(FloatKey(Number(1.0)), BoolKey(true))
    ensures PythonEqual(IntKey(0), BoolKey(false)) && !PythonEqual(IntKey(k), IntKey(if k == 0 then 1 else 0))
    ensures !PythonEqual(FloatKey(NotANumber), FloatKey(NotANumber))
  {
  }

  function Found(k: UserKey): BatchRecord {
    BatchRecord(Some(k), None, Some(Record(1, 0, [])))
  }

  // ---- The record iterator --------------------------------------------------------------

  class PyBatchReadIter {
    const inner: seq<BatchRecord>
    var index: nat

    ghost predicate Valid()
      reads this
    {
      index <= |inner|
    }

    /** What is still to come. */
    ghost function Remaining(): seq<BatchRecord>
      reads this
      requires Valid()
    {
      inner[index..]
    }

    constructor (results: seq<BatchRecord>)
      ensures Valid() && Remaining() == results
    {
      inner := results;
      index := 0;
    }

    /** `__next__`: the first remaining record, or nothing, for ever. */
    method Next() returns (br: Option<BatchRecord>)
      requires Valid()
      modifies this
      ensures Valid()
      ensures old(Remaining()) == [] ==> br == None && Remaining() == []
      ensures old(Remaining()) != [] ==> br.Some? && old(Remaining()) == [br.value] + Remaining()
    {
      if index >= |inner| {
        return None;
      }
      br := Some(inner[index]);
      index := index + 1;
    }
  }

  /** A Python `for` loop over `iter_records()` sees every record once, in request order. */
  method IterRecords(results: seq<BatchRecord>) returns (seen: seq<BatchRecord>)
    ensures seen == results
  {
    var it := new PyBatchReadIter(results);
    seen := [];
    var next := it.Next();
    while next.Some?
      invariant it.Valid() && fresh(it)
      invariant seen + (if next.Some? then [next.value] else []) + it.Remaining() == results
      invariant next.None? ==> it.Remaining() == []
      decreases |it.Remaining()| + if next.Some? then 1 else 0
    {
      seen := seen + [next.value];
      next := it.Next();
    }
  }
}
