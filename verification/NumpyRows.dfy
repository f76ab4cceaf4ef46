/** What the rows of a filled NumPy buffer hold, field by field, and how they read back. */
module NumpyRows {
  import opened Wrappers
  import opened BatchResults
  import opened ByteCodec
  import opened NumpyFields
  import opened NumpyFill

  // ---- The dtype ------------------------------------------------------------------------

  /** One entry of a structured dtype as NumPy reports it; byte order is that of the base scalar. */
  datatype DtypeEntry = DtypeEntry(name: string, offset: nat, itemsize: nat, baseItemsize: nat, kind: char,
    byteorder: char)

  datatype DtypeError = UnsupportedKind | NonNativeByteOrder | ExceedsRow

  function KindOf(c: char): Option<DtypeKind> {
    if c == 'i' then Some(IntKind)
    else if c == 'u' then Some(UintKind)
    else if c == 'f' then Some(FloatKind)
    else if c == 'S' then Some(FixedBytes)
    else if c == 'V' then Some(VoidBytes)
    else None
  }

  predicate NativeByteOrder(c: char) {
    c == '=' || c == '|' || c == '<'
  }

  /** The checks of `parse_dtype_fields` on one entry, in their order. */
  function CheckEntry(e: DtypeEntry, rowStride: nat): Option<DtypeError> {
    if KindOf(e.kind).None? then Some(UnsupportedKind)
    else if !NativeByteOrder(e.byteorder) then Some(NonNativeByteOrder)
    else if e.offset + e.itemsize > rowStride then Some(ExceedsRow)
    else None
  }

  function FieldOfEntry(e: DtypeEntry): FieldInfo
    requires KindOf(e.kind).Some?
  {
    FieldInfo(e.name, e.offset, e.itemsize, e.baseItemsize, KindOf(e.kind).value)
  }

  predicate AllPass(entries: seq<DtypeEntry>, rowStride: nat) {
    forall k :: 0 <= k < |entries| ==> CheckEntry(entries[k], rowStride).None?
  }

  /** The fields of a dtype that passes, in order. */
  function FieldsOf(entries: seq<DtypeEntry>, rowStride: nat): (fields: seq<FieldInfo>)
    requires AllPass(entries, rowStride)
    ensures |fields| == |entries|
    ensures forall k :: 0 <= k < |entries| ==> KindOf(entries[k].kind).Some? && fields[k] == FieldOfEntry(entries[k])
    ensures forall k :: 0 <= k < |entries| ==> Fits(fields[k], rowStride)
  {
    seq(|entries|, k requires 0 <= k < |entries| => assert CheckEntry(entries[k], rowStride).None?;
      FieldOfEntry(entries[k]))
  }

  /** `e` is what the first entry that does not pass reports. */
  ghost predicate FirstDtypeError(entries: seq<DtypeEntry>, rowStride: nat, e: DtypeError) {
    exists k :: 0 <= k < |entries| && CheckEntry(entries[k], rowStride) == Some(e)
                && forall j :: 0 <= j < k ==> CheckEntry(entries[j], rowStride).None?
  }

  /**
   `parse_dtype_fields`: accepts exactly the dtypes all of whose entries pass, keeps every entry in
   order, and otherwise reports the first entry that does not.
   */
  method ParseDtypeFields(entries: seq<DtypeEntry>, rowStride: nat) returns (r: Result<seq<FieldInfo>, DtypeError>)
    ensures r.Success? <==> AllPass(entries, rowStride)
    ensures r.Success? ==> r.value == FieldsOf(entries, rowStride)
    ensures r.Failure? ==> FirstDtypeError(entries, rowStride, r.error)
  {
    var fields: seq<FieldInfo> := [];
    for k := 0 to |entries|
      invariant |fields| == k
      invariant forall j :: 0 <= j < k ==>
                  CheckEntry(entries[j], rowStride).None? && fields[j] == FieldOfEntry(entries[j])
    {
      var e := entries[k];
      var kind := KindOf(e.kind);
      if kind.None? {
        return Failure(UnsupportedKind);
      }
      if !NativeByteOrder(e.byteorder) {
        return Failure(NonNativeByteOrder);
      }
      if e.offset + e.itemsize > rowStride {
        return Failure(ExceedsRow);
      }
      fields := fields + [FieldInfo(e.name, e.offset, e.itemsize, e.baseItemsize, kind.value)];
    }
    r := Success(fields);
  }

  /** What a caller can check of a dtype beforehand: every field's extent, not just its size, is within the row. */
  predicate RowSafe(entries: seq<DtypeEntry>, rowStride: nat) {
    forall k :: 0 <= k < |entries| && KindOf(entries[k].kind).Some? ==> InRow(FieldOfEntry(entries[k]), rowStride)
  }

  lemma RowSafeFieldsStay(entries: seq<DtypeEntry>, rowStride: nat)
    requires AllPass(entries, rowStride)
    ensures RowSafe(entries, rowStride) <==> StaysInRow(FieldsOf(entries, rowStride), rowStride)
  {
    var fields := FieldsOf(entries, rowStride);
    assert forall k :: 0 <= k < |entries| ==> KindOf(entries[k].kind).Some? && fields[k] == FieldOfEntry(entries[k]);
  }

  /** No numeric field is shorter than one scalar of it: true of every dtype without zero-length sub-arrays. */
  predicate NoShortFields(entries: seq<DtypeEntry>) {
    forall k :: 0 <= k < |entries| ==> entries[k].kind in {'S', 'V'} || entries[k].itemsize >= entries[k].baseItemsize
  }

  /** With no short fields, the parser's bounds check is enough. */
  lemma CheckedFieldsStayInRow(entries: seq<DtypeEntry>, rowStride: nat)
    requires AllPass(entries, rowStride) && NoShortFields(entries)
    ensures RowSafe(entries, rowStride) && StaysInRow(FieldsOf(entries, rowStride), rowStride)
  {
    var fields := FieldsOf(entries, rowStride);
    forall k | 0 <= k < |fields|
      ensures InRow(fields[k], rowStride)
    {
      assert Fits(fields[k], rowStride) && fields[k] == FieldOfEntry(entries[k]);
    }
    RowSafeFieldsStay(entries, rowStride);
  }

  /**
   The bounds check by itself promises no overrun and does not deliver it. A field that passes it is
   overrun by some store, and over-read by loads, exactly when its scalar is longer than the field; a
   zero-length sub-array `('v', 'i4', (0,))` is such a field.
   */
  lemma CheckedFieldOverrunsIff(ieee: Ieee, e: DtypeEntry, rowStride: nat)
    requires CheckEntry(e, rowStride).None?
    ensures KindOf(e.kind).Some?
    ensures var f := FieldOfEntry(e);
            && (StoresWithin(ieee, f, e.itemsize) <==> !(HasScalar(f) && e.itemsize < e.baseItemsize))
            && (ReadDecidedBy(ieee, f, e.itemsize) <==> !(HasScalar(f) && e.itemsize < e.baseItemsize))
  {
    StaysInFieldIff(ieee, FieldOfEntry(e));
    ReadDecidedByIff(ieee, FieldOfEntry(e), e.itemsize);
  }

  lemma ZeroLengthSubArrayOverruns(ieee: Ieee, i: Int64, n: nat)
    requires -0x8000_0000 <= i < 0x8000_0000 && n > 0
    ensures var e := DtypeEntry("v", 0, 0, 4, 'i', '=');
            && CheckEntry(e, 0).None?
            // four bytes are stored into a buffer of n rows of no bytes
            && Encode(ieee, FieldOfEntry(e), IntValue(i)).Success?
            && |Encode(ieee, FieldOfEntry(e), IntValue(i)).value| == 4
            && !(forall row: nat :: row < n ==> StaysInBuffer(ieee, FieldOfEntry(e), 0, n, row))
  {
    StaysInBufferIff(ieee, FieldOfEntry(DtypeEntry("v", 0, 0, 4, 'i', '=')), 0, n);
  }

  datatype BatchError = SizeOverflow | FieldFailed(error: FieldError)

  /** `batch_to_numpy_py` up to the Python wrapper: overflow check, zeroed arrays, fill. */
  method BatchToNumpy(ieee: Ieee, fields: seq<FieldInfo>, stride: nat, results: seq<BatchRecord>)
    returns (r: Result<(array<Byte>, array<Byte>, array<Byte>), BatchError>)
    requires StaysInRow(fields, stride)
    ensures r.Success? <==> |results| * stride < UINT64_LIMIT && AllRowsEncode(ieee, fields, stride, results)
    ensures r == Failure(SizeOverflow) <==> |results| * stride >= UINT64_LIMIT
    ensures r.Failure? && r.error.FieldFailed? ==> FirstFailure(ieee, fields, stride, results, r.error.error)
    ensures r.Success? ==>
      && r.value.0[..] == Join(DataRows(ieee, fields, stride, results))
      && r.value.1[..] == Join(MetaRows(results))
      && r.value.2[..] == Join(CodeRows(results))
    ensures r.Success? ==> ArraysShow(results, stride, r.value.0[..], r.value.1[..], r.value.2[..])
  {
    var n := |results|;
    if n * stride >= UINT64_LIMIT {
      return Failure(SizeOverflow);
    }
    var data := new Byte[n * stride](_ => 0);
    var meta := new Byte[n * 8](_ => 0);
    var codes := new Byte[n * 4](_ => 0);
    assert data[..] == Zeros(n * stride) && meta[..] == Zeros(n * 8) && codes[..] == Zeros(n * 4);
    var filled := FillBuffers(ieee, fields, stride, results, data, meta, codes);
    match filled {
      case Success(_) => r := Success((data, meta, codes));
      case Failure(e) => r := Failure(FieldFailed(e));
    }
  }

  datatype NumpyError = DtypeRejected(dtypeError: DtypeError) | BatchRejected(batchError: BatchError)

  /** `batch_to_numpy_py` from the dtype on. */
  method BatchToNumpyOfDtype(ieee: Ieee, entries: seq<DtypeEntry>, rowStride: nat, results: seq<BatchRecord>)
    returns (r: Result<(array<Byte>, array<Byte>, array<Byte>), NumpyError>)
    requires RowSafe(entries, rowStride)
    ensures AllPass(entries, rowStride) ==> StaysInRow(FieldsOf(entries, rowStride), rowStride)
    ensures r.Success? <==>
      && AllPass(entries, rowStride) && |results| * rowStride < UINT64_LIMIT
      && AllRowsEncode(ieee, FieldsOf(entries, rowStride), rowStride, results)
    ensures r.Success? ==>
      && r.value.0[..] == Join(DataRows(ieee, FieldsOf(entries, rowStride), rowStride, results))
      && r.value.1[..] == Join(MetaRows(results))
      && r.value.2[..] == Join(CodeRows(results))
    ensures r.Success? ==> ArraysShow(results, rowStride, r.value.0[..], r.value.1[..], r.value.2[..])
    ensures r.Failure? && r.error.DtypeRejected? ==> FirstDtypeError(entries, rowStride, r.error.dtypeError)
    ensures r.Failure? && r.error.BatchRejected? ==> AllPass(entries, rowStride)
  {
    if AllPass(entries, rowStride) {
      RowSafeFieldsStay(entries, rowStride);
    }
    var fields := ParseDtypeFields(entries, rowStride);
    if fields.Failure? {
      return Failure(DtypeRejected(fields.error));
    }
    var arrays := BatchToNumpy(ieee, fields.value, rowStride, results);
    if arrays.Failure? {
      return Failure(BatchRejected(arrays.error));
    }
    r := Success(arrays.value);
  }

  // ---- Fields of a row ------------------------------------------------------------------

  predicate DistinctFieldNames(fields: seq<FieldInfo>) {
    forall a, b :: 0 <= a < b < |fields| ==> fields[a].name != fields[b].name
  }

  /** No byte is touched by stores of both fields. */
  predicate Apart(f: FieldInfo, g: FieldInfo) {
    || Extent(f) == 0 || Extent(g) == 0
    || f.offset + Extent(f) <= g.offset || g.offset + Extent(g) <= f.offset
  }

  predicate DisjointFields(fields: seq<FieldInfo>) {
    forall a, b :: 0 <= a < b < |fields| ==> Apart(fields[a], fields[b])
  }

  predicate DistinctBinNames(bins: seq<(string, Value)>) {
    forall a, b :: 0 <= a < b < |bins| ==> bins[a].0 != bins[b].0
  }

  /** The record's bin of that name. */
  function BinOf(bins: seq<(string, Value)>, name: string): Option<Value> {
    if bins == [] then None
    else if bins[|bins| - 1].0 == name then Some(bins[|bins| - 1].1)
    else BinOf(bins[..|bins| - 1], name)
  }

  /** Fields that stay in their row, have distinct names, as NumPy ensures, and share no byte. */
  predicate PlainDtype(fields: seq<FieldInfo>, stride: nat) {
    StaysInRow(fields, stride) && DistinctFieldNames(fields) && DisjointFields(fields)
  }

  /** The bytes of one field: the encoding of the bin of that name, zero-padded, or zeros. */
  function Slot(ieee: Ieee, f: FieldInfo, bins: seq<(string, Value)>): (slot: seq<Byte>)
    ensures |slot| == Extent(f)
  {
    match BinOf(bins, f.name)
    case None => Zeros(Extent(f))
    case Some(v) =>
      match Encode(ieee, f, v)
      case Failure(_) => Zeros(Extent(f))
      case Success(bytes) =>
        EncodeFits(ieee, f, v);
        bytes + Zeros(Extent(f) - |bytes|)
  }

  lemma {:induction false} FieldOfFinds(fields: seq<FieldInfo>, k: nat)
    requires DistinctFieldNames(fields) && k < |fields|
    ensures FieldOf(fields, fields[k].name) == Some(fields[k])
  {
    if k < |fields| - 1 {
      FieldOfFinds(fields[..|fields| - 1], k);
    }
  }

  lemma {:induction false} BinAbsent(bins: seq<(string, Value)>, name: string)
    requires forall k :: 0 <= k < |bins| ==> bins[k].0 != name
    ensures BinOf(bins, name) == None
  {
    if bins != [] {
      BinAbsent(bins[..|bins| - 1], name);
    }
  }

  predicate Covered(fields: seq<FieldInfo>, p: nat) {
    exists k :: 0 <= k < |fields| && fields[k].offset <= p < fields[k].offset + Extent(fields[k])
  }

  /** Writing a field's own bin over zeros leaves the encoding, zero-padded. */
  lemma OwnBinSlot(row: seq<Byte>, f: FieldInfo, bytes: seq<Byte>)
    requires InRow(f, |row|) && |bytes| <= Extent(f)
    requires row[f.offset..f.offset + Extent(f)] == Zeros(Extent(f))
    ensures Splice(row, f.offset, bytes)[f.offset..f.offset + Extent(f)] == bytes + Zeros(Extent(f) - |bytes|)
  {
    var before, after := row[f.offset..f.offset + Extent(f)],
        Splice(row, f.offset, bytes)[f.offset..f.offset + Extent(f)];
    var expected := bytes + Zeros(Extent(f) - |bytes|);
    forall p | 0 <= p < Extent(f)
      ensures after[p] == expected[p]
    {
      assert before[p] == 0;
    }
  }

  lemma OtherBinSlot(row: seq<Byte>, f: FieldInfo, g: FieldInfo, bytes: seq<Byte>)
    requires InRow(f, |row|) && InRow(g, |row|) && Apart(f, g) && |bytes| <= Extent(g)
    ensures Splice(row, g.offset, bytes)[f.offset..f.offset + Extent(f)] == row[f.offset..f.offset + Extent(f)]
  {
  }

  lemma FieldsApart(fields: seq<FieldInfo>, k: nat, name: string)
    requires DistinctFieldNames(fields) && DisjointFields(fields)
    requires k < |fields| && FieldOf(fields, name).Some?
    ensures if name == fields[k].name then FieldOf(fields, name).value == fields[k]
            else Apart(fields[k], FieldOf(fields, name).value)
  {
    if name == fields[k].name {
      FieldOfFinds(fields, k);
    } else {
      var j :| 0 <= j < |fields| && fields[j] == FieldOf(fields, name).value;
      assert j != k;
      if j < k {
        assert Apart(fields[j], fields[k]);
      } else {
        assert Apart(fields[k], fields[j]);
      }
    }
  }

  /**
   Each field of a filled row holds the encoding of its own bin or zeros, and bytes outside all
   fields are zero, whatever other bins the record has and in whatever order they come.
   */
  lemma {:induction false} FilledSlot(ieee: Ieee, fields: seq<FieldInfo>, stride: nat, bins: seq<(string, Value)>,
                                      k: nat)
    requires PlainDtype(fields, stride) && DistinctBinNames(bins) && k < |fields|
    requires FillBins(ieee, fields, Zeros(stride), bins).Success?
    ensures var row := FillBins(ieee, fields, Zeros(stride), bins).value;
            row[fields[k].offset..fields[k].offset + Extent(fields[k])] == Slot(ieee, fields[k], bins)
    decreases |bins|
  {
    var f := fields[k];
    if bins == [] {
      assert Zeros(stride)[f.offset..f.offset + Extent(f)] == Zeros(Extent(f));
    } else {
      var n := |bins| - 1;
      FilledSlot(ieee, fields, stride, bins[..n], k);
      var before := FillBins(ieee, fields, Zeros(stride), bins[..n]).value;
      var (name, v) := bins[n];
      FieldOfFinds(fields, k);
      if FieldOf(fields, name).Some? {
        FieldsApart(fields, k, name);
        FieldOfInRow(fields, stride, name);
        SlotAfterBin(ieee, f, FieldOf(fields, name).value, before, bins);
      }
    }
  }

  /** The step of `FilledSlot`: the last bin goes to its own field `g`. */
  lemma SlotAfterBin(ieee: Ieee, f: FieldInfo, g: FieldInfo, before: seq<Byte>, bins: seq<(string, Value)>)
    requires InRow(f, |before|) && InRow(g, |before|)
    requires bins != [] && bins[|bins| - 1].0 == g.name && DistinctBinNames(bins)
    requires Encode(ieee, g, bins[|bins| - 1].1).Success? && (if g.name == f.name then g == f else Apart(f, g))
    requires before[f.offset..f.offset + Extent(f)] == Slot(ieee, f, bins[..|bins| - 1])
    ensures |Encode(ieee, g, bins[|bins| - 1].1).value| <= Extent(g)
    ensures Splice(before, g.offset, Encode(ieee, g, bins[|bins| - 1].1).value)[f.offset..f.offset + Extent(f)]
      == Slot(ieee, f, bins)
  {
    var n := |bins| - 1;
    EncodeFits(ieee, g, bins[n].1);
    var bytes := Encode(ieee, g, bins[n].1).value;
    if g.name == f.name {
      BinAbsent(bins[..n], f.name);
      OwnBinSlot(before, f, bytes);
    } else {
      OtherBinSlot(before, f, g, bytes);
    }
  }

  lemma {:induction false} UncoveredIsZero(ieee: Ieee, fields: seq<FieldInfo>, stride: nat, bins: seq<(string, Value)>,
                                           p: nat)
    requires StaysInRow(fields, stride) && p < stride && !Covered(fields, p)
    requires FillBins(ieee, fields, Zeros(stride), bins).Success?
    ensures FillBins(ieee, fields, Zeros(stride), bins).value[p] == 0
    decreases |bins|
  {
    if bins != [] {
      var n := |bins| - 1;
      UncoveredIsZero(ieee, fields, stride, bins[..n], p);
      match FieldOf(fields, bins[n].0) {
        case None =>
        case Some(g) =>
          var j :| 0 <= j < |fields| && fields[j] == g;
          assert !(fields[j].offset <= p < fields[j].offset + Extent(fields[j]));
          EncodeFits(ieee, g, bins[n].1);
      }
    }
  }

  /** A bin that the dtype has a field for can be stored there. */
  predicate BinEncodes(ieee: Ieee, fields: seq<FieldInfo>, bin: (string, Value)) {
    FieldOf(fields, bin.0).Some? ==> Encode(ieee, FieldOf(fields, bin.0).value, bin.1).Success?
  }

  lemma {:induction false} FillSucceedsIff(ieee: Ieee, fields: seq<FieldInfo>, row: seq<Byte>,
                                           bins: seq<(string, Value)>)
    requires StaysInRow(fields, |row|)
    ensures FillBins(ieee, fields, row, bins).Success?
      <==> forall k :: 0 <= k < |bins| ==> BinEncodes(ieee, fields, bins[k])
    decreases |bins|
  {
    if bins != [] {
      var n := |bins| - 1;
      FillSucceedsIff(ieee, fields, row, bins[..n]);
      assert forall k :: 0 <= k < n ==> bins[..n][k] == bins[k];
    }
  }

  /** The same bins, in another order. */
  ghost predicate SameBins(a: seq<(string, Value)>, b: seq<(string, Value)>) {
    forall bin :: bin in a <==> bin in b
  }

  lemma {:induction false} BinFound(bins: seq<(string, Value)>, name: string, v: Value)
    requires DistinctBinNames(bins)
    ensures BinOf(bins, name) == Some(v) <==> (name, v) in bins
  {
    if bins != [] {
      var n := |bins| - 1;
      BinFound(bins[..n], name, v);
      assert bins == bins[..n] + [bins[n]];
      if bins[n].0 == name {
        BinAbsent(bins[..n], name);
      }
    }
  }

  lemma SameLookup(a: seq<(string, Value)>, b: seq<(string, Value)>, name: string)
    requires DistinctBinNames(a) && DistinctBinNames(b) && SameBins(a, b)
    ensures BinOf(a, name) == BinOf(b, name)
  {
    match BinOf(a, name) {
      case Some(v) =>
        BinFound(a, name, v);
        BinFound(b, name, v);
      case None =>
        match BinOf(b, name) {
          case None =>
          case Some(v) =>
            BinFound(a, name, v);
            BinFound(b, name, v);
        }
    }
  }

  lemma ByteOfSlot(a: seq<Byte>, b: seq<Byte>, lo: nat, hi: nat, p: nat)
    requires lo <= p < hi <= |a| && hi <= |b| && a[lo..hi] == b[lo..hi]
    ensures a[p] == b[p]
  {
    assert a[p] == a[lo..hi][p - lo] && b[p] == b[lo..hi][p - lo];
  }

  lemma SameSlot(ieee: Ieee, fields: seq<FieldInfo>, stride: nat, a: seq<(string, Value)>, b: seq<(string, Value)>,
                 k: nat)
    requires PlainDtype(fields, stride) && k < |fields|
    requires DistinctBinNames(a) && DistinctBinNames(b) && SameBins(a, b)
    requires FillBins(ieee, fields, Zeros(stride), a).Success? && FillBins(ieee, fields, Zeros(stride), b).Success?
    ensures var lo, hi := fields[k].offset, fields[k].offset + Extent(fields[k]);
            FillBins(ieee, fields, Zeros(stride), a).value[lo..hi]
              == FillBins(ieee, fields, Zeros(stride), b).value[lo..hi]
  {
    FilledSlot(ieee, fields, stride, a, k);
    FilledSlot(ieee, fields, stride, b, k);
    SameLookup(a, b, fields[k].name);
  }

  lemma SameByte(ieee: Ieee, fields: seq<FieldInfo>, stride: nat, a: seq<(string, Value)>, b: seq<(string, Value)>,
                 p: nat)
    requires PlainDtype(fields, stride) && p < stride
    requires DistinctBinNames(a) && DistinctBinNames(b) && SameBins(a, b)
    requires FillBins(ieee, fields, Zeros(stride), a).Success? && FillBins(ieee, fields, Zeros(stride), b).Success?
    ensures FillBins(ieee, fields, Zeros(stride), a).value[p] == FillBins(ieee, fields, Zeros(stride), b).value[p]
  {
    if k :| 0 <= k < |fields| && fields[k].offset <= p < fields[k].offset + Extent(fields[k]) {
      SameSlot(ieee, fields, stride, a, b, k);
      ByteOfSlot(FillBins(ieee, fields, Zeros(stride), a).value, FillBins(ieee, fields, Zeros(stride), b).value,
                 fields[k].offset, fields[k].offset + Extent(fields[k]), p);
    } else {
      UncoveredIsZero(ieee, fields, stride, a, p);
      UncoveredIsZero(ieee, fields, stride, b, p);
    }
  }

  /** With disjoint fields the row does not depend on the order in which the hash map yields the bins. */
  lemma FillOrderIndependent(ieee: Ieee, fields: seq<FieldInfo>, stride: nat, a: seq<(string, Value)>,
                             b: seq<(string, Value)>)
    requires PlainDtype(fields, stride)
    requires DistinctBinNames(a) && DistinctBinNames(b) && SameBins(a, b)
    ensures var ra, rb := FillBins(ieee, fields, Zeros(stride), a), FillBins(ieee, fields, Zeros(stride), b);
            (ra.Success? <==> rb.Success?) && (ra.Success? ==> ra.value == rb.value)
  {
    FillSucceedsIff(ieee, fields, Zeros(stride), a);
    FillSucceedsIff(ieee, fields, Zeros(stride), b);
    if forall k :: 0 <= k < |a| ==> BinEncodes(ieee, fields, a[k]) {
      SuccessTransfers(ieee, fields, a, b);
    }
    if forall k :: 0 <= k < |b| ==> BinEncodes(ieee, fields, b[k]) {
      SuccessTransfers(ieee, fields, b, a);
    }
    var ra, rb := FillBins(ieee, fields, Zeros(stride), a), FillBins(ieee, fields, Zeros(stride), b);
    if ra.Success? {
      forall p | 0 <= p < stride
        ensures ra.value[p] == rb.value[p]
      {
        SameByte(ieee, fields, stride, a, b, p);
      }
    }
  }

  // ---- Exactly when the order does not matter -------------------------------------------

  /** The same outcome, and on success the same bytes. */
  predicate SameFill(ra: Result<seq<Byte>, FieldError>, rb: Result<seq<Byte>, FieldError>) {
    (ra.Success? <==> rb.Success?) && (ra.Success? ==> ra.value == rb.value)
  }

  /** No record's row depends on the order of its bins. */
  ghost predicate OrderIndependent(ieee: Ieee, fields: seq<FieldInfo>, stride: nat)
    requires StaysInRow(fields, stride)
  {
    forall a: seq<(string, Value)>, b: seq<(string, Value)> ::
      DistinctBinNames(a) && DistinctBinNames(b) && SameBins(a, b)
      ==> SameFill(FillBins(ieee, fields, Zeros(stride), a), FillBins(ieee, fields, Zeros(stride), b))
  }

  /** One bin each for two fields of a dtype: the second overwrites the first where they meet. */
  lemma TwoBins(ieee: Ieee, fields: seq<FieldInfo>, stride: nat, i: nat, j: nat, x: Byte, y: Byte, p: nat)
    requires StaysInRow(fields, stride) && DistinctFieldNames(fields) && i < |fields| && j < |fields|
    requires x <= 1 && y <= 1 && fields[j].offset <= p < fields[j].offset + Extent(fields[j])
    ensures var bins := [(fields[i].name, Filler(ieee, fields[i], x)), (fields[j].name, Filler(ieee, fields[j], y))];
            && FillBins(ieee, fields, Zeros(stride), bins).Success?
            && p < stride && FillBins(ieee, fields, Zeros(stride), bins).value[p] == y
  {
    var first, second := (fields[i].name, Filler(ieee, fields[i], x)), (fields[j].name, Filler(ieee, fields[j], y));
    FieldOfFinds(fields, i);
    FieldOfFinds(fields, j);
    FillerFills(ieee, fields[i], x);
    FillerFills(ieee, fields[j], y);
    assert [first, second][..1] == [first] && [first][..0] == [];
    assert FillBins(ieee, fields, Zeros(stride), []) == Success(Zeros(stride));
    assert FillBins(ieee, fields, Zeros(stride), [first]) == FillBin(ieee, fields, Zeros(stride), first);
    assert InRow(fields[j], stride);
  }

  /**
   Two fields that share a byte: the record that fills one with ones and the other with zeros tells the
   orders apart.
   */
  lemma SharedByteShowsOrder(ieee: Ieee, fields: seq<FieldInfo>, stride: nat, i: nat, j: nat)
    requires StaysInRow(fields, stride) && DistinctFieldNames(fields) && i < j < |fields|
      && !Apart(fields[i], fields[j])
    ensures !OrderIndependent(ieee, fields, stride)
  {
    var f, g := fields[i], fields[j];
    var p := if f.offset <= g.offset then g.offset else f.offset;
    var ones, zeros := (f.name, Filler(ieee, f, 1)), (g.name, Filler(ieee, g, 0));
    TwoBins(ieee, fields, stride, i, j, 1, 0, p);
    TwoBins(ieee, fields, stride, j, i, 0, 1, p);
    assert DistinctBinNames([ones, zeros]) && DistinctBinNames([zeros, ones]) && SameBins([ones, zeros], [zeros, ones]);
    assert !SameFill(FillBins(ieee, fields, Zeros(stride), [ones, zeros]),
        FillBins(ieee, fields, Zeros(stride), [zeros, ones]));
  }

  /**
   The rows of a dtype are the same for every order in which hash maps yield bins exactly when no two
   of its fields share a byte that stores of both touch. The dtype check does not ask for that.
   */
  lemma OrderIndependentIff(ieee: Ieee, fields: seq<FieldInfo>, stride: nat)
    requires StaysInRow(fields, stride) && DistinctFieldNames(fields)
    ensures OrderIndependent(ieee, fields, stride) <==> DisjointFields(fields)
  {
    if DisjointFields(fields) {
      forall a: seq<(string, Value)>, b: seq<(string, Value)>
        | DistinctBinNames(a) && DistinctBinNames(b) && SameBins(a, b)
        ensures SameFill(FillBins(ieee, fields, Zeros(stride), a), FillBins(ieee, fields, Zeros(stride), b))
      {
        FillOrderIndependent(ieee, fields, stride, a, b);
      }
    } else {
      var i, j :| 0 <= i < j < |fields| && !Apart(fields[i], fields[j]);
      SharedByteShowsOrder(ieee, fields, stride, i, j);
    }
  }

  // ---- Which error is reported ----------------------------------------------------------

  /** Why a bin cannot be stored, if it cannot. */
  function BinFailure(ieee: Ieee, fields: seq<FieldInfo>, bin: (string, Value)): Option<FieldError> {
    match FieldOf(fields, bin.0)
    case None => None
    case Some(f) =>
      match Encode(ieee, f, bin.1)
      case Success(_) => None
      case Failure(e) => Some(e)
  }

  /** Bin `k` fails with `e` and no earlier bin fails. */
  predicate FailsFirst(ieee: Ieee, fields: seq<FieldInfo>, bins: seq<(string, Value)>, k: nat, e: FieldError) {
    k < |bins| && BinFailure(ieee, fields, bins[k]) == Some(e)
    && forall j: nat :: j < k ==> BinFailure(ieee, fields, bins[j]).None?
  }

  /** The error reported is that of the first bad bin in the order in which the hash map yields them. */
  lemma {:induction false} FirstBadBinIff(ieee: Ieee, fields: seq<FieldInfo>, row: seq<Byte>,
                                          bins: seq<(string, Value)>, e: FieldError)
    requires StaysInRow(fields, |row|)
    ensures FillBins(ieee, fields, row, bins) == Failure(e) <==> exists k: nat :: FailsFirst(ieee, fields, bins, k, e)
    decreases |bins|
  {
    if bins != [] {
      var n := |bins| - 1;
      var front := bins[..n];
      FirstBadBinIff(ieee, fields, row, front, e);
      assert forall j: nat :: j < n ==> front[j] == bins[j];
      if k: nat :| FailsFirst(ieee, fields, front, k, e) {
        assert FailsFirst(ieee, fields, bins, k, e);
      }
      if k: nat :| FailsFirst(ieee, fields, bins, k, e) {
        if k < n {
          assert FailsFirst(ieee, fields, front, k, e);
        } else {
          FillSucceedsIff(ieee, fields, row, front);
          assert forall j :: 0 <= j < n ==>
            BinFailure(ieee, fields, front[j]).None? && BinEncodes(ieee, fields, front[j]);
        }
      }
      if FillBins(ieee, fields, row, front).Success? {
        FillSucceedsIff(ieee, fields, row, front);
        assert forall j: nat :: j < n ==> BinEncodes(ieee, fields, front[j]);
        assert BinFailure(ieee, fields, bins[n]) == Some(e) ==> FailsFirst(ieee, fields, bins, n, e);
      }
    }
  }

  /** All bad bins of the record fail for the same reason. */
  predicate OneReason(ieee: Ieee, fields: seq<FieldInfo>, bins: seq<(string, Value)>) {
    forall i: nat, j: nat :: i < |bins| && j < |bins|
      && BinFailure(ieee, fields, bins[i]).Some? && BinFailure(ieee, fields, bins[j]).Some?
      ==> BinFailure(ieee, fields, bins[i]) == BinFailure(ieee, fields, bins[j])
  }

  /** Every order of the same bins reports the same error. */
  ghost predicate SameErrors(ieee: Ieee, fields: seq<FieldInfo>, stride: nat, bins: seq<(string, Value)>)
    requires StaysInRow(fields, stride)
  {
    forall b: seq<(string, Value)> :: DistinctBinNames(b) && SameBins(b, bins)
      && FillBins(ieee, fields, Zeros(stride), b).Failure?
      ==> FillBins(ieee, fields, Zeros(stride), b) == FillBins(ieee, fields, Zeros(stride), bins)
  }

  /** The bins with bin `i` first. */
  function MovedFirst(bins: seq<(string, Value)>, i: nat): (b: seq<(string, Value)>)
    requires i < |bins|
    ensures |b| == |bins| && b[0] == bins[i]
    ensures forall k: nat :: 0 < k <= i ==> b[k] == bins[k - 1]
    ensures forall k: nat :: i < k < |b| ==> b[k] == bins[k]
  {
    [bins[i]] + bins[..i] + bins[i + 1..]
  }

  lemma MovedFirstIsSame(bins: seq<(string, Value)>, i: nat)
    requires DistinctBinNames(bins) && i < |bins|
    ensures DistinctBinNames(MovedFirst(bins, i)) && SameBins(MovedFirst(bins, i), bins)
  {
    assert bins == bins[..i] + [bins[i]] + bins[i + 1..];
  }

  lemma MovedFirstFails(ieee: Ieee, fields: seq<FieldInfo>, stride: nat, bins: seq<(string, Value)>, i: nat)
    requires StaysInRow(fields, stride) && i < |bins| && BinFailure(ieee, fields, bins[i]).Some?
    ensures FillBins(ieee, fields, Zeros(stride), MovedFirst(bins, i))
      == Failure(BinFailure(ieee, fields, bins[i]).value)
  {
    var e := BinFailure(ieee, fields, bins[i]).value;
    assert FailsFirst(ieee, fields, MovedFirst(bins, i), 0, e);
    FirstBadBinIff(ieee, fields, Zeros(stride), MovedFirst(bins, i), e);
  }

  /**
   The reported error does not depend on the order of a record's bins exactly when all bad bins fail
   for one reason.
   */
  lemma ErrorIndependentIff(ieee: Ieee, fields: seq<FieldInfo>, stride: nat, bins: seq<(string, Value)>)
    requires StaysInRow(fields, stride) && DistinctBinNames(bins)
    ensures SameErrors(ieee, fields, stride, bins) <==> OneReason(ieee, fields, bins)
  {
    if OneReason(ieee, fields, bins) {
      forall b: seq<(string, Value)>
        | DistinctBinNames(b) && SameBins(b, bins) && FillBins(ieee, fields, Zeros(stride), b).Failure?
        ensures FillBins(ieee, fields, Zeros(stride), b) == FillBins(ieee, fields, Zeros(stride), bins)
      {
        OneReasonOneError(ieee, fields, stride, bins, b);
      }
    }
    if SameErrors(ieee, fields, stride, bins) {
      forall i: nat, j: nat
        | i < |bins| && j < |bins| && BinFailure(ieee, fields, bins[i]).Some? && BinFailure(ieee, fields, bins[j]).Some?
        ensures BinFailure(ieee, fields, bins[i]) == BinFailure(ieee, fields, bins[j])
      {
        MovedFirstIsSame(bins, i);
        MovedFirstIsSame(bins, j);
        MovedFirstFails(ieee, fields, stride, bins, i);
        MovedFirstFails(ieee, fields, stride, bins, j);
      }
    }
  }

  lemma OneReasonOneError(ieee: Ieee, fields: seq<FieldInfo>, stride: nat, bins: seq<(string, Value)>,
                          b: seq<(string, Value)>)
    requires StaysInRow(fields, stride) && OneReason(ieee, fields, bins) && SameBins(b, bins)
    requires FillBins(ieee, fields, Zeros(stride), b).Failure?
    ensures FillBins(ieee, fields, Zeros(stride), b) == FillBins(ieee, fields, Zeros(stride), bins)
  {
    var e := FillBins(ieee, fields, Zeros(stride), b).error;
    FirstBadBinIff(ieee, fields, Zeros(stride), b, e);
    var k: nat :| FailsFirst(ieee, fields, b, k, e);
    assert b[k] in bins;
    var i: nat :| i < |bins| && bins[i] == b[k];
    FillSucceedsIff(ieee, fields, Zeros(stride), bins);
    assert !BinEncodes(ieee, fields, bins[i]);
    var other := FillBins(ieee, fields, Zeros(stride), bins).error;
    FirstBadBinIff(ieee, fields, Zeros(stride), bins, other);
    var j: nat :| FailsFirst(ieee, fields, bins, j, other);
    assert BinFailure(ieee, fields, bins[i]) == BinFailure(ieee, fields, bins[j]);
  }

  /** Two bytes fields on one byte pass the dtype check and depend on the order. */
  lemma OverlapDependsOnOrder(ieee: Ieee)
    ensures var entries := [DtypeEntry("a", 0, 1, 1, 'S', '|'), DtypeEntry("b", 0, 1, 1, 'S', '|')];
            && AllPass(entries, 1) && StaysInRow(FieldsOf(entries, 1), 1)
            && !OrderIndependent(ieee, FieldsOf(entries, 1), 1)
  {
    var entries := [DtypeEntry("a", 0, 1, 1, 'S', '|'), DtypeEntry("b", 0, 1, 1, 'S', '|')];
    assert AllPass(entries, 1);
    CheckedFieldsStayInRow(entries, 1);
    var fields := FieldsOf(entries, 1);
    assert fields[0] == FieldOfEntry(entries[0]) && fields[1] == FieldOfEntry(entries[1]);
    assert !Apart(fields[0], fields[1]);
    OrderIndependentIff(ieee, fields, 1);
  }

  /** The same record but for the order in which its hash map yields the bins. */
  ghost predicate SameButOrder(a: BatchRecord, b: BatchRecord) {
    && WireCode(a) == WireCode(b) && (a.record.Some? <==> b.record.Some?)
    && (a.record.Some? ==>
          var x, y := a.record.value, b.record.value;
          x.gen == y.gen && x.ttl == y.ttl
          && DistinctBinNames(x.bins) && DistinctBinNames(y.bins) && SameBins(x.bins, y.bins))
  }

  lemma SameDataRow(ieee: Ieee, fields: seq<FieldInfo>, stride: nat, a: BatchRecord, b: BatchRecord)
    requires PlainDtype(fields, stride) && SameButOrder(a, b)
    ensures SameFill(DataRow(ieee, fields, stride, a), DataRow(ieee, fields, stride, b))
  {
    if WireCode(a) == 0 && a.record.Some? {
      FillOrderIndependent(ieee, fields, stride, a.record.value.bins, b.record.value.bins);
    }
  }

  /** With disjoint fields all three buffers of a batch are the same for every order of every record's bins. */
  lemma BatchOrderIndependent(ieee: Ieee, fields: seq<FieldInfo>, stride: nat, a: seq<BatchRecord>, b: seq<BatchRecord>)
    requires PlainDtype(fields, stride) && |a| == |b|
    requires forall i: nat :: i < |a| ==> SameButOrder(a[i], b[i])
    ensures AllRowsEncode(ieee, fields, stride, a) <==> AllRowsEncode(ieee, fields, stride, b)
    ensures AllRowsEncode(ieee, fields, stride, a)
      ==> Join(DataRows(ieee, fields, stride, a)) == Join(DataRows(ieee, fields, stride, b))
    ensures MetaRows(a) == MetaRows(b) && CodeRows(a) == CodeRows(b)
  {
    forall i: nat | i < |a|
      ensures SameFill(DataRow(ieee, fields, stride, a[i]), DataRow(ieee, fields, stride, b[i]))
      ensures MetaRow(a[i]) == MetaRow(b[i]) && CodeRow(a[i]) == CodeRow(b[i])
    {
      assert SameButOrder(a[i], b[i]);
      SameDataRow(ieee, fields, stride, a[i], b[i]);
    }
    if AllRowsEncode(ieee, fields, stride, a) && AllRowsEncode(ieee, fields, stride, b) {
      assert DataRows(ieee, fields, stride, a) == DataRows(ieee, fields, stride, b);
    }
  }

  lemma SuccessTransfers(ieee: Ieee, fields: seq<FieldInfo>, a: seq<(string, Value)>, b: seq<(string, Value)>)
    requires SameBins(a, b) && forall k :: 0 <= k < |a| ==> BinEncodes(ieee, fields, a[k])
    ensures forall k :: 0 <= k < |b| ==> BinEncodes(ieee, fields, b[k])
  {
    forall k | 0 <= k < |b|
      ensures BinEncodes(ieee, fields, b[k])
    {
      assert b[k] in a;
    }
  }
}
