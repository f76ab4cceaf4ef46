/**
 Batch results written to a NumPy buffer and read back as records, and reads through strided views.
 */
module NumpyRoundTrip {
  import opened Wrappers
  import opened BatchResults
  import opened ByteCodec
  import opened NumpyFields
  import opened NumpyFill
  import opened NumpyRows
  import opened NumpyRecords

  // ---- One field ------------------------------------------------------------------------

  /** The bytes that loads and stores of a field touch. */
  function Field(row: seq<Byte>, f: FieldInfo): (slot: seq<Byte>)
    requires InRow(f, |row|)
    ensures |slot| == Extent(f)
  {
    row[f.offset..f.offset + Extent(f)]
  }

  /** `bytes` cut or zero-padded to `n`. */
  function Padded(bytes: seq<Byte>, n: nat): (p: seq<Byte>)
    ensures |p| == n
    ensures forall k :: 0 <= k < n ==> p[k] == if k < |bytes| then bytes[k] else 0
  {
    if |bytes| <= n then bytes + Zeros(n - |bytes|) else bytes[..n]
  }

  /** A double that the field's format can hold. */
  predicate Representable(ieee: Ieee, f: FieldInfo, bits: Bits64) {
    || f.baseItemsize == 8
    || (f.baseItemsize == 4 && ieee.widen32(ieee.narrow32(bits)) == bits)
    || (f.baseItemsize == 2 && ieee.widen16(ieee.narrow16(bits)) == bits)
  }

  /** The values a field gives back as they were. */
  predicate Faithful(ieee: Ieee, f: FieldInfo, v: Value) {
    || (v.IntValue? && (f.kind.IntKind? || f.kind.UintKind?) && !IsSubArray(f))
    || (v.Float64? && f.kind.FloatKind? && !IsSubArray(f) && Representable(ieee, f, v.bits))
    || (v.Blob? && (IsBytes(f) || IsSubArray(f)) && |v.bytes| == f.itemsize)
  }

  /** A row whose field `f` was written with `v`. */
  predicate Written(ieee: Ieee, row: seq<Byte>, f: FieldInfo, v: Value) {
    && InRow(f, |row|)
    && Encode(ieee, f, v).Success?
    && Field(row, f) == Padded(Encode(ieee, f, v).value, Extent(f))
  }

  lemma SignedFieldReadsBack(ieee: Ieee, row: seq<Byte>, f: FieldInfo, i: Int64)
    requires Written(ieee, row, f, IntValue(i)) && f.kind.IntKind? && !IsSubArray(f)
    ensures ReadValue(ieee, row, f) == Success(IntValue(i))
  {
    PowersOf256();
    var width := f.baseItemsize;
    assert IsWidth(width);
    var bytes := Encode(ieee, f, IntValue(i)).value;
    assert bytes == StoreSigned(i, width);
    assert Padded(bytes, width) == bytes;
    SignedRoundTrip(i, width);
  }

  lemma UnsignedFieldReadsBack(ieee: Ieee, row: seq<Byte>, f: FieldInfo, i: Int64)
    requires Written(ieee, row, f, IntValue(i)) && f.kind.UintKind? && !IsSubArray(f)
    ensures ReadValue(ieee, row, f) == Success(IntValue(i))
  {
    PowersOf256();
    var width := f.baseItemsize;
    assert IsWidth(width);
    var bytes := Encode(ieee, f, IntValue(i)).value;
    assert bytes == LittleEndian(i, width);
    assert Padded(bytes, width) == bytes;
    UnsignedRoundTrip(i, width);
  }

  /** A double comes back as the nearest value of the field's format. */
  lemma DoubleReadsBack(ieee: Ieee, row: seq<Byte>, f: FieldInfo, bits: Bits64)
    requires Written(ieee, row, f, Float64(bits)) && f.kind.FloatKind? && !IsSubArray(f)
    ensures ReadValue(ieee, row, f) == Success(Float64(
              match f.baseItemsize
              case 2 => ieee.widen16(ieee.narrow16(bits))
              case 4 => ieee.widen32(ieee.narrow32(bits))
              case _ => bits))
    ensures f.baseItemsize in {2, 4, 8}
  {
    PowersOf256();
    var u: nat := match f.baseItemsize case 2 => ieee.narrow16(bits) case 4 => ieee.narrow32(bits) case _ => bits;
    var bytes := Encode(ieee, f, Float64(bits)).value;
    assert bytes == LittleEndian(u, f.baseItemsize);
    assert Padded(bytes, f.baseItemsize) == bytes;
    UnsignedRoundTrip(u, f.baseItemsize);
  }

  /** Every finite single or half precision number survives a field of its own precision. */
  lemma FormatsSurvive(ieee: Ieee, f: FieldInfo, b: UInt32)
    requires f.kind.FloatKind? && !IsSubArray(f)
    ensures f.baseItemsize == 4 && Finite32(b) ==> Faithful(ieee, f, Float64(ieee.widen32(b)))
    ensures f.baseItemsize == 2 && b < 0x1_0000 && Finite16(b) ==> Faithful(ieee, f, Float64(ieee.widen16(b)))
  {
  }

  /** Shorter blobs come back zero-padded, longer ones truncated. */
  lemma BlobReadsBack(ieee: Ieee, row: seq<Byte>, f: FieldInfo, bytes: seq<Byte>)
    requires Written(ieee, row, f, Blob(bytes))
    ensures ReadValue(ieee, row, f) == Success(Blob(Padded(bytes, f.itemsize)))
  {
    assert IsBytes(f) || IsSubArray(f);
    assert Padded(EncodeBytes(f, bytes), f.itemsize) == Padded(bytes, f.itemsize);
  }

  /** Exactly the faithful values survive, whatever the kind and size of the field. */
  lemma ReadsBackIff(ieee: Ieee, row: seq<Byte>, f: FieldInfo, v: Value)
    requires Written(ieee, row, f, v)
    ensures ReadValue(ieee, row, f) == Success(v) <==> Faithful(ieee, f, v)
  {
    if v.Blob? {
      BlobReadsBack(ieee, row, f, v.bytes);
      assert |v.bytes| == f.itemsize ==> Padded(v.bytes, f.itemsize) == v.bytes;
    } else if v.Float64? && f.kind.FloatKind? && !IsSubArray(f) {
      DoubleReadsBack(ieee, row, f, v.bits);
    } else if Faithful(ieee, f, v) {
      if f.kind.IntKind? {
        SignedFieldReadsBack(ieee, row, f, v.i);
      } else {
        UnsignedFieldReadsBack(ieee, row, f, v.i);
      }
    }
  }

  lemma {:induction false} TrimOfPadded(bytes: seq<Byte>, n: nat)
    requires |bytes| <= n
    ensures TrimNul(Padded(bytes, n)) == TrimNul(bytes)
    decreases n
  {
    if |bytes| < n {
      assert Padded(bytes, n)[..n - 1] == Padded(bytes, n - 1);
      TrimOfPadded(bytes, n - 1);
    } else {
      assert Padded(bytes, n) == bytes;
    }
  }

  /** A bytes key comes back equal exactly when it fits its field and does not end in NUL. */
  lemma BytesKeyRoundTripIff(ieee: Ieee, row: seq<Byte>, f: FieldInfo, key: seq<Byte>)
    requires Written(ieee, row, f, Blob(key))
    ensures ReadKey(ieee, row, f) == Success(Blob(key))
      <==> |key| <= f.itemsize && (key == [] || key[|key| - 1] != 0)
  {
    BlobReadsBack(ieee, row, f, key);
    if |key| <= f.itemsize {
      TrimOfPadded(key, f.itemsize);
    }
  }

  // ---- One row --------------------------------------------------------------------------

  predicate HasData(br: BatchRecord) {
    WireCode(br) == 0 && br.record.Some?
  }

  /** The fields of a filled row were written with the record's own bins. */
  lemma FilledIsWritten(ieee: Ieee, fields: seq<FieldInfo>, stride: nat, br: BatchRecord, k: nat)
    requires PlainDtype(fields, stride) && k < |fields| && HasData(br)
    requires DistinctBinNames(br.record.value.bins) && DataRow(ieee, fields, stride, br).Success?
    requires BinOf(br.record.value.bins, fields[k].name).Some?
    ensures Written(ieee, DataRow(ieee, fields, stride, br).value, fields[k],
      BinOf(br.record.value.bins, fields[k].name).value)
  {
    var bins, f := br.record.value.bins, fields[k];
    var v := BinOf(bins, f.name).value;
    FilledSlot(ieee, fields, stride, bins, k);
    FillSucceedsIff(ieee, fields, Zeros(stride), bins);
    BinFound(bins, f.name, v);
    FieldOfFinds(fields, k);
    var j :| 0 <= j < |bins| && bins[j] == (f.name, v);
    assert BinEncodes(ieee, fields, bins[j]);
    EncodeFits(ieee, f, v);
  }

  /** Every one of these fields has a bin that survives it. */
  predicate CarriesAll(ieee: Ieee, fields: seq<FieldInfo>, bins: seq<(string, Value)>) {
    forall k: nat :: k < |fields| ==> Carries(ieee, fields[k], bins)
  }

  predicate Carries(ieee: Ieee, f: FieldInfo, bins: seq<(string, Value)>) {
    BinOf(bins, f.name).Some? && Faithful(ieee, f, BinOf(bins, f.name).value)
  }

  /** The bins of a record in field order. */
  function BinsInOrder(ieee: Ieee, fields: seq<FieldInfo>, bins: seq<(string, Value)>): (out: seq<(string, Value)>)
    requires CarriesAll(ieee, fields, bins)
    ensures |out| == |fields|
    ensures forall k: nat :: k < |fields| ==> out[k] == (fields[k].name, BinOf(bins, fields[k].name).value)
  {
    seq(|fields|, k requires 0 <= k < |fields| => assert Carries(ieee, fields[k], bins);
      (fields[k].name, BinOf(bins, fields[k].name).value))
  }

  lemma FieldSurvives(ieee: Ieee, fields: seq<FieldInfo>, stride: nat, br: BatchRecord, f: FieldInfo)
    requires PlainDtype(fields, stride) && f in fields && HasData(br)
    requires DistinctBinNames(br.record.value.bins) && DataRow(ieee, fields, stride, br).Success?
    requires Carries(ieee, f, br.record.value.bins)
    ensures InRow(f, stride) && EndOf(f) <= stride
    ensures ReadValue(ieee, DataRow(ieee, fields, stride, br).value, f)
      == Success(BinOf(br.record.value.bins, f.name).value)
  {
    var k :| 0 <= k < |fields| && fields[k] == f;
    FilledIsWritten(ieee, fields, stride, br, k);
    ReadsBackIff(ieee, DataRow(ieee, fields, stride, br).value, f, BinOf(br.record.value.bins, f.name).value);
  }

  lemma {:induction false} BinsSurvive(ieee: Ieee, fields: seq<FieldInfo>, stride: nat, br: BatchRecord,
                                       wanted: seq<FieldInfo>)
    requires PlainDtype(fields, stride) && FieldsReadable(wanted, stride) && (forall f :: f in wanted ==> f in fields)
    requires HasData(br) && DistinctBinNames(br.record.value.bins) && DataRow(ieee, fields, stride, br).Success?
    requires CarriesAll(ieee, wanted, br.record.value.bins)
    ensures ReadBins(ieee, DataRow(ieee, fields, stride, br).value, wanted)
         == Success(BinsInOrder(ieee, wanted, br.record.value.bins))
    decreases |wanted|
  {
    var bins := br.record.value.bins;
    if wanted != [] {
      var n := |wanted| - 1;
      assert forall k: nat :: k < n ==> wanted[..n][k] == wanted[k];
      BinsSurvive(ieee, fields, stride, br, wanted[..n]);
      assert Carries(ieee, wanted[n], bins);
      FieldSurvives(ieee, fields, stride, br, wanted[n]);
      assert BinsInOrder(ieee, wanted, bins)
          == BinsInOrder(ieee, wanted[..n], bins) + [(wanted[n].name, BinOf(bins, wanted[n].name).value)];
    }
  }

  /** The key value that the row loop reads back unchanged. */
  predicate KeySurvives(ieee: Ieee, cfg: ReadConfig, f: FieldInfo, v: Value) {
    if v.Blob? then |v.bytes| <= f.itemsize && (v.bytes == [] || v.bytes[|v.bytes| - 1] != 0)
    else Faithful(ieee, f, v) && cfg.keyOk(v)
  }

  /** Namespace and set fields, where the dtype has them, are of a bytes kind. */
  predicate NameFieldsAreBytes(cfg: ReadConfig) {
    forall k: nat :: k < |cfg.fields| && (cfg.fields[k].name == "_namespace" || cfg.fields[k].name == "_set")
      ==> IsBytes(cfg.fields[k])
  }

  /** What a record must be for the way back: all bin fields and the key survive. */
  predicate Portable(ieee: Ieee, cfg: ReadConfig, keyField: FieldInfo, br: BatchRecord) {
    && HasData(br)
    && var bins := br.record.value.bins;
       && DistinctBinNames(bins)
       && CarriesAll(ieee, BinFields(cfg.fields, cfg.keyField), bins)
       && BinOf(bins, keyField.name).Some?
       && KeySurvives(ieee, cfg, keyField, BinOf(bins, keyField.name).value)
  }

  /** The text that a bytes field stores of a bin. */
  function NameBytes(f: FieldInfo, v: Option<Value>): seq<Byte> {
    match v
    case Some(Blob(bytes)) => EncodeBytes(f, bytes)
    case Some(StringValue(utf8)) => EncodeBytes(f, utf8)
    case _ => []
  }

  /** The namespace or set that a record goes back to: what its bin of that name says, or the default. */
  function StoredName(cfg: ReadConfig, bins: seq<(string, Value)>, name: string, default: string): string {
    match FindField(cfg.fields, name)
    case None => default
    case Some(f) => cfg.decodeLossy(TrimNul(NameBytes(f, BinOf(bins, name))))
  }

  lemma EndsInRow(fields: seq<FieldInfo>, stride: nat)
    requires StaysInRow(fields, stride)
    ensures FieldsReadable(fields, stride)
  {
    forall f | f in fields
      ensures EndOf(f) <= stride
    {
      var k :| 0 <= k < |fields| && fields[k] == f;
      assert InRow(fields[k], stride);
    }
  }

  lemma NameSlot(ieee: Ieee, fields: seq<FieldInfo>, stride: nat, br: BatchRecord, k: nat)
    requires PlainDtype(fields, stride) && k < |fields| && IsBytes(fields[k])
    requires HasData(br) && DistinctBinNames(br.record.value.bins) && DataRow(ieee, fields, stride, br).Success?
    ensures InRow(fields[k], stride)
    ensures Field(DataRow(ieee, fields, stride, br).value, fields[k])
         == Padded(NameBytes(fields[k], BinOf(br.record.value.bins, fields[k].name)), fields[k].itemsize)
  {
    var f, bins := fields[k], br.record.value.bins;
    FilledSlot(ieee, fields, stride, bins, k);
    if BinOf(bins, f.name).Some? {
      FilledIsWritten(ieee, fields, stride, br, k);
      assert Encode(ieee, f, BinOf(bins, f.name).value).value == NameBytes(f, BinOf(bins, f.name));
    } else {
      assert Padded([], f.itemsize) == Zeros(f.itemsize);
    }
  }

  lemma NameReads(ieee: Ieee, cfg: ReadConfig, stride: nat, br: BatchRecord, name: string, default: string)
    requires PlainDtype(cfg.fields, stride) && NameFieldsAreBytes(cfg)
    requires HasData(br) && DistinctBinNames(br.record.value.bins) && DataRow(ieee, cfg.fields, stride, br).Success?
    requires name == "_namespace" || name == "_set"
    ensures forall f :: f in cfg.fields ==> EndOf(f) <= stride
    ensures ReadName(ieee, cfg, DataRow(ieee, cfg.fields, stride, br).value, name, default)
         == Success(StoredName(cfg, br.record.value.bins, name, default))
  {
    EndsInRow(cfg.fields, stride);
    match FindField(cfg.fields, name) {
      case None =>
      case Some(f) =>
        var k: nat :| k < |cfg.fields| && cfg.fields[k] == f;
        NameSlot(ieee, cfg.fields, stride, br, k);
        TrimOfPadded(NameBytes(f, BinOf(br.record.value.bins, name)), f.itemsize);
    }
  }

  lemma KeyReads(ieee: Ieee, cfg: ReadConfig, stride: nat, keyField: FieldInfo, br: BatchRecord)
    requires PlainDtype(cfg.fields, stride) && keyField in cfg.fields && Portable(ieee, cfg, keyField, br)
    requires DataRow(ieee, cfg.fields, stride, br).Success?
    ensures InRow(keyField, stride) && EndOf(keyField) <= stride
    ensures ReadKey(ieee, DataRow(ieee, cfg.fields, stride, br).value, keyField)
         == Success(BinOf(br.record.value.bins, keyField.name).value)
  {
    var bins, row := br.record.value.bins, DataRow(ieee, cfg.fields, stride, br).value;
    var v := BinOf(bins, keyField.name).value;
    var k :| 0 <= k < |cfg.fields| && cfg.fields[k] == keyField;
    FilledIsWritten(ieee, cfg.fields, stride, br, k);
    if v.Blob? {
      BytesKeyRoundTripIff(ieee, row, keyField, v.bytes);
    } else {
      ReadsBackIff(ieee, row, keyField, v);
    }
  }

  /** The record that a portable row reads back as. */
  predicate SameContents(ieee: Ieee, cfg: ReadConfig, keyField: FieldInfo, br: BatchRecord, w: WriteRecord)
    requires Portable(ieee, cfg, keyField, br)
  {
    && Some(w.userKey) == BinOf(br.record.value.bins, keyField.name)
    && w.namespace == StoredName(cfg, br.record.value.bins, "_namespace", cfg.defaultNamespace)
    && w.set_ == StoredName(cfg, br.record.value.bins, "_set", cfg.defaultSet)
    && w.bins == BinsInOrder(ieee, BinFields(cfg.fields, cfg.keyField), br.record.value.bins)
  }

  lemma RowRoundTrip(ieee: Ieee, cfg: ReadConfig, stride: nat, keyField: FieldInfo, br: BatchRecord)
    requires PlainDtype(cfg.fields, stride) && NameFieldsAreBytes(cfg)
    requires keyField in cfg.fields && Portable(ieee, cfg, keyField, br)
      && DataRow(ieee, cfg.fields, stride, br).Success?
    ensures RowReadable(cfg, keyField, stride)
    ensures var r := ReadRecord(ieee, cfg, keyField, DataRow(ieee, cfg.fields, stride, br).value);
            r.Success? && SameContents(ieee, cfg, keyField, br, r.value)
  {
    EndsInRow(cfg.fields, stride);
    var row := DataRow(ieee, cfg.fields, stride, br).value;
    KeyReads(ieee, cfg, stride, keyField, br);
    NameReads(ieee, cfg, stride, br, "_namespace", cfg.defaultNamespace);
    NameReads(ieee, cfg, stride, br, "_set", cfg.defaultSet);
    BinsSurvive(ieee, cfg.fields, stride, br, BinFields(cfg.fields, cfg.keyField));
  }

  /** Only the bytes that the row loop reaches matter. */
  lemma {:induction false} BinsOfPrefix(ieee: Ieee, fields: seq<FieldInfo>, row: seq<Byte>, n: nat)
    requires n <= |row| && FieldsReadable(fields, n)
    ensures ReadBins(ieee, row[..n], fields) == ReadBins(ieee, row, fields)
    decreases |fields|
  {
    if fields != [] {
      var last := fields[|fields| - 1];
      BinsOfPrefix(ieee, fields[..|fields| - 1], row, n);
      ValueOfPrefix(ieee, last, row, n);
    }
  }

  lemma ValueOfPrefix(ieee: Ieee, f: FieldInfo, row: seq<Byte>, n: nat)
    requires EndOf(f) <= n <= |row|
    ensures ReadValue(ieee, row[..n], f) == ReadValue(ieee, row, f)
  {
    if Extent(f) > 0 {
      assert row[..n][f.offset..f.offset + Extent(f)] == row[f.offset..f.offset + Extent(f)];
    }
  }

  lemma RecordOfPrefix(ieee: Ieee, cfg: ReadConfig, keyField: FieldInfo, row: seq<Byte>, n: nat)
    requires n <= |row| && RowReadable(cfg, keyField, n) && keyField in cfg.fields
    ensures ReadRecord(ieee, cfg, keyField, row[..n]) == ReadRecord(ieee, cfg, keyField, row)
  {
    ValueOfPrefix(ieee, keyField, row, n);
    NameOfPrefix(ieee, cfg, row, n, "_namespace", cfg.defaultNamespace);
    NameOfPrefix(ieee, cfg, row, n, "_set", cfg.defaultSet);
    BinsOfPrefix(ieee, BinFields(cfg.fields, cfg.keyField), row, n);
  }

  lemma NameOfPrefix(ieee: Ieee, cfg: ReadConfig, row: seq<Byte>, n: nat, name: string, default: string)
    requires n <= |row| && forall f :: f in cfg.fields && f.name == name ==> EndOf(f) <= n
    ensures ReadName(ieee, cfg, row[..n], name, default) == ReadName(ieee, cfg, row, name, default)
  {
    match FindField(cfg.fields, name) {
      case None =>
      case Some(f) => ValueOfPrefix(ieee, f, row, n);
    }
  }

  // ---- Strided views --------------------------------------------------------------------

  /** These bytes are in memory at address `lo`. */
  predicate Holds(memory: Memory, lo: int, bytes: seq<Byte>) {
    Bytes(memory, lo, |bytes|) == bytes
  }

  /**
   Items `start`, `start + step`, ... of an array of `size`-byte items at `lo`: NumPy's slice, `step`
   of either sign.
   */
  function SliceView(memory: Memory, lo: int, size: nat, start: nat, step: int, n: nat): View {
    View(memory, lo + start * size, [n], Some([step * size]))
  }

  function PackedView(memory: Memory, lo: int, n: nat): View {
    View(memory, lo, [n], None)
  }

  predicate SliceInRange(count: nat, start: nat, step: int, n: nat) {
    forall i: nat :: i < n ==> 0 <= SliceIndex(start, step, i) < count
  }

  function SliceIndex(start: nat, step: int, i: nat): int {
    start + i * step
  }

  predicate SizedRows(rows: seq<seq<Byte>>, rowSize: nat) {
    forall k :: 0 <= k < |rows| ==> |rows[k]| == rowSize
  }

  lemma OffsetOfIndex(start: nat, step: int, i: nat, rowSize: nat)
    ensures SliceIndex(start, step, i) * rowSize == start * rowSize + i * (step * rowSize)
  {
  }

  lemma IndexBound(i: nat, n: nat, start: nat, step: int, count: nat, rowSize: nat)
    requires i < n && SliceInRange(count, start, step, n) && rowSize > 0 && InIsize(count * rowSize) && InIsize(n)
    ensures InIsize(i * (step * rowSize)) && InIsize(i)
  {
    OffsetOfIndex(start, step, i, rowSize);
    var at := SliceIndex(start, step, i);
    assert 0 <= at < count && 0 <= SliceIndex(start, step, 0) < count;
    assert start == SliceIndex(start, step, 0);
    RowBounds(at, count, rowSize);
    RowBounds(start, count, rowSize);
  }

  /** A row found in bytes that memory holds is found in memory. */
  lemma BytesInside(memory: Memory, lo: int, whole: seq<Byte>, at: nat, row: seq<Byte>, reach: nat)
    requires Holds(memory, lo, whole) && at + |row| <= |whole| && whole[at..at + |row|] == row && reach <= |row|
    ensures Bytes(memory, lo + at, reach) == row[..reach]
  {
    var found := Bytes(memory, lo + at, reach);
    forall k: nat | k < reach
      ensures found[k] == row[k]
    {
      assert row[k] == whole[at + k] == Bytes(memory, lo, |whole|)[at + k];
    }
  }

  /** Where row `at` starts in packed rows. */
  lemma RowOffset(rows: seq<seq<Byte>>, rowSize: nat, at: nat) returns (offset: nat)
    requires SizedRows(rows, rowSize) && at < |rows|
    ensures offset == at * rowSize && offset + rowSize <= |rows| * rowSize == |Join(rows)| && |rows[at]| == rowSize
    ensures Join(rows)[offset..offset + rowSize] == rows[at]
  {
    JoinRow(rows, rowSize, at);
    offset := at * rowSize;
  }

  lemma BytesOfRow(memory: Memory, lo: int, rows: seq<seq<Byte>>, rowSize: nat, at: nat, reach: nat)
    returns (offset: nat)
    requires SizedRows(rows, rowSize) && Holds(memory, lo, Join(rows)) && at < |rows| && reach <= rowSize
    ensures offset == at * rowSize <= |rows| * rowSize && reach <= |rows[at]|
    ensures Bytes(memory, lo + offset, reach) == rows[at][..reach]
  {
    offset := RowOffset(rows, rowSize, at);
    BytesInside(memory, lo, Join(rows), offset, rows[at], reach);
  }

  /** Row `i` of the slice is item `start + i * step` as far as it is read. */
  lemma SliceRow(memory: Memory, lo: int, rows: seq<seq<Byte>>, rowSize: nat, start: nat, step: int, n: nat, i: nat,
                 reach: nat)
    requires SizedRows(rows, rowSize) && rowSize > 0 && InIsize(|rows| * rowSize) && InIsize(n)
    requires Holds(memory, lo, Join(rows)) && SliceInRange(|rows|, start, step, n) && i < n && reach <= rowSize
    ensures RawRow(SliceView(memory, lo, rowSize, start, step, n), step * rowSize, i, reach)
         == Success(rows[SliceIndex(start, step, i)][..reach])
  {
    IndexBound(i, n, start, step, |rows|, rowSize);
    var offset := BytesOfRow(memory, lo, rows, rowSize, SliceIndex(start, step, i), reach);
    OffsetOfIndex(start, step, i, rowSize);
    assert CheckedRowOffset(i, step * rowSize) == Success(i * (step * rowSize));
    assert lo + start * rowSize + i * (step * rowSize) == lo + offset;
  }

  function Picked(rows: seq<seq<Byte>>, start: nat, step: int, n: nat, reach: nat): (p: RawRows)
    requires SliceInRange(|rows|, start, step, n) && forall k :: 0 <= k < |rows| ==> reach <= |rows[k]|
    ensures |p| == n && RowsSized(p, reach)
    ensures forall i: nat :: i < n ==> p[i] == Success(rows[SliceIndex(start, step, i)][..reach])
  {
    seq(n, i requires 0 <= i < n => Success(rows[SliceIndex(start, step, i)][..reach]))
  }

  /** The stride of a slice is accepted whatever its sign, and all its rows are read where they are. */
  lemma SliceReadsItsRows(memory: Memory, lo: int, rows: seq<seq<Byte>>, rowSize: nat, start: nat, step: int, n: nat,
                          reach: nat)
    requires SizedRows(rows, rowSize) && rowSize > 0 && InIsize(|rows| * rowSize) && InIsize(n) && |rows| > 0
    requires Holds(memory, lo, Join(rows)) && SliceInRange(|rows|, start, step, n) && reach <= rowSize
    requires InIsize(step * rowSize)
    ensures var view := SliceView(memory, lo, rowSize, start, step, n);
            && RowStride(view, rowSize)
               == (if step * rowSize == ISIZE_MIN then Failure(StrideUnsupported) else Success(step * rowSize))
            && RowsOf(view, step * rowSize, n, reach) == Picked(rows, start, step, n, reach)
  {
    forall i: nat | i < n
      ensures RawRow(SliceView(memory, lo, rowSize, start, step, n), step * rowSize, i, reach)
           == Success(rows[SliceIndex(start, step, i)][..reach])
    {
      SliceRow(memory, lo, rows, rowSize, start, step, n, i, reach);
    }
    RowSizeFits(|rows|, rowSize);
    StrideLargeEnough(step, rowSize);
  }

  lemma RowSizeFits(count: nat, rowSize: nat)
    requires count > 0 && InIsize(count * rowSize)
    ensures InIsize(rowSize)
  {
    RowBounds(0, count, rowSize);
  }

  lemma StrideLargeEnough(step: int, rowSize: nat)
    requires rowSize > 0
    ensures step == 0 <==> step * rowSize == 0
    ensures step > 0 ==> step * rowSize >= rowSize
    ensures step < 0 ==> -(step * rowSize) >= rowSize
  {
    if step > 0 {
      RowBounds(0, step, rowSize);
    } else if step < 0 {
      RowBounds(0, -step, rowSize);
      assert (-step) * rowSize == -(step * rowSize);
    }
  }

  lemma PackedRow(memory: Memory, lo: int, rows: seq<seq<Byte>>, rowSize: nat, reach: nat, i: nat)
    requires SizedRows(rows, rowSize) && InIsize(|rows| * rowSize) && InIsize(|rows|) && i < |rows|
    requires Holds(memory, lo, Join(rows)) && reach <= rowSize
    ensures RawRow(PackedView(memory, lo, |rows|), rowSize, i, reach) == Success(rows[i][..reach])
  {
    var offset := BytesOfRow(memory, lo, rows, rowSize, i, reach);
  }

  /** An array without strides, read at the size of its items, gives its rows in order. */
  lemma PackedReadsItsRows(memory: Memory, lo: int, rows: seq<seq<Byte>>, rowSize: nat, reach: nat)
    requires SizedRows(rows, rowSize) && rowSize > 0 && InIsize(|rows| * rowSize) && InIsize(rowSize) && InIsize(|rows|)
    requires Holds(memory, lo, Join(rows)) && reach <= rowSize
    ensures var view := PackedView(memory, lo, |rows|);
            && RowStride(view, rowSize) == Success(rowSize)
            && SliceInRange(|rows|, 0, 1, |rows|)
            && RowsOf(view, rowSize, |rows|, reach) == Picked(rows, 0, 1, |rows|, reach)
  {
    var view, n := PackedView(memory, lo, |rows|), |rows|;
    assert SliceInRange(n, 0, 1, n);
    var read, picked := RowsOf(view, rowSize, n, reach), Picked(rows, 0, 1, n, reach);
    forall i: nat | i < n
      ensures read[i] == picked[i]
    {
      PackedRow(memory, lo, rows, rowSize, reach, i);
      assert SliceIndex(0, 1, i) == i;
    }
  }

  predicate AllRowsRead(ieee: Ieee, cfg: ReadConfig, keyField: FieldInfo, rows: RawRows, reach: nat)
    requires RowReadable(cfg, keyField, reach) && keyField in cfg.fields && RowsSized(rows, reach)
  {
    forall i: nat :: i < |rows| ==> ReadRow(ieee, cfg, keyField, rows[i]).Success?
  }

  /** These are the records of the rows, one each. */
  predicate RecordsOf(ieee: Ieee, cfg: ReadConfig, keyField: FieldInfo, rows: RawRows, reach: nat,
                      records: seq<WriteRecord>)
    requires RowReadable(cfg, keyField, reach) && keyField in cfg.fields && RowsSized(rows, reach)
  {
    |records| == |rows| && forall i: nat :: i < |rows| ==> ReadRow(ieee, cfg, keyField, rows[i]) == Success(records[i])
  }

  /** The read ends well exactly when every row reads, and then with the record of each row. */
  lemma {:induction false} ReadRowsPointwise(ieee: Ieee, cfg: ReadConfig, keyField: FieldInfo, rows: RawRows,
                                             reach: nat)
    requires RowReadable(cfg, keyField, reach) && keyField in cfg.fields && RowsSized(rows, reach)
    ensures ReadRows(ieee, cfg, keyField, rows, reach).Success? <==> AllRowsRead(ieee, cfg, keyField, rows, reach)
    ensures var r := ReadRows(ieee, cfg, keyField, rows, reach);
            r.Success? ==> RecordsOf(ieee, cfg, keyField, rows, reach, r.value)
    decreases |rows|
  {
    if rows != [] {
      var n := |rows| - 1;
      ReadRowsPointwise(ieee, cfg, keyField, rows[..n], reach);
      AllRowsSnoc(ieee, cfg, keyField, rows, reach);
      var last := ReadRow(ieee, cfg, keyField, rows[n]);
      if AllRowsRead(ieee, cfg, keyField, rows, reach) {
        RecordsSnoc(ieee, cfg, keyField, rows, reach, ReadRows(ieee, cfg, keyField, rows[..n], reach).value,
          last.value);
      }
    }
  }

  lemma AllRowsSnoc(ieee: Ieee, cfg: ReadConfig, keyField: FieldInfo, rows: RawRows, reach: nat)
    requires RowReadable(cfg, keyField, reach) && keyField in cfg.fields && RowsSized(rows, reach) && rows != []
    ensures AllRowsRead(ieee, cfg, keyField, rows, reach)
      <==> && AllRowsRead(ieee, cfg, keyField, rows[..|rows| - 1], reach)
           && ReadRow(ieee, cfg, keyField, rows[|rows| - 1]).Success?
  {
    var n, front := |rows| - 1, rows[..|rows| - 1];
    if AllRowsRead(ieee, cfg, keyField, rows, reach) {
      forall i: nat | i < n
        ensures ReadRow(ieee, cfg, keyField, front[i]).Success?
      {
        assert front[i] == rows[i];
      }
    }
    if AllRowsRead(ieee, cfg, keyField, front, reach) && ReadRow(ieee, cfg, keyField, rows[n]).Success? {
      forall i: nat | i < |rows|
        ensures ReadRow(ieee, cfg, keyField, rows[i]).Success?
      {
        assert i < n ==> front[i] == rows[i];
      }
    }
  }

  lemma RecordsSnoc(ieee: Ieee, cfg: ReadConfig, keyField: FieldInfo, rows: RawRows, reach: nat,
                    records: seq<WriteRecord>, last: WriteRecord)
    requires RowReadable(cfg, keyField, reach) && keyField in cfg.fields && RowsSized(rows, reach) && rows != []
    requires RecordsOf(ieee, cfg, keyField, rows[..|rows| - 1], reach, records)
    requires ReadRow(ieee, cfg, keyField, rows[|rows| - 1]) == Success(last)
    ensures RecordsOf(ieee, cfg, keyField, rows, reach, records + [last])
  {
    assert forall i: nat :: i < |rows| - 1 ==> rows[..|rows| - 1][i] == rows[i];
  }

  /**
   Stride refinement: whenever the packed array reads, a slice of it reads, to exactly the records
   start, start + step, ... of that read.
   */
  lemma StrideRefinement(ieee: Ieee, cfg: ReadConfig, memory: Memory, lo: int, rows: seq<seq<Byte>>, rowSize: nat,
                         start: nat, step: int, n: nat)
    requires SizedRows(rows, rowSize) && rowSize > 0 && |rows| > 0 && Holds(memory, lo, Join(rows))
    requires InIsize(|rows| * rowSize) && InIsize(rowSize) && InIsize(|rows|)
    requires StaysInRow(cfg.fields, rowSize) && SliceInRange(|rows|, start, step, n) && InIsize(n)
    requires InIsize(step * rowSize) && step * rowSize != ISIZE_MIN && n * rowSize < UINT64_LIMIT
    ensures var packed := RecordsRead(ieee, cfg, PackedView(memory, lo, |rows|), rowSize);
            var sliced := RecordsRead(ieee, cfg, SliceView(memory, lo, rowSize, start, step, n), rowSize);
            packed.Success? ==>
              && sliced.Success? && |packed.value| == |rows| && |sliced.value| == n
              && forall i: nat :: i < n ==> sliced.value[i] == packed.value[SliceIndex(start, step, i)]
  {
    match FindField(cfg.fields, cfg.keyField) {
      case None =>
      case Some(keyField) =>
        var reach := Reach(cfg, keyField);
        ReachWithin(cfg, keyField, rowSize);
        PackedReadsItsRows(memory, lo, rows, rowSize, reach);
        SliceReadsItsRows(memory, lo, rows, rowSize, start, step, n, reach);
        PickedReads(ieee, cfg, keyField, rows, reach, start, step, n);
    }
  }

  /** A row that holds all fields holds all that is read of it. */
  lemma ReachWithin(cfg: ReadConfig, keyField: FieldInfo, rowSize: nat)
    requires StaysInRow(cfg.fields, rowSize)
    ensures Reach(cfg, keyField) <= rowSize && RowReadable(cfg, keyField, rowSize)
  {
    EndsInRow(cfg.fields, rowSize);
    ReachReached(cfg, keyField, cfg.fields);
  }

  lemma PickedReads(ieee: Ieee, cfg: ReadConfig, keyField: FieldInfo, rows: seq<seq<Byte>>, reach: nat,
                    start: nat, step: int, n: nat)
    requires RowReadable(cfg, keyField, reach) && keyField in cfg.fields
    requires forall k :: 0 <= k < |rows| ==> reach <= |rows[k]|
    requires SliceInRange(|rows|, start, step, n) && SliceInRange(|rows|, 0, 1, |rows|)
    ensures var all := ReadRows(ieee, cfg, keyField, Picked(rows, 0, 1, |rows|, reach), reach);
            var picked := ReadRows(ieee, cfg, keyField, Picked(rows, start, step, n, reach), reach);
            all.Success? ==>
              && picked.Success? && |all.value| == |rows| && |picked.value| == n
              && forall i: nat :: i < n ==> picked.value[i] == all.value[SliceIndex(start, step, i)]
  {
    var whole, part := Picked(rows, 0, 1, |rows|, reach), Picked(rows, start, step, n, reach);
    ReadRowsPointwise(ieee, cfg, keyField, whole, reach);
    ReadRowsPointwise(ieee, cfg, keyField, part, reach);
    forall i: nat | i < n
      ensures 0 <= SliceIndex(start, step, i) < |rows| && part[i] == whole[SliceIndex(start, step, i)]
    {
      var at := SliceIndex(start, step, i);
      assert SliceIndex(0, 1, at) == at;
    }
  }

  lemma RowOfRecord(ieee: Ieee, cfg: ReadConfig, keyField: FieldInfo, view: View, stride: int, n: nat, reach: nat,
                    i: nat)
    requires RowReadable(cfg, keyField, reach) && keyField in cfg.fields && i < n
    requires ReadRows(ieee, cfg, keyField, RowsOf(view, stride, n, reach), reach).Success?
    ensures CheckedRowOffset(i, stride).Success?
    ensures var records := ReadRows(ieee, cfg, keyField, RowsOf(view, stride, n, reach), reach).value;
            |records| == n && ReadRow(ieee, cfg, keyField, RawRow(view, stride, i, reach)) == Success(records[i])
  {
    var rows := RowsOf(view, stride, n, reach);
    ReadRowsPointwise(ieee, cfg, keyField, rows, reach);
    assert rows[i] == RawRow(view, stride, i, reach) && ReadRow(ieee, cfg, keyField, rows[i]).Success?;
  }

  /** No offset ever wraps: a read that ends well took record `i` from exactly `base + i * stride`. */
  lemma NoOffsetWraps(ieee: Ieee, cfg: ReadConfig, view: View, rowSize: nat, i: nat)
    requires RecordsRead(ieee, cfg, view, rowSize).Success? && i < view.shape[0]
    ensures var (stride, keyField) := PrepareRead(cfg, view, rowSize).value;
            var records := RecordsRead(ieee, cfg, view, rowSize).value;
            && CheckedRowOffset(i, stride) == Success(i * stride)
            && |records| == view.shape[0]
            && ReadRow(ieee, cfg, keyField, RawRow(view, stride, i, Reach(cfg, keyField))) == Success(records[i])
  {
    var p := PrepareRead(cfg, view, rowSize);
    RowOfRecord(ieee, cfg, p.value.1, view, p.value.0, view.shape[0], Reach(cfg, p.value.1), i);
  }

  // ---- The whole batch ------------------------------------------------------------------

  /** The part of a filled row that is read is enough to give the record back. */
  lemma ReachedRowRoundTrip(ieee: Ieee, cfg: ReadConfig, stride: nat, keyField: FieldInfo, br: BatchRecord, reach: nat)
    requires PlainDtype(cfg.fields, stride) && NameFieldsAreBytes(cfg) && keyField in cfg.fields
    requires Portable(ieee, cfg, keyField, br) && DataRow(ieee, cfg.fields, stride, br).Success?
    requires RowReadable(cfg, keyField, reach) && reach <= stride
    ensures var r := ReadRecord(ieee, cfg, keyField, DataRow(ieee, cfg.fields, stride, br).value[..reach]);
            r.Success? && SameContents(ieee, cfg, keyField, br, r.value)
  {
    RowRoundTrip(ieee, cfg, stride, keyField, br);
    RecordOfPrefix(ieee, cfg, keyField, DataRow(ieee, cfg.fields, stride, br).value, reach);
  }

  predicate AllPortable(ieee: Ieee, cfg: ReadConfig, keyField: FieldInfo, results: seq<BatchRecord>) {
    forall i: nat :: i < |results| ==> Portable(ieee, cfg, keyField, results[i])
  }

  /** One record each, in order, with the same contents. */
  predicate SameBatch(ieee: Ieee, cfg: ReadConfig, keyField: FieldInfo, results: seq<BatchRecord>,
                      records: seq<WriteRecord>)
    requires AllPortable(ieee, cfg, keyField, results)
  {
    && |records| == |results|
    && forall i: nat :: i < |results| ==> SameContents(ieee, cfg, keyField, results[i], records[i])
  }

  lemma RowsRoundTrip(ieee: Ieee, cfg: ReadConfig, stride: nat, keyField: FieldInfo, results: seq<BatchRecord>,
                      reach: nat)
    requires PlainDtype(cfg.fields, stride) && NameFieldsAreBytes(cfg) && keyField in cfg.fields
    requires AllRowsEncode(ieee, cfg.fields, stride, results) && AllPortable(ieee, cfg, keyField, results)
    requires RowReadable(cfg, keyField, reach) && reach <= stride && SliceInRange(|results|, 0, 1, |results|)
    ensures var rows := DataRows(ieee, cfg.fields, stride, results);
            var r := ReadRows(ieee, cfg, keyField, Picked(rows, 0, 1, |rows|, reach), reach);
            r.Success? && SameBatch(ieee, cfg, keyField, results, r.value)
  {
    var rows := DataRows(ieee, cfg.fields, stride, results);
    var raw := Picked(rows, 0, 1, |rows|, reach);
    ReadRowsPointwise(ieee, cfg, keyField, raw, reach);
    forall i: nat | i < |results|
      ensures ReadRow(ieee, cfg, keyField, raw[i]).Success?
      ensures SameContents(ieee, cfg, keyField, results[i], ReadRow(ieee, cfg, keyField, raw[i]).value)
    {
      assert SliceIndex(0, 1, i) == i;
      ReachedRowRoundTrip(ieee, cfg, stride, keyField, results[i], reach);
    }
  }

  /**
   Array round trip: the packed data buffer of a batch of portable records, wherever in memory, read
   back, gives one record each, in order, with the same key, namespace, set and bins.
   */
  lemma BatchRoundTrip(ieee: Ieee, cfg: ReadConfig, stride: nat, keyField: FieldInfo, results: seq<BatchRecord>,
                       memory: Memory, lo: int)
    requires PlainDtype(cfg.fields, stride) && NameFieldsAreBytes(cfg)
    requires FindField(cfg.fields, cfg.keyField) == Some(keyField)
    requires AllRowsEncode(ieee, cfg.fields, stride, results) && AllPortable(ieee, cfg, keyField, results)
    requires stride > 0 && InIsize(|results| * stride) && InIsize(stride) && InIsize(|results|)
    requires Holds(memory, lo, Join(DataRows(ieee, cfg.fields, stride, results)))
    ensures var r := RecordsRead(ieee, cfg, PackedView(memory, lo, |results|), stride);
            r.Success? && SameBatch(ieee, cfg, keyField, results, r.value)
  {
    var rows, reach := DataRows(ieee, cfg.fields, stride, results), Reach(cfg, keyField);
    ReachWithin(cfg, keyField, stride);
    PackedReadsItsRows(memory, lo, rows, stride, reach);
    RowsRoundTrip(ieee, cfg, stride, keyField, results, reach);
  }
}
