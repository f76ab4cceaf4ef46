/**
 Reading a NumPy structured array back into batch-write records (`numpy_to_records`), through
 views with positive or negative row strides.
 */
module NumpyRecords {
  import opened Wrappers
  import opened BatchResults
  import opened ByteCodec
  import opened NumpyFields

  const ISIZE_MIN: int := -0x8000_0000_0000_0000
  const ISIZE_LIMIT: int := 0x8000_0000_0000_0000

  predicate InIsize(i: int) {
    ISIZE_MIN <= i < ISIZE_LIMIT
  }

  datatype ReadError =
    | NotOneDimensional
    | SizeOverflow
    | ItemsizeTooLarge
    | StrideUnsupported
    | StrideTooSmall
    | OffsetOverflow
    | NoKeyField
    | InvalidKey
    | FieldFailed(error: FieldError)

  // ---- Strides and offsets --------------------------------------------------------------

  /** Memory as raw pointers see it: every address holds some byte. */
  type Memory = int -> Byte

  function Bytes(memory: Memory, at: int, n: nat): (bytes: seq<Byte>)
    ensures |bytes| == n && forall k: nat :: k < n ==> bytes[k] == memory(at + k)
  {
    seq(n, (k: nat) => memory(at + k))
  }

  /** A view as its array interface describes it: the address of row 0, shape and strides. */
  datatype View = View(memory: Memory, base: int, shape: seq<nat>, strides: Option<seq<int>>)

  /** `get_array_row_stride`. */
  function RowStride(view: View, rowSize: nat): Result<int, ReadError> {
    if |view.shape| != 1 then Failure(NotOneDimensional)
    else if !InIsize(rowSize) then Failure(ItemsizeTooLarge)
    else
      match view.strides
      case None => Success(rowSize)
      case Some(strides) =>
        if |strides| != 1 then Failure(NotOneDimensional)
        else
          var stride := strides[0];
          if stride == 0 then Success(0)
          else if stride == ISIZE_MIN then Failure(StrideUnsupported)
          else if (if stride < 0 then -stride else stride) < rowSize then Failure(StrideTooSmall)
          else Success(stride)
  }

  /** `checked_row_offset`. */
  function CheckedRowOffset(index: nat, stride: int): (r: Result<int, ReadError>)
    ensures r.Success? <==> InIsize(index) && InIsize(index * stride)
    ensures r.Success? ==> r.value == index * stride
  {
    if !InIsize(index) then Failure(OffsetOverflow)
    else if !InIsize(index * stride) then Failure(OffsetOverflow)
    else Success(index * stride)
  }

  /** The first `reach` bytes at the address of row `i`. */
  function RawRow(view: View, stride: int, i: nat, reach: nat): (row: Result<seq<Byte>, ReadError>)
    ensures row.Success? ==> |row.value| == reach
  {
    match CheckedRowOffset(i, stride)
    case Failure(e) => Failure(e)
    case Success(offset) => Success(Bytes(view.memory, view.base + offset, reach))
  }

  type RawRows = seq<Result<seq<Byte>, ReadError>>

  function RowsOf(view: View, stride: int, n: nat, reach: nat): (rows: RawRows)
    ensures |rows| == n && RowsSized(rows, reach)
    ensures forall i: nat :: i < n ==> rows[i] == RawRow(view, stride, i, reach)
  {
    seq(n, i requires 0 <= i < n => RawRow(view, stride, i, reach))
  }

  predicate RowsSized(rows: RawRows, reach: nat) {
    forall i: nat :: i < |rows| && rows[i].Success? ==> |rows[i].value| == reach
  }

  // ---- One record -----------------------------------------------------------------------

  /**
   How keys and names are read: the dtype, the key field, the defaults, UTF-8 decoding with
   replacement, and which non-bytes values can be keys.
   */
  datatype ReadConfig = ReadConfig(
    fields: seq<FieldInfo>,
    keyField: string,
    defaultNamespace: string,
    defaultSet: string,
    decodeLossy: seq<Byte> -> string,
    keyOk: Value -> bool)

  datatype WriteRecord = WriteRecord(namespace: string, set_: string, userKey: Value, bins: seq<(string, Value)>)

  /** The first field of that name. */
  function FindField(fields: seq<FieldInfo>, name: string): (f: Option<FieldInfo>)
    ensures f.Some? ==> f.value in fields && f.value.name == name
    ensures f.None? ==> forall k :: 0 <= k < |fields| ==> fields[k].name != name
  {
    if fields == [] then None
    else if fields[0].name == name then Some(fields[0])
    else FindField(fields[1..], name)
  }

  predicate IsBinField(f: FieldInfo, keyField: string) {
    f.name != keyField && !(|f.name| > 0 && f.name[0] == '_')
  }

  function BinFields(fields: seq<FieldInfo>, keyField: string): (out: seq<FieldInfo>)
    ensures forall f :: f in out <==> f in fields && IsBinField(f, keyField)
  {
    if fields == [] then []
    else
      var n := |fields| - 1;
      assert fields == fields[..n] + [fields[n]];
      BinFields(fields[..n], keyField) + if IsBinField(fields[n], keyField) then [fields[n]] else []
  }

  /** A fixed-length bytes value without its trailing NULs. */
  function TrimNul(b: seq<Byte>): (t: seq<Byte>)
    ensures t <= b && (t != [] ==> t[|t| - 1] != 0)
    ensures forall k :: |t| <= k < |b| ==> b[k] == 0
  {
    if b == [] then []
    else if b[|b| - 1] != 0 then b
    else TrimNul(b[..|b| - 1])
  }

  predicate FieldsReadable(fields: seq<FieldInfo>, n: nat) {
    forall f :: f in fields ==> EndOf(f) <= n
  }

  /** The fields that the row loop reads: key, namespace, set and bins. */
  predicate IsRead(cfg: ReadConfig, keyField: FieldInfo, f: FieldInfo) {
    f == keyField || f.name == "_namespace" || f.name == "_set" || IsBinField(f, cfg.keyField)
  }

  /** All that the row loop reads of a row lies in its first `n` bytes. */
  predicate RowReadable(cfg: ReadConfig, keyField: FieldInfo, n: nat) {
    forall f :: f in cfg.fields && IsRead(cfg, keyField, f) ==> EndOf(f) <= n
  }

  /** How far into a row the row loop reads: the end of the last byte of any field that it reads. */
  function Reach(cfg: ReadConfig, keyField: FieldInfo): (reach: nat)
    ensures RowReadable(cfg, keyField, reach)
  {
    ReachOver(cfg, keyField, cfg.fields)
  }

  function ReachOver(cfg: ReadConfig, keyField: FieldInfo, fields: seq<FieldInfo>): (reach: nat)
    ensures forall f :: f in fields && IsRead(cfg, keyField, f) ==> EndOf(f) <= reach
  {
    if fields == [] then 0
    else
      var rest, first := ReachOver(cfg, keyField, fields[1..]), fields[0];
      if IsRead(cfg, keyField, first) && EndOf(first) > rest then EndOf(first) else rest
  }

  /** The reach is exact: some field that is read ends there. */
  lemma {:induction false} ReachReached(cfg: ReadConfig, keyField: FieldInfo, fields: seq<FieldInfo>)
    ensures ReachOver(cfg, keyField, fields) > 0
      ==> exists f :: f in fields && IsRead(cfg, keyField, f) && EndOf(f) == ReachOver(cfg, keyField, fields)
  {
    if fields != [] {
      ReachReached(cfg, keyField, fields[1..]);
      assert fields[0] in fields;
    }
  }

  /** The namespace or set of a row: its own field when the dtype has one, else the default. */
  function ReadName(ieee: Ieee, cfg: ReadConfig, row: seq<Byte>, fieldName: string, default: string):
    Result<string, FieldError>
    requires forall f :: f in cfg.fields && f.name == fieldName ==> EndOf(f) <= |row|
  {
    match FindField(cfg.fields, fieldName)
    case None => Success(default)
    case Some(f) =>
      match ReadValue(ieee, row, f)
      case Failure(e) => Failure(e)
      case Success(v) => Success(if v.Blob? then cfg.decodeLossy(TrimNul(v.bytes)) else default)
  }

  function ReadBins(ieee: Ieee, row: seq<Byte>, fields: seq<FieldInfo>): Result<seq<(string, Value)>, FieldError>
    requires FieldsReadable(fields, |row|)
  {
    if fields == [] then Success([])
    else
      var n := |fields| - 1;
      match ReadBins(ieee, row, fields[..n])
      case Failure(e) => Failure(e)
      case Success(bins) =>
        match ReadValue(ieee, row, fields[n])
        case Failure(e) => Failure(e)
        case Success(v) => Success(bins + [(fields[n].name, v)])
  }

  function ReadKey(ieee: Ieee, row: seq<Byte>, keyField: FieldInfo): Result<Value, FieldError>
    requires EndOf(keyField) <= |row|
  {
    match ReadValue(ieee, row, keyField)
    case Failure(e) => Failure(e)
    case Success(v) => Success(if v.Blob? then Blob(TrimNul(v.bytes)) else v)
  }

  /** The body of the row loop: key, namespace, set, key check, bins. */
  function ReadRecord(ieee: Ieee, cfg: ReadConfig, keyField: FieldInfo, row: seq<Byte>): Result<WriteRecord, ReadError>
    requires RowReadable(cfg, keyField, |row|) && keyField in cfg.fields
  {
    match ReadKey(ieee, row, keyField)
    case Failure(e) => Failure(FieldFailed(e))
    case Success(key) =>
      match ReadName(ieee, cfg, row, "_namespace", cfg.defaultNamespace)
      case Failure(e) => Failure(FieldFailed(e))
      case Success(ns) =>
        match ReadName(ieee, cfg, row, "_set", cfg.defaultSet)
        case Failure(e) => Failure(FieldFailed(e))
        case Success(set_) =>
          if !key.Blob? && !cfg.keyOk(key) then Failure(InvalidKey)
          else
            match ReadBins(ieee, row, BinFields(cfg.fields, cfg.keyField))
            case Failure(e) => Failure(FieldFailed(e))
            case Success(bins) => Success(WriteRecord(ns, set_, key, bins))
  }

  // ---- All rows -------------------------------------------------------------------------

  function ReadRow(ieee: Ieee, cfg: ReadConfig, keyField: FieldInfo, row: Result<seq<Byte>, ReadError>):
    Result<WriteRecord, ReadError>
    requires keyField in cfg.fields && (row.Success? ==> RowReadable(cfg, keyField, |row.value|))
  {
    if row.Failure? then Failure(row.error) else ReadRecord(ieee, cfg, keyField, row.value)
  }

  /** The rows in order as records, or the first failure. */
  function ReadRows(ieee: Ieee, cfg: ReadConfig, keyField: FieldInfo, rows: RawRows, reach: nat):
    Result<seq<WriteRecord>, ReadError>
    requires RowReadable(cfg, keyField, reach) && keyField in cfg.fields && RowsSized(rows, reach)
  {
    if rows == [] then Success([])
    else
      var n := |rows| - 1;
      match ReadRows(ieee, cfg, keyField, rows[..n], reach)
      case Failure(e) => Failure(e)
      case Success(records) =>
        match ReadRow(ieee, cfg, keyField, rows[n])
        case Failure(e) => Failure(e)
        case Success(record) => Success(records + [record])
  }

  lemma {:induction false} ReadRowsFailureStays(ieee: Ieee, cfg: ReadConfig, keyField: FieldInfo, rows: RawRows,
                                                i: nat, reach: nat)
    requires RowReadable(cfg, keyField, reach) && keyField in cfg.fields && RowsSized(rows, reach)
    requires i <= |rows| && ReadRows(ieee, cfg, keyField, rows[..i], reach).Failure?
    ensures ReadRows(ieee, cfg, keyField, rows, reach) == ReadRows(ieee, cfg, keyField, rows[..i], reach)
    decreases |rows|
  {
    if i == |rows| {
      assert rows[..i] == rows;
    } else {
      assert rows[..|rows| - 1][..i] == rows[..i];
      ReadRowsFailureStays(ieee, cfg, keyField, rows[..|rows| - 1], i, reach);
    }
  }

  /** The inner loop over the bin fields of one row. */
  method ReadBinFields(ieee: Ieee, row: seq<Byte>, fields: seq<FieldInfo>)
    returns (r: Result<seq<(string, Value)>, FieldError>)
    requires FieldsReadable(fields, |row|)
    ensures r == ReadBins(ieee, row, fields)
  {
    var bins: seq<(string, Value)> := [];
    for k := 0 to |fields|
      invariant ReadBins(ieee, row, fields[..k]) == Success(bins)
    {
      assert fields[..k + 1][..k] == fields[..k];
      match ReadValue(ieee, row, fields[k]) {
        case Failure(e) =>
          ReadBinsFailureStays(ieee, row, fields, k + 1);
          return Failure(e);
        case Success(v) =>
          bins := bins + [(fields[k].name, v)];
      }
    }
    assert fields[..|fields|] == fields;
    r := Success(bins);
  }

  lemma {:induction false} ReadBinsFailureStays(ieee: Ieee, row: seq<Byte>, fields: seq<FieldInfo>, k: nat)
    requires FieldsReadable(fields, |row|) && k <= |fields| && ReadBins(ieee, row, fields[..k]).Failure?
    ensures ReadBins(ieee, row, fields) == ReadBins(ieee, row, fields[..k])
    decreases |fields|
  {
    if k == |fields| {
      assert fields[..k] == fields;
    } else {
      assert fields[..|fields| - 1][..k] == fields[..k];
      ReadBinsFailureStays(ieee, row, fields[..|fields| - 1], k);
    }
  }

  /** What one pass of the row loop makes of the row's bytes. */
  method ReadRowBytes(ieee: Ieee, cfg: ReadConfig, keyField: FieldInfo, row: seq<Byte>)
    returns (r: Result<WriteRecord, ReadError>)
    requires RowReadable(cfg, keyField, |row|) && keyField in cfg.fields
    ensures r == ReadRecord(ieee, cfg, keyField, row)
  {
    var key := ReadKey(ieee, row, keyField);
    if key.Failure? {
      return Failure(FieldFailed(key.error));
    }
    var ns := ReadName(ieee, cfg, row, "_namespace", cfg.defaultNamespace);
    if ns.Failure? {
      return Failure(FieldFailed(ns.error));
    }
    var set_ := ReadName(ieee, cfg, row, "_set", cfg.defaultSet);
    if set_.Failure? {
      return Failure(FieldFailed(set_.error));
    }
    if !key.value.Blob? && !cfg.keyOk(key.value) {
      return Failure(InvalidKey);
    }
    var bins := ReadBinFields(ieee, row, BinFields(cfg.fields, cfg.keyField));
    if bins.Failure? {
      return Failure(FieldFailed(bins.error));
    }
    r := Success(WriteRecord(ns.value, set_.value, key.value, bins.value));
  }

  /** One pass of the row loop. */
  method ReadOneRow(ieee: Ieee, cfg: ReadConfig, keyField: FieldInfo, view: View, stride: int, i: nat, reach: nat)
    returns (r: Result<WriteRecord, ReadError>)
    requires RowReadable(cfg, keyField, reach) && keyField in cfg.fields
    ensures r == ReadRow(ieee, cfg, keyField, RawRow(view, stride, i, reach))
  {
    var row := RawRow(view, stride, i, reach);
    if row.Failure? {
      return Failure(row.error);
    }
    r := ReadRowBytes(ieee, cfg, keyField, row.value);
  }

  /** What stops `numpy_to_records` before its row loop. */
  function PrepareRead(cfg: ReadConfig, view: View, rowSize: nat): (p: Result<(int, FieldInfo), ReadError>)
    ensures p.Success? ==> |view.shape| == 1 && p.value.1 in cfg.fields && p.value.1.name == cfg.keyField
  {
    if |view.shape| == 0 then Failure(NotOneDimensional)
    else if view.shape[0] * rowSize >= UINT64_LIMIT then Failure(SizeOverflow)
    else
      match RowStride(view, rowSize)
      case Failure(e) => Failure(e)
      case Success(stride) =>
        match FindField(cfg.fields, cfg.keyField)
        case None => Failure(NoKeyField)
        case Some(f) => Success((stride, f))
  }

  ghost predicate ReadUpTo(ieee: Ieee, cfg: ReadConfig, keyField: FieldInfo, rows: RawRows, i: nat, reach: nat,
                           records: seq<WriteRecord>)
    requires RowReadable(cfg, keyField, reach) && keyField in cfg.fields && RowsSized(rows, reach) && i <= |rows|
  {
    ReadRows(ieee, cfg, keyField, rows[..i], reach) == Success(records)
  }

  lemma ReadUpToStep(ieee: Ieee, cfg: ReadConfig, keyField: FieldInfo, rows: RawRows, i: nat, reach: nat,
                     records: seq<WriteRecord>)
    requires RowReadable(cfg, keyField, reach) && keyField in cfg.fields && RowsSized(rows, reach) && i < |rows|
    requires ReadUpTo(ieee, cfg, keyField, rows, i, reach, records)
    ensures var row := ReadRow(ieee, cfg, keyField, rows[i]);
            if row.Success? then ReadUpTo(ieee, cfg, keyField, rows, i + 1, reach, records + [row.value])
            else ReadRows(ieee, cfg, keyField, rows, reach) == Failure(row.error)
  {
    assert rows[..i + 1][..i] == rows[..i];
    if ReadRow(ieee, cfg, keyField, rows[i]).Failure? {
      ReadRowsFailureStays(ieee, cfg, keyField, rows, i + 1, reach);
    }
  }

  /** The row loop of `numpy_to_records`. */
  method ReadRowLoop(ieee: Ieee, cfg: ReadConfig, keyField: FieldInfo, view: View, stride: int, n: nat, reach: nat)
    returns (r: Result<seq<WriteRecord>, ReadError>)
    requires RowReadable(cfg, keyField, reach) && keyField in cfg.fields
    ensures r == ReadRows(ieee, cfg, keyField, RowsOf(view, stride, n, reach), reach)
  {
    ghost var rows := RowsOf(view, stride, n, reach);
    var records: seq<WriteRecord> := [];
    for i := 0 to n
      invariant ReadUpTo(ieee, cfg, keyField, rows, i, reach, records)
    {
      assert rows[i] == RawRow(view, stride, i, reach);
      var record := ReadOneRow(ieee, cfg, keyField, view, stride, i, reach);
      ReadUpToStep(ieee, cfg, keyField, rows, i, reach, records);
      if record.Failure? {
        return Failure(record.error);
      }
      records := records + [record.value];
    }
    assert rows[..n] == rows;
    r := Success(records);
  }

  /**
   `numpy_to_records`: it reads what its pointers reach, whether or not that belongs to the array.
   `rowSize` is the size of the dtype argument, which need not be that of the array's items.
   */
  method NumpyToRecords(ieee: Ieee, cfg: ReadConfig, view: View, rowSize: nat)
    returns (r: Result<seq<WriteRecord>, ReadError>)
    ensures r == RecordsRead(ieee, cfg, view, rowSize)
  {
    var prepared := PrepareRead(cfg, view, rowSize);
    if prepared.Failure? {
      return Failure(prepared.error);
    }
    var (stride, keyField) := prepared.value;
    r := ReadRowLoop(ieee, cfg, keyField, view, stride, view.shape[0], Reach(cfg, keyField));
  }

  /** The records of all rows in order, or the first failure; the checks before the loop come first. */
  function RecordsRead(ieee: Ieee, cfg: ReadConfig, view: View, rowSize: nat): Result<seq<WriteRecord>, ReadError> {
    var p := PrepareRead(cfg, view, rowSize);
    if p.Failure? then Failure(p.error)
    else
      var (stride, keyField) := p.value;
      var reach := Reach(cfg, keyField);
      ReadRows(ieee, cfg, keyField, RowsOf(view, stride, view.shape[0], reach), reach)
  }
}
