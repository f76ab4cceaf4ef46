/**
 The fill of NumPy buffers from batch results: the loop of `batch_to_numpy_py` over raw arrays,
 and what its rows hold.
 */
module NumpyFill {
  import opened Wrappers
  import opened BatchResults
  import opened ByteCodec
  import opened NumpyFields

  /** Every load and store of a field stays in its row. */
  predicate StaysInRow(fields: seq<FieldInfo>, stride: nat) {
    forall k :: 0 <= k < |fields| ==> InRow(fields[k], stride)
  }

  /** The name lookup built from the fields: a later field of the same name wins. */
  function FieldOf(fields: seq<FieldInfo>, name: string): (f: Option<FieldInfo>)
    ensures f.Some? ==> f.value in fields && f.value.name == name
  {
    if fields == [] then None
    else if fields[|fields| - 1].name == name then Some(fields[|fields| - 1])
    else FieldOf(fields[..|fields| - 1], name)
  }

  // ---- Writing one value ----------------------------------------------------------------

  method WriteIntToBuffer(buf: array<Byte>, row: nat, f: FieldInfo, v: Int64) returns (r: Result<(), FieldError>)
    requires IsWidth(f.baseItemsize) ==> row + f.offset + f.baseItemsize <= buf.Length
    modifies buf
    ensures Stored(old(buf[..]), buf[..], row + f.offset, EncodeInt(f, v), r)
  {
    PowersOf256();
    var pos := row + f.offset;
    match f.baseItemsize {
      case 1 =>
        if v < -0x80 || v > 0x7F { return Failure(IntegerOverflow); }
        WriteUnaligned(buf, pos, StoreSigned(v, 1));
      case 2 =>
        if v < -0x8000 || v > 0x7FFF { return Failure(IntegerOverflow); }
        WriteUnaligned(buf, pos, StoreSigned(v, 2));
      case 4 =>
        if v < -0x8000_0000 || v > 0x7FFF_FFFF { return Failure(IntegerOverflow); }
        WriteUnaligned(buf, pos, StoreSigned(v, 4));
      case 8 =>
        WriteUnaligned(buf, pos, StoreSigned(v, 8));
      case _ =>
        return Failure(UnsupportedSize);
    }
    r := Success(());
  }

  method WriteUintToBuffer(buf: array<Byte>, row: nat, f: FieldInfo, v: Bits64) returns (r: Result<(), FieldError>)
    requires IsWidth(f.baseItemsize) ==> row + f.offset + f.baseItemsize <= buf.Length
    modifies buf
    ensures Stored(old(buf[..]), buf[..], row + f.offset, EncodeUint(f, v), r)
  {
    var pos := row + f.offset;
    match f.baseItemsize {
      case 1 =>
        if v > 0xFF { return Failure(IntegerOverflow); }
        WriteUnaligned(buf, pos, LittleEndian(v, 1));
      case 2 =>
        if v > 0xFFFF { return Failure(IntegerOverflow); }
        WriteUnaligned(buf, pos, LittleEndian(v, 2));
      case 4 =>
        if v > 0xFFFF_FFFF { return Failure(IntegerOverflow); }
        WriteUnaligned(buf, pos, LittleEndian(v, 4));
      case 8 =>
        WriteUnaligned(buf, pos, LittleEndian(v, 8));
      case _ =>
        return Failure(UnsupportedSize);
    }
    r := Success(());
  }

  method WriteFloatToBuffer(ieee: Ieee, buf: array<Byte>, row: nat, f: FieldInfo, v: Bits64)
    returns (r: Result<(), FieldError>)
    requires IsWidth(f.baseItemsize) && f.baseItemsize != 1 ==> row + f.offset + f.baseItemsize <= buf.Length
    modifies buf
    ensures Stored(old(buf[..]), buf[..], row + f.offset, EncodeFloat(ieee, f, v), r)
  {
    var pos := row + f.offset;
    match f.baseItemsize {
      case 4 =>
        var m := ieee.magnitude(v);
        if m.Finite? && (m.r > F32_MAX || m.r < -F32_MAX) { return Failure(FloatOverflow); }
        WriteUnaligned(buf, pos, LittleEndian(ieee.narrow32(v), 4));
      case 8 =>
        WriteUnaligned(buf, pos, LittleEndian(v, 8));
      case 2 =>
        WriteUnaligned(buf, pos, LittleEndian(ieee.narrow16(v), 2));
      case _ =>
        return Failure(UnsupportedSize);
    }
    r := Success(());
  }

  method WriteBytesToBuffer(buf: array<Byte>, row: nat, f: FieldInfo, data: seq<Byte>)
    requires row + f.offset + f.itemsize <= buf.Length
    modifies buf
    ensures buf[..] == Splice(old(buf[..]), row + f.offset, EncodeBytes(f, data))
  {
    var copyLen := if |data| < f.itemsize then |data| else f.itemsize;
    if copyLen > 0 {
      WriteUnaligned(buf, row + f.offset, data[..copyLen]);
      assert data[..copyLen] == EncodeBytes(f, data);
    }
  }

  /** A write either stores the encoded bytes and nothing else, or reports the error and stores nothing. */
  ghost predicate Stored(before: seq<Byte>, after: seq<Byte>, pos: nat,
                         encoded: Result<seq<Byte>, FieldError>, r: Result<(), FieldError>)
  {
    match encoded
    case Success(bytes) => pos + |bytes| <= |before| && r.Success? && after == Splice(before, pos, bytes)
    case Failure(e) => r == Failure(e) && after == before
  }

  /** `write_value_to_buffer`. */
  method WriteValueToBuffer(ieee: Ieee, buf: array<Byte>, row: nat, f: FieldInfo, v: Value)
    returns (r: Result<(), FieldError>)
    requires row + f.offset + Extent(f) <= buf.Length
    modifies buf
    ensures Stored(old(buf[..]), buf[..], row + f.offset, Encode(ieee, f, v), r)
  {
    match v {
      case IntValue(i) =>
        match f.kind {
          case IntKind => r := WriteIntToBuffer(buf, row, f, i);
          case UintKind =>
            if i < 0 { return Failure(NegativeToUnsigned); }
            r := WriteUintToBuffer(buf, row, f, i);
          case FloatKind => r := WriteFloatToBuffer(ieee, buf, row, f, ieee.ofInt(i));
          case _ => r := Failure(KindMismatch);
        }
      case Float64(bits) => r := WriteFloatValue(ieee, buf, row, f, bits);
      case Float32(bits) => r := WriteFloatValue(ieee, buf, row, f, ieee.widen32(bits));
      case BoolValue(b) =>
        var i: Int64 := if b then 1 else 0;
        match f.kind {
          case IntKind => r := WriteIntToBuffer(buf, row, f, i);
          case UintKind => r := WriteUintToBuffer(buf, row, f, i);
          case FloatKind => r := WriteFloatToBuffer(ieee, buf, row, f, ieee.ofInt(i));
          case _ => r := Failure(KindMismatch);
        }
      case Blob(bytes) =>
        if IsBytes(f) || IsSubArray(f) {
          WriteBytesToBuffer(buf, row, f, bytes);
          r := Success(());
        } else {
          r := Failure(KindMismatch);
        }
      case StringValue(utf8) =>
        if IsBytes(f) {
          WriteBytesToBuffer(buf, row, f, utf8);
          r := Success(());
        } else {
          r := Failure(KindMismatch);
        }
      case NilValue => r := Success(());
      case OtherValue(_) => r := Failure(UnsupportedValue);
    }
  }

  method WriteFloatValue(ieee: Ieee, buf: array<Byte>, row: nat, f: FieldInfo, bits: Bits64)
    returns (r: Result<(), FieldError>)
    requires row + f.offset + Extent(f) <= buf.Length
    modifies buf
    ensures Stored(old(buf[..]), buf[..], row + f.offset, EncodeFloatValue(ieee, f, bits), r)
  {
    match f.kind {
      case FloatKind => r := WriteFloatToBuffer(ieee, buf, row, f, bits);
      case IntKind =>
        match FloatToInt64(ieee.magnitude(bits)) {
          case Failure(e) => r := Failure(e);
          case Success(i) => r := WriteIntToBuffer(buf, row, f, i);
        }
      case UintKind =>
        match FloatToUint64(ieee.magnitude(bits)) {
          case Failure(e) => r := Failure(e);
          case Success(u) => r := WriteUintToBuffer(buf, row, f, u);
        }
      case _ => r := Failure(KindMismatch);
    }
  }

  // ---- Rows -----------------------------------------------------------------------------

  lemma FieldOfInRow(fields: seq<FieldInfo>, stride: nat, name: string)
    requires StaysInRow(fields, stride) && FieldOf(fields, name).Some?
    ensures InRow(FieldOf(fields, name).value, stride)
  {
  }

  /** One bin written into a row; bins that are not in the dtype are ignored. */
  function FillBin(ieee: Ieee, fields: seq<FieldInfo>, row: seq<Byte>, bin: (string, Value)):
    (r: Result<seq<Byte>, FieldError>)
    requires StaysInRow(fields, |row|)
    ensures r.Success? ==> |r.value| == |row|
  {
    match FieldOf(fields, bin.0)
    case None => Success(row)
    case Some(f) =>
      FieldOfInRow(fields, |row|, bin.0);
      match Encode(ieee, f, bin.1)
      case Failure(e) => Failure(e)
      case Success(bytes) =>
        EncodeFits(ieee, f, bin.1);
        Success(Splice(row, f.offset, bytes))
  }

  /** A row after all bins of a record, in the order given, or the first error. */
  function FillBins(ieee: Ieee, fields: seq<FieldInfo>, row: seq<Byte>, bins: seq<(string, Value)>):
    (r: Result<seq<Byte>, FieldError>)
    requires StaysInRow(fields, |row|)
    ensures r.Success? ==> |r.value| == |row|
    decreases |bins|
  {
    if bins == [] then Success(row)
    else
      match FillBins(ieee, fields, row, bins[..|bins| - 1])
      case Failure(e) => Failure(e)
      case Success(filled) => FillBin(ieee, fields, filled, bins[|bins| - 1])
  }

  lemma {:induction false} FillFailureStays(ieee: Ieee, fields: seq<FieldInfo>, row: seq<Byte>,
                                            bins: seq<(string, Value)>, i: nat)
    requires StaysInRow(fields, |row|) && i <= |bins|
    requires FillBins(ieee, fields, row, bins[..i]).Failure?
    ensures FillBins(ieee, fields, row, bins) == FillBins(ieee, fields, row, bins[..i])
    decreases |bins|
  {
    if i == |bins| {
      assert bins[..i] == bins;
    } else {
      assert bins[..|bins| - 1][..i] == bins[..i];
      FillFailureStays(ieee, fields, row, bins[..|bins| - 1], i);
    }
  }

  /** One bin written at its field, or ignored when the dtype has no such field. */
  method FillBinInPlace(ieee: Ieee, fields: seq<FieldInfo>, data: array<Byte>, start: nat, stride: nat,
                        bin: (string, Value))
    returns (r: Result<(), FieldError>)
    requires StaysInRow(fields, stride) && start + stride <= data.Length
    modifies data
    ensures data[..start] == old(data[..start]) && data[start + stride..] == old(data[start + stride..])
    ensures match FillBin(ieee, fields, old(data[start..start + stride]), bin)
            case Success(row) => r.Success? && data[start..start + stride] == row
            case Failure(e) => r == Failure(e)
  {
    match FieldOf(fields, bin.0) {
      case None =>
        r := Success(());
      case Some(f) =>
        FieldOfInRow(fields, stride, bin.0);
        ghost var before := data[..];
        if Encode(ieee, f, bin.1).Success? {
          EncodeFits(ieee, f, bin.1);
        }
        r := WriteValueToBuffer(ieee, data, start, f, bin.1);
        ghost var after := data[..];
        StoredInRow(before, after, start, stride, f.offset, Encode(ieee, f, bin.1), r);
        assert data[..start] == after[..start] && data[start + stride..] == after[start + stride..];
        assert data[start..start + stride] == after[start..start + stride];
    }
  }

  /** The inner loop over one record's bins; nothing outside the row changes, even on error. */
  method FillRowInPlace(ieee: Ieee, fields: seq<FieldInfo>, data: array<Byte>, start: nat, stride: nat,
                        bins: seq<(string, Value)>)
    returns (r: Result<(), FieldError>)
    requires StaysInRow(fields, stride) && start + stride <= data.Length
    modifies data
    ensures data[..start] == old(data[..start]) && data[start + stride..] == old(data[start + stride..])
    ensures match FillBins(ieee, fields, old(data[start..start + stride]), bins)
            case Success(row) => r.Success? && data[start..start + stride] == row
            case Failure(e) => r == Failure(e)
  {
    ghost var row := data[start..start + stride];
    for k := 0 to |bins|
      invariant data[..start] == old(data[..start]) && data[start + stride..] == old(data[start + stride..])
      invariant FillBins(ieee, fields, row, bins[..k]) == Success(data[start..start + stride])
    {
      assert bins[..k + 1][..k] == bins[..k];
      r := FillBinInPlace(ieee, fields, data, start, stride, bins[k]);
      if r.Failure? {
        FillFailureStays(ieee, fields, row, bins, k + 1);
        return;
      }
    }
    assert bins[..|bins|] == bins;
    r := Success(());
  }

  lemma StoredInRow(before: seq<Byte>, after: seq<Byte>, start: nat, stride: nat, offset: nat,
                    encoded: Result<seq<Byte>, FieldError>, r: Result<(), FieldError>)
    requires start + stride <= |before| && (encoded.Success? ==> offset + |encoded.value| <= stride)
    requires Stored(before, after, start + offset, encoded, r)
    ensures |after| == |before| && after[..start] == before[..start]
    ensures after[start + stride..] == before[start + stride..]
    ensures match encoded
            case Success(bytes) =>
              r.Success? && after[start..start + stride] == Splice(before[start..start + stride], offset, bytes)
            case Failure(e) => r == Failure(e)
  {
    if encoded.Success? {
      SpliceInRow(before, start, stride, offset, encoded.value);
    }
  }

  lemma SpliceInRow(s: seq<Byte>, start: nat, stride: nat, offset: nat, bytes: seq<Byte>)
    requires start + stride <= |s| && offset + |bytes| <= stride
    ensures var t := Splice(s, start + offset, bytes);
            && t[..start] == s[..start]
            && t[start + stride..] == s[start + stride..]
            && t[start..start + stride] == Splice(s[start..start + stride], offset, bytes)
  {
  }

  /** The data row of one batch record: zeros unless its code is 0 and it has a body. */
  function DataRow(ieee: Ieee, fields: seq<FieldInfo>, stride: nat, br: BatchRecord): (r: Result<seq<Byte>, FieldError>)
    requires StaysInRow(fields, stride)
    ensures r.Success? ==> |r.value| == stride
  {
    if WireCode(br) != 0 || br.record.None? then Success(Zeros(stride))
    else FillBins(ieee, fields, Zeros(stride), br.record.value.bins)
  }

  function CodeRow(br: BatchRecord): (row: seq<Byte>)
    ensures |row| == 4
  {
    PowersOf256();
    LittleEndian(ToUnsigned(WireCode(br), 4), 4)
  }

  /** Generation and time to live, or zeros for a row without data. */
  function MetaRow(br: BatchRecord): (row: seq<Byte>)
    ensures |row| == 8
  {
    if WireCode(br) != 0 || br.record.None? then Zeros(8)
    else LittleEndian(br.record.value.gen, 4) + LittleEndian(br.record.value.ttl, 4)
  }

  function CodeRows(results: seq<BatchRecord>): (rows: seq<seq<Byte>>)
    ensures |rows| == |results| && forall i :: 0 <= i < |results| ==> rows[i] == CodeRow(results[i])
  {
    seq(|results|, i requires 0 <= i < |results| => CodeRow(results[i]))
  }

  function MetaRows(results: seq<BatchRecord>): (rows: seq<seq<Byte>>)
    ensures |rows| == |results| && forall i :: 0 <= i < |results| ==> rows[i] == MetaRow(results[i])
  {
    seq(|results|, i requires 0 <= i < |results| => MetaRow(results[i]))
  }

  predicate AllRowsEncode(ieee: Ieee, fields: seq<FieldInfo>, stride: nat, results: seq<BatchRecord>)
    requires StaysInRow(fields, stride)
  {
    forall i :: 0 <= i < |results| ==> DataRow(ieee, fields, stride, results[i]).Success?
  }

  function DataRows(ieee: Ieee, fields: seq<FieldInfo>, stride: nat, results: seq<BatchRecord>): (rows: seq<seq<Byte>>)
    requires StaysInRow(fields, stride) && AllRowsEncode(ieee, fields, stride, results)
    ensures |rows| == |results|
    ensures forall i :: 0 <= i < |results| ==> rows[i] == DataRow(ieee, fields, stride, results[i]).value
  {
    seq(|results|, i requires 0 <= i < |results| => DataRow(ieee, fields, stride, results[i]).value)
  }

  // ---- The whole batch ------------------------------------------------------------------

  /** The first `|rows|` rows of a buffer are `rows`, and the rest is still zero. */
  ghost predicate FilledUpTo(buf: seq<Byte>, rows: seq<seq<Byte>>, n: nat, stride: nat) {
    && |rows| <= n
    && |buf| == n * stride
    && (forall k :: 0 <= k < |rows| ==> |rows[k]| == stride)
    && 0 <= |rows| * stride <= n * stride
    && buf[..|rows| * stride] == Join(rows)
    && buf[|rows| * stride..] == Zeros(n * stride - |rows| * stride)
  }

  /** The next row of a partly filled buffer is zero. */
  lemma NextRowIsZero(buf: seq<Byte>, rows: seq<seq<Byte>>, n: nat, stride: nat)
    requires FilledUpTo(buf, rows, n, stride) && |rows| < n
    ensures var start := |rows| * stride;
            0 <= start <= start + stride <= |buf| && buf[start..start + stride] == Zeros(stride)
  {
    var start := |rows| * stride;
    RowBounds(|rows|, n, stride);
    assert forall k :: 0 <= k < stride ==> buf[start + k] == buf[start..][k];
  }

  /** Writing just the next row extends what has been filled. */
  lemma ExtendFilled(before: seq<Byte>, after: seq<Byte>, rows: seq<seq<Byte>>, row: seq<Byte>, n: nat, stride: nat)
    requires FilledUpTo(before, rows, n, stride) && |rows| < n && |row| == stride
    requires |after| == |before| && |rows| * stride + stride <= |after|
    requires after[..|rows| * stride] == before[..|rows| * stride]
    requires after[|rows| * stride..|rows| * stride + stride] == row
    requires after[|rows| * stride + stride..] == before[|rows| * stride + stride..]
    ensures FilledUpTo(after, rows + [row], n, stride)
  {
    var start := |rows| * stride;
    RowBounds(|rows|, n, stride);
    var longer := rows + [row];
    assert longer[..|rows|] == rows;
    assert |longer| * stride == start + stride;
    assert after[..start + stride] == after[..start] + after[start..start + stride];
    assert after[..start + stride] == Join(longer);
    assert before[start + stride..] == before[start..][stride..];
    assert Zeros(n * stride - start)[stride..] == Zeros(n * stride - start - stride);
  }

  lemma ExtendBySplice(before: seq<Byte>, rows: seq<seq<Byte>>, row: seq<Byte>, n: nat, stride: nat)
    requires FilledUpTo(before, rows, n, stride) && |rows| < n && |row| == stride
    requires |rows| * stride + stride <= |before|
    ensures FilledUpTo(Splice(before, |rows| * stride, row), rows + [row], n, stride)
  {
    ExtendFilled(before, Splice(before, |rows| * stride, row), rows, row, n, stride);
  }

  lemma ExtendByZeroRow(buf: seq<Byte>, rows: seq<seq<Byte>>, n: nat, stride: nat)
    requires FilledUpTo(buf, rows, n, stride) && |rows| < n
    ensures FilledUpTo(buf, rows + [Zeros(stride)], n, stride)
  {
    NextRowIsZero(buf, rows, n, stride);
    ExtendFilled(buf, buf, rows, Zeros(stride), n, stride);
  }

  lemma AllFilled(buf: seq<Byte>, rows: seq<seq<Byte>>, n: nat, stride: nat)
    requires FilledUpTo(buf, rows, n, stride) && |rows| == n
    ensures buf == Join(rows)
  {
    assert buf[..n * stride] == buf;
  }

  // ---- What the arrays show -------------------------------------------------------------

  /** The four-byte word at `pos`, as NumPy reads a `u4`. */
  function WordAt(buf: seq<Byte>, pos: nat): nat
    requires pos + 4 <= |buf|
  {
    FromLittleEndian(buf[pos..pos + 4])
  }

  /** A record with a success code, or none, and a body. */
  predicate Delivered(br: BatchRecord) {
    br.record.Some? && (br.resultCode.Some? ==> br.resultCode.value == Ok)
  }

  /** Row `i` of the meta array: the generation in its first word and the time to live in its second, or zeros. */
  predicate MetaShows(meta: seq<Byte>, i: nat, br: BatchRecord) {
    && 8 * i + 8 <= |meta|
    && WordAt(meta, 8 * i) == (if Delivered(br) then br.record.value.gen else 0)
    && WordAt(meta, 8 * i + 4) == (if Delivered(br) then br.record.value.ttl else 0)
  }

  /** Row `i` of the code array, read as an `i4`, is the record's wire code. */
  predicate CodeShows(codes: seq<Byte>, i: nat, br: BatchRecord) {
    4 * i + 4 <= |codes| && ToSigned(WordAt(codes, 4 * i), 4) == WireCode(br)
  }

  predicate ZeroAt(data: seq<Byte>, start: nat, n: nat) {
    start + n <= |data| && forall k: nat :: start <= k < start + n ==> data[k] == 0
  }

  /** The three arrays, record by record; what a row with data holds is its data row. */
  ghost predicate ArraysShow(results: seq<BatchRecord>, stride: nat, data: seq<Byte>, meta: seq<Byte>,
                             codes: seq<Byte>)
  {
    && |meta| == |results| * 8 && (forall i: nat :: i < |results| ==> MetaShows(meta, i, results[i]))
    && |codes| == |results| * 4 && (forall i: nat :: i < |results| ==> CodeShows(codes, i, results[i]))
    && ZeroRows(results, stride, data)
  }

  /** The data rows of the records that were not delivered are zero. */
  ghost predicate ZeroRows(results: seq<BatchRecord>, stride: nat, data: seq<Byte>) {
    && |data| == |results| * stride
    && forall i: nat :: i < |results| && !Delivered(results[i]) ==> ZeroAt(data, i * stride, stride)
  }

  lemma MetaRowShows(br: BatchRecord)
    ensures WordAt(MetaRow(br), 0) == if Delivered(br) then br.record.value.gen else 0
    ensures WordAt(MetaRow(br), 4) == if Delivered(br) then br.record.value.ttl else 0
  {
    PowersOf256();
    if Delivered(br) {
      UnsignedRoundTrip(br.record.value.gen, 4);
      UnsignedRoundTrip(br.record.value.ttl, 4);
      Halves(LittleEndian(br.record.value.gen, 4), LittleEndian(br.record.value.ttl, 4));
    } else {
      ZerosValue(4);
      ZerosSlice(8, 0, 4);
      ZerosSlice(8, 4, 4);
      assert MetaRow(br) == Zeros(8);
    }
  }

  lemma Halves(front: seq<Byte>, back: seq<Byte>)
    requires |front| == |back| == 4
    ensures (front + back)[0..4] == front && (front + back)[4..8] == back
  {
  }

  lemma WordWithin(buf: seq<Byte>, start: nat, at: nat)
    requires start + 8 <= |buf| && at <= 4
    ensures WordAt(buf, start + at) == WordAt(buf[start..start + 8], at)
  {
    var whole, part := buf[start + at..start + at + 4], buf[start..start + 8][at..at + 4];
    forall k | 0 <= k < 4
      ensures whole[k] == part[k]
    {
      assert part[k] == buf[start..start + 8][at + k] == buf[start + at + k];
    }
    assert whole == part;
  }

  lemma ZerosSlice(n: nat, at: nat, m: nat)
    requires at + m <= n
    ensures Zeros(n)[at..at + m] == Zeros(m)
  {
  }

  lemma {:induction false} ZerosValue(n: nat)
    ensures FromLittleEndian(Zeros(n)) == 0
  {
    if n > 0 {
      assert Zeros(n)[1..] == Zeros(n - 1);
      ZerosValue(n - 1);
    }
  }

  lemma MetaArrayShows(results: seq<BatchRecord>, i: nat)
    requires i < |results|
    ensures |Join(MetaRows(results))| == |results| * 8 && MetaShows(Join(MetaRows(results)), i, results[i])
  {
    var rows := MetaRows(results);
    var meta := Join(rows);
    JoinRow(rows, 8, i);
    MetaRowShows(results[i]);
    WordWithin(meta, 8 * i, 0);
    WordWithin(meta, 8 * i, 4);
  }

  lemma CodeArrayShows(results: seq<BatchRecord>, i: nat)
    requires i < |results|
    ensures |Join(CodeRows(results))| == |results| * 4 && CodeShows(Join(CodeRows(results)), i, results[i])
  {
    var rows := CodeRows(results);
    JoinRow(rows, 4, i);
    PowersOf256();
    SignedRoundTrip(WireCode(results[i]), 4);
    assert Join(rows)[4 * i..4 * i + 4] == rows[i];
  }

  lemma ZeroRowShows(rows: seq<seq<Byte>>, stride: nat, i: nat)
    requires i < |rows| && rows[i] == Zeros(stride) && forall k :: 0 <= k < |rows| ==> |rows[k]| == stride
    ensures ZeroAt(Join(rows), i * stride, stride)
  {
    JoinRow(rows, stride, i);
    var start := i * stride;
    forall k: nat | start <= k < start + stride
      ensures Join(rows)[k] == 0
    {
      assert Join(rows)[start..start + stride][k - start] == 0;
    }
  }

  lemma DataArrayZeroRows(ieee: Ieee, fields: seq<FieldInfo>, stride: nat, results: seq<BatchRecord>)
    requires StaysInRow(fields, stride) && AllRowsEncode(ieee, fields, stride, results)
    ensures ZeroRows(results, stride, Join(DataRows(ieee, fields, stride, results)))
  {
    var rows := DataRows(ieee, fields, stride, results);
    JoinLength(rows, stride);
    forall i: nat | i < |results| && !Delivered(results[i])
      ensures ZeroAt(Join(rows), i * stride, stride)
    {
      assert rows[i] == DataRow(ieee, fields, stride, results[i]).value;
      ZeroRowShows(rows, stride, i);
    }
  }

  /** The rows of a batch laid end to end show each record's generation, time to live and code. */
  lemma JoinedRowsShow(ieee: Ieee, fields: seq<FieldInfo>, stride: nat, results: seq<BatchRecord>)
    requires StaysInRow(fields, stride) && AllRowsEncode(ieee, fields, stride, results)
    ensures ArraysShow(results, stride, Join(DataRows(ieee, fields, stride, results)), Join(MetaRows(results)),
                       Join(CodeRows(results)))
  {
    var meta, codes := Join(MetaRows(results)), Join(CodeRows(results));
    DataArrayZeroRows(ieee, fields, stride, results);
    JoinLength(MetaRows(results), 8);
    JoinLength(CodeRows(results), 4);
    forall i: nat | i < |results|
      ensures MetaShows(meta, i, results[i]) && CodeShows(codes, i, results[i])
    {
      MetaArrayShows(results, i);
      CodeArrayShows(results, i);
    }
  }

  /** The two words of a meta row. */
  method WriteMeta(meta: array<Byte>, start: nat, gen: UInt32, ttl: UInt32)
    requires start + 8 <= meta.Length
    modifies meta
    ensures meta[..] == Splice(old(meta[..]), start, LittleEndian(gen, 4) + LittleEndian(ttl, 4))
  {
    WriteUnaligned(meta, start, LittleEndian(gen, 4));
    WriteUnaligned(meta, start + 4, LittleEndian(ttl, 4));
  }

  method WriteCode(codes: array<Byte>, start: nat, br: BatchRecord) returns (code: Int32)
    requires start + 4 <= codes.Length
    modifies codes
    ensures codes[..] == Splice(old(codes[..]), start, CodeRow(br)) && code == WireCode(br)
  {
    code := WireCode(br);
    PowersOf256();
    WriteUnaligned(codes, start, LittleEndian(ToUnsigned(code, 4), 4));
  }

  /** The part of one iteration that follows the result code: meta and data of record `i`. */
  method FillRecord(ieee: Ieee, fields: seq<FieldInfo>, stride: nat, br: BatchRecord, ghost n: nat,
                    data: array<Byte>, meta: array<Byte>, ghost dataRows: seq<seq<Byte>>,
                      ghost metaRows: seq<seq<Byte>>, i: nat)
    returns (r: Result<(), FieldError>)
    requires StaysInRow(fields, stride) && data != meta && i < n
    requires FilledUpTo(data[..], dataRows, n, stride) && |dataRows| == i
    requires FilledUpTo(meta[..], metaRows, n, 8) && |metaRows| == i
    modifies data, meta
    ensures match DataRow(ieee, fields, stride, br)
            case Success(row) =>
              r.Success? && FilledUpTo(data[..], dataRows + [row], n, stride)
              && FilledUpTo(meta[..], metaRows + [MetaRow(br)], n, 8)
            case Failure(e) => r == Failure(e)
  {
    RowBounds(i, n, stride);
    if WireCode(br) != 0 || br.record.None? {
      ExtendByZeroRow(data[..], dataRows, n, stride);
      ExtendByZeroRow(meta[..], metaRows, n, 8);
      return Success(());
    }
    var record := br.record.value;
    ghost var oldMeta, oldData := meta[..], data[..];
    WriteMeta(meta, i * 8, record.gen, record.ttl);
    ExtendBySplice(oldMeta, metaRows, MetaRow(br), n, 8);
    NextRowIsZero(oldData, dataRows, n, stride);
    var start := i * stride;
    assert data[..] == oldData && data[start..start + stride] == oldData[start..start + stride];
    r := FillRowInPlace(ieee, fields, data, start, stride, record.bins);
    if r.Success? {
      assert data[..start] == data[..][..start] && data[start + stride..] == data[..][start + stride..];
      assert data[start..start + stride] == data[..][start..start + stride];
      ExtendFilled(oldData, data[..], dataRows, DataRow(ieee, fields, stride, br).value, n, stride);
    }
  }

  /** The three buffers after the first `i` records. */
  ghost predicate BatchFilled(ieee: Ieee, fields: seq<FieldInfo>, stride: nat, results: seq<BatchRecord>, i: nat,
                              data: seq<Byte>, meta: seq<Byte>, codes: seq<Byte>)
    requires StaysInRow(fields, stride) && i <= |results|
  {
    && AllRowsEncode(ieee, fields, stride, results[..i])
    && FilledUpTo(data, DataRows(ieee, fields, stride, results[..i]), |results|, stride)
    && FilledUpTo(meta, MetaRows(results[..i]), |results|, 8)
    && FilledUpTo(codes, CodeRows(results[..i]), |results|, 4)
  }

  lemma RowsSnoc(ieee: Ieee, fields: seq<FieldInfo>, stride: nat, results: seq<BatchRecord>, i: nat)
    requires StaysInRow(fields, stride) && i < |results| && AllRowsEncode(ieee, fields, stride, results[..i])
    ensures MetaRows(results[..i + 1]) == MetaRows(results[..i]) + [MetaRow(results[i])]
    ensures CodeRows(results[..i + 1]) == CodeRows(results[..i]) + [CodeRow(results[i])]
    ensures DataRow(ieee, fields, stride, results[i]).Success?
      ==> && AllRowsEncode(ieee, fields, stride, results[..i + 1])
          && DataRows(ieee, fields, stride, results[..i + 1])
             == DataRows(ieee, fields, stride, results[..i]) + [DataRow(ieee, fields, stride, results[i]).value]
  {
    assert forall k :: 0 <= k < i ==> results[..i + 1][k] == results[..i][k];
    assert results[..i + 1][i] == results[i];
  }

  /** `e` is the error of the first row that does not encode. */
  ghost predicate FirstFailure(ieee: Ieee, fields: seq<FieldInfo>, stride: nat, results: seq<BatchRecord>,
                               e: FieldError)
    requires StaysInRow(fields, stride)
  {
    exists i: nat :: i < |results| && AllRowsEncode(ieee, fields, stride, results[..i])
                     && DataRow(ieee, fields, stride, results[i]) == Failure(e)
  }

  /** One iteration of the fill loop. */
  method FillNext(ieee: Ieee, fields: seq<FieldInfo>, stride: nat, results: seq<BatchRecord>, i: nat,
                  data: array<Byte>, meta: array<Byte>, codes: array<Byte>)
    returns (r: Result<(), FieldError>)
    requires StaysInRow(fields, stride) && i < |results|
    requires data != meta && data != codes && meta != codes
    requires BatchFilled(ieee, fields, stride, results, i, data[..], meta[..], codes[..])
    modifies data, meta, codes
    ensures r.Success? <==> DataRow(ieee, fields, stride, results[i]).Success?
    ensures r.Success? ==> BatchFilled(ieee, fields, stride, results, i + 1, data[..], meta[..], codes[..])
    ensures r.Failure? ==> DataRow(ieee, fields, stride, results[i]) == Failure(r.error)
  {
    ghost var n, oldCodes := |results|, codes[..];
    RowBounds(i, n, 4);
    RowsSnoc(ieee, fields, stride, results, i);
    var _ := WriteCode(codes, i * 4, results[i]);
    ExtendBySplice(oldCodes, CodeRows(results[..i]), CodeRow(results[i]), n, 4);
    r := FillRecord(ieee, fields, stride, results[i], n, data, meta,
                    DataRows(ieee, fields, stride, results[..i]), MetaRows(results[..i]), i);
  }

  /**
   The fill loop. It ends well exactly when every row with a body encodes, and then each buffer
   is the rows of the batch laid end to end.
   */
  method FillBuffers(ieee: Ieee, fields: seq<FieldInfo>, stride: nat, results: seq<BatchRecord>,
                     data: array<Byte>, meta: array<Byte>, codes: array<Byte>)
    returns (r: Result<(), FieldError>)
    requires StaysInRow(fields, stride)
    requires data != meta && data != codes && meta != codes
    requires data[..] == Zeros(|results| * stride)
    requires meta[..] == Zeros(|results| * 8) && codes[..] == Zeros(|results| * 4)
    modifies data, meta, codes
    ensures r.Success? <==> AllRowsEncode(ieee, fields, stride, results)
    ensures r.Success? ==> data[..] == Join(DataRows(ieee, fields, stride, results))
    ensures r.Success? ==> meta[..] == Join(MetaRows(results)) && codes[..] == Join(CodeRows(results))
    ensures r.Success? ==> ArraysShow(results, stride, data[..], meta[..], codes[..])
    ensures r.Failure? ==> FirstFailure(ieee, fields, stride, results, r.error)
  {
    var n := |results|;
    for i := 0 to n
      invariant BatchFilled(ieee, fields, stride, results, i, data[..], meta[..], codes[..])
    {
      var filled := FillNext(ieee, fields, stride, results, i, data, meta, codes);
      if filled.Failure? {
        return Failure(filled.error);
      }
    }
    assert results[..n] == results;
    AllFilled(data[..], DataRows(ieee, fields, stride, results), n, stride);
    AllFilled(meta[..], MetaRows(results), n, 8);
    AllFilled(codes[..], CodeRows(results), n, 4);
    JoinedRowsShow(ieee, fields, stride, results);
    r := Success(());
  }
}
