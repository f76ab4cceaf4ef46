/** What a successful read of a NumPy array says about its records, and which arrays and keys it refuses. */
module NumpyReading {
  import opened Wrappers
  import opened BatchResults
  import opened ByteCodec
  import opened NumpyFields
  import opened NumpyRecords
  import opened NumpyRoundTrip

  // ---- Bins -----------------------------------------------------------------------------

  /**
   The fields at positions `at` are, in dtype order and once each, those whose names neither equal the key
   field's nor begin with an underscore.
   */
  ghost predicate SelectsBins(fields: seq<FieldInfo>, keyField: string, at: seq<nat>) {
    && (forall k: nat :: k < |at| ==> at[k] < |fields|)
    && (forall a: nat, b: nat :: a < b < |at| ==> at[a] < at[b])
    && (forall p: nat :: p < |fields| ==>
          (p in at <==> fields[p].name != keyField && (fields[p].name == "" || fields[p].name[0] != '_')))
  }

  lemma {:induction false} BinPositions(fields: seq<FieldInfo>, keyField: string) returns (at: seq<nat>)
    ensures SelectsBins(fields, keyField, at) && |at| == |BinFields(fields, keyField)|
    ensures forall k: nat :: k < |at| ==> fields[at[k]] == BinFields(fields, keyField)[k]
  {
    at := [];
    if fields != [] {
      var n: nat := |fields| - 1;
      var front := BinPositions(fields[..n], keyField);
      at := front + if IsBinField(fields[n], keyField) then [n] else [];
      SelectsSnoc(fields, keyField, front);
      assert forall k: nat :: k < |front| ==> fields[front[k]] == fields[..n][front[k]];
    }
  }

  lemma SelectsSnoc(fields: seq<FieldInfo>, keyField: string, front: seq<nat>)
    requires fields != [] && SelectsBins(fields[..|fields| - 1], keyField, front)
    ensures var n: nat := |fields| - 1;
            SelectsBins(fields, keyField, front + if IsBinField(fields[n], keyField) then [n] else [])
  {
    var n: nat := |fields| - 1;
    var at := front + if IsBinField(fields[n], keyField) then [n] else [];
    assert n !in front;
    forall p: nat | p < |fields|
      ensures p in at <==> fields[p].name != keyField && (fields[p].name == "" || fields[p].name[0] != '_')
    {
      if p < n {
        assert fields[..n][p] == fields[p];
        assert p in front <==> p in at;
      }
    }
  }

  /** At most one list of positions selects the bins. */
  lemma SelectionUnique(fields: seq<FieldInfo>, keyField: string, a: seq<nat>, b: seq<nat>)
    requires SelectsBins(fields, keyField, a) && SelectsBins(fields, keyField, b)
    ensures a == b
  {
    forall x: nat
      ensures x in a <==> x in b
    {
    }
    IncreasingUnique(a, b);
  }

  lemma {:induction false} IncreasingUnique(a: seq<nat>, b: seq<nat>)
    requires forall i: nat, j: nat :: i < j < |a| ==> a[i] < a[j]
    requires forall i: nat, j: nat :: i < j < |b| ==> b[i] < b[j]
    requires forall x: nat :: x in a <==> x in b
    ensures a == b
  {
    if a == [] {
      NoMembers(b, a);
    } else if b == [] {
      NoMembers(a, b);
    } else {
      assert a[0] in b && b[0] in a;
      forall x: nat
        ensures x in a[1..] <==> x in b[1..]
      {
        assert x in a <==> x in b;
      }
      IncreasingUnique(a[1..], b[1..]);
      assert a == [a[0]] + a[1..] && b == [b[0]] + b[1..];
    }
  }

  lemma NoMembers(a: seq<nat>, b: seq<nat>)
    requires b == [] && forall x: nat :: x in a <==> x in b
    ensures a == []
  {
    if a != [] {
      FirstIsMember(a);
    }
  }

  lemma FirstIsMember(a: seq<nat>)
    requires a != []
    ensures a[0] in a
  {
  }

  /** This field of the row holds this value. */
  ghost predicate Reads(ieee: Ieee, row: seq<Byte>, f: FieldInfo, v: Value) {
    EndOf(f) <= |row| && ReadValue(ieee, row, f) == Success(v)
  }

  ghost predicate BinsFrom(ieee: Ieee, cfg: ReadConfig, row: seq<Byte>, at: seq<nat>, bins: seq<(string, Value)>) {
    SelectsBins(cfg.fields, cfg.keyField, at) && |bins| == |at|
    && forall k: nat :: k < |at| ==>
         bins[k].0 == cfg.fields[at[k]].name && Reads(ieee, row, cfg.fields[at[k]], bins[k].1)
  }

  /** One bin for each selected field, with its name and what the row holds there. */
  ghost predicate BinsOfRow(ieee: Ieee, cfg: ReadConfig, row: seq<Byte>, bins: seq<(string, Value)>) {
    exists at: seq<nat> :: BinsFrom(ieee, cfg, row, at, bins)
  }

  lemma {:induction false} ReadBinsMeans(ieee: Ieee, row: seq<Byte>, fields: seq<FieldInfo>)
    requires FieldsReadable(fields, |row|) && ReadBins(ieee, row, fields).Success?
    ensures var bins := ReadBins(ieee, row, fields).value;
            |bins| == |fields| && forall k: nat :: k < |fields| ==>
              bins[k].0 == fields[k].name && Reads(ieee, row, fields[k], bins[k].1)
  {
    if fields != [] {
      var n := |fields| - 1;
      ReadBinsMeans(ieee, row, fields[..n]);
      assert forall k: nat :: k < n ==> fields[..n][k] == fields[k];
    }
  }

  // ---- Records --------------------------------------------------------------------------

  predicate IsFirstNamed(fields: seq<FieldInfo>, name: string, k: nat) {
    k < |fields| && fields[k].name == name && forall j: nat :: j < k ==> fields[j].name != name
  }

  lemma {:induction false} FindsFirst(fields: seq<FieldInfo>, name: string) returns (k: nat)
    requires FindField(fields, name).Some?
    ensures IsFirstNamed(fields, name, k) && FindField(fields, name) == Some(fields[k])
  {
    if fields[0].name == name {
      k := 0;
    } else {
      var rest := FindsFirst(fields[1..], name);
      k := rest + 1;
      forall j: nat | j < k
        ensures fields[j].name != name
      {
        assert j > 0 ==> fields[1..][j - 1] == fields[j];
      }
    }
  }

  /** A namespace or set: the text of the first field of that name; the default without one or when it is no bytes. */
  ghost predicate NameOfRow(ieee: Ieee, cfg: ReadConfig, row: seq<Byte>, name: string, default: string, out: string) {
    if forall k: nat :: k < |cfg.fields| ==> cfg.fields[k].name != name then out == default
    else exists k: nat, v: Value ::
      IsFirstNamed(cfg.fields, name, k) && Reads(ieee, row, cfg.fields[k], v)
      && out == if v.Blob? then cfg.decodeLossy(TrimNul(v.bytes)) else default
  }

  /** A key: bytes lose their trailing NULs and are always accepted, other values only when `keyOk` says so. */
  ghost predicate KeyOfRow(ieee: Ieee, cfg: ReadConfig, row: seq<Byte>, keyField: FieldInfo, key: Value) {
    exists v: Value ::
      && Reads(ieee, row, keyField, v)
      && (if v.Blob? then key == Blob(TrimNul(v.bytes)) else key == v && cfg.keyOk(v))
  }

  ghost predicate IsRecordOf(ieee: Ieee, cfg: ReadConfig, keyField: FieldInfo, row: seq<Byte>, w: WriteRecord) {
    && KeyOfRow(ieee, cfg, row, keyField, w.userKey)
    && NameOfRow(ieee, cfg, row, "_namespace", cfg.defaultNamespace, w.namespace)
    && NameOfRow(ieee, cfg, row, "_set", cfg.defaultSet, w.set_)
    && BinsOfRow(ieee, cfg, row, w.bins)
  }

  lemma NameMeans(ieee: Ieee, cfg: ReadConfig, row: seq<Byte>, name: string, default: string)
    requires forall f :: f in cfg.fields && f.name == name ==> EndOf(f) <= |row|
    requires ReadName(ieee, cfg, row, name, default).Success?
    ensures NameOfRow(ieee, cfg, row, name, default, ReadName(ieee, cfg, row, name, default).value)
  {
    if FindField(cfg.fields, name).Some? {
      var k := FindsFirst(cfg.fields, name);
      var v := ReadValue(ieee, row, cfg.fields[k]).value;
      assert IsFirstNamed(cfg.fields, name, k) && Reads(ieee, row, cfg.fields[k], v);
    }
  }

  lemma BinsMean(ieee: Ieee, cfg: ReadConfig, row: seq<Byte>)
    requires FieldsReadable(BinFields(cfg.fields, cfg.keyField), |row|)
    requires ReadBins(ieee, row, BinFields(cfg.fields, cfg.keyField)).Success?
    ensures BinsOfRow(ieee, cfg, row, ReadBins(ieee, row, BinFields(cfg.fields, cfg.keyField)).value)
  {
    var at := BinPositions(cfg.fields, cfg.keyField);
    ReadBinsMeans(ieee, row, BinFields(cfg.fields, cfg.keyField));
    assert BinsFrom(ieee, cfg, row, at, ReadBins(ieee, row, BinFields(cfg.fields, cfg.keyField)).value);
  }

  lemma RecordMeans(ieee: Ieee, cfg: ReadConfig, keyField: FieldInfo, row: seq<Byte>)
    requires RowReadable(cfg, keyField, |row|) && keyField in cfg.fields
    requires ReadRecord(ieee, cfg, keyField, row).Success?
    ensures IsRecordOf(ieee, cfg, keyField, row, ReadRecord(ieee, cfg, keyField, row).value)
  {
    NameMeans(ieee, cfg, row, "_namespace", cfg.defaultNamespace);
    NameMeans(ieee, cfg, row, "_set", cfg.defaultSet);
    BinsMean(ieee, cfg, row);
    assert Reads(ieee, row, keyField, ReadValue(ieee, row, keyField).value);
  }

  /** The bytes of row `i`, at its own address. */
  function RowBytes(view: View, stride: int, i: nat, reach: nat): seq<Byte> {
    Bytes(view.memory, view.base + i * stride, reach)
  }

  lemma RawRowIs(view: View, stride: int, i: nat, reach: nat)
    requires CheckedRowOffset(i, stride).Success?
    ensures RawRow(view, stride, i, reach) == Success(RowBytes(view, stride, i, reach))
  {
  }

  lemma ReadRowMeans(ieee: Ieee, cfg: ReadConfig, keyField: FieldInfo, row: Result<seq<Byte>, ReadError>,
                     w: WriteRecord)
    requires keyField in cfg.fields && (row.Success? ==> RowReadable(cfg, keyField, |row.value|))
    requires ReadRow(ieee, cfg, keyField, row) == Success(w)
    ensures row.Success? && IsRecordOf(ieee, cfg, keyField, row.value, w)
  {
    RecordMeans(ieee, cfg, keyField, row.value);
  }

  /** Each record is that of the row at its place. */
  ghost predicate RecordsAreRows(ieee: Ieee, cfg: ReadConfig, keyField: FieldInfo, view: View, stride: int, reach: nat,
                                 records: seq<WriteRecord>)
  {
    forall i: nat :: i < |records| ==>
      IsRecordOf(ieee, cfg, keyField, RowBytes(view, stride, i, reach), records[i])
  }

  lemma RowsMean(ieee: Ieee, cfg: ReadConfig, keyField: FieldInfo, view: View, stride: int, n: nat, reach: nat,
                 records: seq<WriteRecord>)
    requires RowReadable(cfg, keyField, reach) && keyField in cfg.fields
    requires ReadRows(ieee, cfg, keyField, RowsOf(view, stride, n, reach), reach) == Success(records)
    ensures |records| == n && RecordsAreRows(ieee, cfg, keyField, view, stride, reach, records)
  {
    ReadRowsPointwise(ieee, cfg, keyField, RowsOf(view, stride, n, reach), reach);
    forall i: nat | i < n
      ensures IsRecordOf(ieee, cfg, keyField, RowBytes(view, stride, i, reach), records[i])
    {
      RowOfRecord(ieee, cfg, keyField, view, stride, n, reach, i);
      RawRowIs(view, stride, i, reach);
      ReadRowMeans(ieee, cfg, keyField, RawRow(view, stride, i, reach), records[i]);
    }
  }

  /**
   What a read that ends well has read: one record for each row, from the bytes at that row's own address,
   with the key, namespace, set and bins that those bytes hold.
   */
  lemma RecordsMean(ieee: Ieee, cfg: ReadConfig, view: View, rowSize: nat) returns (stride: int, key: nat)
    requires RecordsRead(ieee, cfg, view, rowSize).Success?
    ensures |view.shape| == 1 && IsFirstNamed(cfg.fields, cfg.keyField, key)
    ensures view.strides == None ==> stride == rowSize
    ensures view.strides.Some? ==> view.strides.value == [stride]
    ensures |RecordsRead(ieee, cfg, view, rowSize).value| == view.shape[0]
    ensures RecordsAreRows(ieee, cfg, cfg.fields[key], view, stride, Reach(cfg, cfg.fields[key]),
                           RecordsRead(ieee, cfg, view, rowSize).value)
  {
    var prepared := PrepareRead(cfg, view, rowSize).value;
    stride := prepared.0;
    PreparedStride(cfg, view, rowSize);
    key := FindsFirst(cfg.fields, cfg.keyField);
    PreparedReads(ieee, cfg, view, rowSize, stride, cfg.fields[key]);
    RowsMean(ieee, cfg, cfg.fields[key], view, stride, view.shape[0], Reach(cfg, cfg.fields[key]),
             RecordsRead(ieee, cfg, view, rowSize).value);
  }

  lemma PreparedStride(cfg: ReadConfig, view: View, rowSize: nat)
    requires PrepareRead(cfg, view, rowSize).Success?
    ensures var (stride, keyField) := PrepareRead(cfg, view, rowSize).value;
            && FindField(cfg.fields, cfg.keyField) == Some(keyField)
            && (view.strides == None ==> stride == rowSize)
            && (view.strides.Some? ==> view.strides.value == [stride])
  {
  }

  lemma PreparedReads(ieee: Ieee, cfg: ReadConfig, view: View, rowSize: nat, stride: int, keyField: FieldInfo)
    requires PrepareRead(cfg, view, rowSize) == Success((stride, keyField))
    ensures RecordsRead(ieee, cfg, view, rowSize)
      == ReadRows(ieee, cfg, keyField, RowsOf(view, stride, view.shape[0], Reach(cfg, keyField)), Reach(cfg, keyField))
  {
  }

  // ---- Refusals -------------------------------------------------------------------------

  /** A key that is not bytes and that `keyOk` rejects fails the read, unless a field of key or names failed before. */
  lemma InvalidKeyIff(ieee: Ieee, cfg: ReadConfig, keyField: FieldInfo, row: seq<Byte>)
    requires RowReadable(cfg, keyField, |row|) && keyField in cfg.fields
    ensures ReadRecord(ieee, cfg, keyField, row) == Failure(InvalidKey)
      <==> && ReadValue(ieee, row, keyField).Success?
           && !ReadValue(ieee, row, keyField).value.Blob? && !cfg.keyOk(ReadValue(ieee, row, keyField).value)
           && ReadName(ieee, cfg, row, "_namespace", cfg.defaultNamespace).Success?
           && ReadName(ieee, cfg, row, "_set", cfg.defaultSet).Success?
  {
  }

  /** Two rows of a view share no byte. */
  predicate RowsApart(stride: int, rowSize: nat, i: nat, j: nat) {
    i * stride + rowSize <= j * stride || j * stride + rowSize <= i * stride
  }

  lemma DistinctRowsApart(stride: int, rowSize: nat, i: nat, j: nat)
    requires i < j && (stride >= rowSize || -stride >= rowSize)
    ensures RowsApart(stride, rowSize, i, j)
  {
    if stride >= rowSize {
      RowBounds(i, j, stride);
    } else {
      RowBounds(i, j, -stride);
      assert i * -stride == -(i * stride) && j * -stride == -(j * stride);
    }
  }

  /**
   Which strides are accepted: that of a broadcast row, or one under which no two rows share a byte, except
   the least `isize`, which has no absolute value.
   */
  lemma StrideAcceptedIff(view: View, rowSize: nat, stride: int)
    requires |view.shape| == 1 && InIsize(rowSize) && view.strides == Some([stride])
    ensures RowStride(view, rowSize) == Success(stride)
      <==> stride == 0 || (stride != ISIZE_MIN && forall i: nat, j: nat :: i < j ==> RowsApart(stride, rowSize, i, j))
  {
    if stride >= rowSize || -stride >= rowSize {
      forall i: nat, j: nat | i < j
        ensures RowsApart(stride, rowSize, i, j)
      {
        DistinctRowsApart(stride, rowSize, i, j);
      }
    } else {
      assert !RowsApart(stride, rowSize, 0, 1);
    }
  }

  /** What the checks before the row loop refuse, each with its own error. */
  lemma PreparedIff(cfg: ReadConfig, view: View, rowSize: nat)
    requires |view.shape| == 1 && InIsize(rowSize) && view.strides == None
    ensures var p := PrepareRead(cfg, view, rowSize);
            && (p == Failure(SizeOverflow) <==> view.shape[0] * rowSize >= UINT64_LIMIT)
            && (p == Failure(NoKeyField) <==>
                  && view.shape[0] * rowSize < UINT64_LIMIT
                  && forall k: nat :: k < |cfg.fields| ==> cfg.fields[k].name != cfg.keyField)
            && (p.Success? <==>
                  && view.shape[0] * rowSize < UINT64_LIMIT
                  && exists k: nat :: k < |cfg.fields| && cfg.fields[k].name == cfg.keyField)
            && (p.Success? ==> p.value.0 == rowSize)
  {
    if FindField(cfg.fields, cfg.keyField).Some? {
      var k := FindsFirst(cfg.fields, cfg.keyField);
    }
  }

  // ---- An instance ----------------------------------------------------------------------

  predicate ReservedAndScore(cfg: ReadConfig) {
    cfg.keyField == "_key" && |cfg.fields| == 4
    && cfg.fields[0].name == "_key" && cfg.fields[1].name == "_namespace"
    && cfg.fields[2].name == "_set" && cfg.fields[3].name == "score"
  }

  lemma ScoreIsSelected(cfg: ReadConfig)
    requires ReservedAndScore(cfg)
    ensures SelectsBins(cfg.fields, "_key", [3])
  {
    assert "_namespace"[0] == '_' && "_set"[0] == '_' && "score"[0] == 's' && "_key"[0] == '_';
    forall p: nat | p < 4
      ensures p in [3 as nat]
        <==> cfg.fields[p].name != "_key" && (cfg.fields[p].name == "" || cfg.fields[p].name[0] != '_')
    {
      if p == 0 {
      } else if p == 1 {
      } else if p == 2 {
      } else {
        assert p == 3;
      }
    }
  }

  /** Columns `_key`, `_namespace`, `_set` and `score`: only the last becomes a bin. */
  lemma ReservedColumnsAreNoBins(ieee: Ieee, cfg: ReadConfig, row: seq<Byte>, bins: seq<(string, Value)>)
    requires ReservedAndScore(cfg) && BinsOfRow(ieee, cfg, row, bins)
    ensures |bins| == 1 && bins[0].0 == "score" && Reads(ieee, row, cfg.fields[3], bins[0].1)
  {
    ScoreIsSelected(cfg);
    OnlySelected(ieee, cfg, row, bins, 3);
  }

  lemma OnlySelected(ieee: Ieee, cfg: ReadConfig, row: seq<Byte>, bins: seq<(string, Value)>, p: nat)
    requires SelectsBins(cfg.fields, cfg.keyField, [p]) && BinsOfRow(ieee, cfg, row, bins)
    ensures p < |cfg.fields| && |bins| == 1
    ensures bins[0].0 == cfg.fields[p].name && Reads(ieee, row, cfg.fields[p], bins[0].1)
  {
    var one := [p];
    var first: nat := 0;
    assert one[first] < |cfg.fields|;
    var at: seq<nat> :| BinsFrom(ieee, cfg, row, at, bins);
    SelectionUnique(cfg.fields, cfg.keyField, at, one);
    assert at[first] == p;
  }
}
