/**
 Whether `numpy_to_records` stays within the array that it was given. The dtype argument comes
 separately from the array, and nothing compares the two.
 */
module NumpyBounds {
  import opened Wrappers
  import opened BatchResults
  import opened ByteCodec
  import opened NumpyFields
  import opened NumpyFill
  import opened NumpyRows
  import opened NumpyRecords
  import opened NumpyRoundTrip

  /** An array: how its interface describes it, the size of its own items, and the addresses `lo .. hi` that it owns. */
  datatype NumpyArray = NumpyArray(view: View, itemSize: nat, lo: int, hi: int)

  /** The distance between an array's own items. */
  function ItemStride(a: NumpyArray): int
    requires a.view.strides.Some? ==> |a.view.strides.value| == 1
  {
    match a.view.strides case None => a.itemSize case Some(strides) => strides[0]
  }

  /** What NumPy guarantees: a one-dimensional array owns all bytes of its own items. */
  predicate OwnsItems(a: NumpyArray) {
    && |a.view.shape| == 1 && (a.view.strides.Some? ==> |a.view.strides.value| == 1)
    && forall i: nat :: i < a.view.shape[0] ==> OwnsItem(a, i)
  }

  predicate OwnsItem(a: NumpyArray, i: nat)
    requires a.view.strides.Some? ==> |a.view.strides.value| == 1
  {
    var at := a.view.base + i * ItemStride(a);
    a.lo <= at && at + a.itemSize <= a.hi
  }

  /** The first `reach` bytes of row `i` belong to the array; a row whose offset overflows is never read. */
  predicate RowInBounds(a: NumpyArray, stride: int, i: nat, reach: nat) {
    var offset := CheckedRowOffset(i, stride);
    offset.Success? && reach > 0 ==>
      a.lo <= a.view.base + offset.value && a.view.base + offset.value + reach <= a.hi
  }

  predicate InBounds(a: NumpyArray, stride: int, reach: nat)
    requires |a.view.shape| == 1
  {
    forall i: nat :: i < a.view.shape[0] ==> RowInBounds(a, stride, i, reach)
  }

  // ---- In bounds means: nothing but the array matters -----------------------------------

  /** The same bytes at the array's own addresses. */
  ghost predicate SameInside(a: NumpyArray, other: Memory) {
    forall p: int :: a.lo <= p < a.hi ==> a.view.memory(p) == other(p)
  }

  /** What is read depends on nothing outside the array. */
  ghost predicate ReadsOnlyArray(a: NumpyArray, stride: int, reach: nat)
    requires |a.view.shape| == 1
  {
    var n := a.view.shape[0];
    forall other: Memory :: SameInside(a, other)
      ==> RowsOf(a.view.(memory := other), stride, n, reach) == RowsOf(a.view, stride, n, reach)
  }

  function Flip(memory: Memory, at: int): Memory {
    (p: int) => if p == at then (memory(p) + 1) % 256 else memory(p)
  }

  /** A row that leaves the array has a byte outside it, and that byte is read. */
  lemma OutsideByteIsRead(a: NumpyArray, stride: int, i: nat, reach: nat)
    requires |a.view.shape| == 1 && i < a.view.shape[0] && !RowInBounds(a, stride, i, reach)
    ensures !ReadsOnlyArray(a, stride, reach)
  {
    var start := a.view.base + CheckedRowOffset(i, stride).value;
    var k: nat := if start < a.lo || a.lo >= a.hi then 0 else reach - 1;
    var at := start + k;
    assert !(a.lo <= at < a.hi);
    var other := Flip(a.view.memory, at);
    assert SameInside(a, other);
    var n := a.view.shape[0];
    var mine, theirs := RowsOf(a.view, stride, n, reach), RowsOf(a.view.(memory := other), stride, n, reach);
    assert mine[i].value[k] == a.view.memory(start + k) && theirs[i].value[k] == other(start + k);
    assert mine[i] != theirs[i];
  }

  lemma RowInsideIsSame(a: NumpyArray, stride: int, i: nat, reach: nat, other: Memory)
    requires RowInBounds(a, stride, i, reach) && SameInside(a, other)
    ensures RawRow(a.view.(memory := other), stride, i, reach) == RawRow(a.view, stride, i, reach)
  {
    var offset := CheckedRowOffset(i, stride);
    if offset.Success? {
      var start := a.view.base + offset.value;
      assert Bytes(other, start, reach) == Bytes(a.view.memory, start, reach);
    }
  }

  /** Every byte read belongs to the array exactly when what is read depends on the array alone. */
  lemma InBoundsIff(a: NumpyArray, stride: int, reach: nat)
    requires |a.view.shape| == 1
    ensures InBounds(a, stride, reach) <==> ReadsOnlyArray(a, stride, reach)
  {
    var n := a.view.shape[0];
    if InBounds(a, stride, reach) {
      forall other: Memory | SameInside(a, other)
        ensures RowsOf(a.view.(memory := other), stride, n, reach) == RowsOf(a.view, stride, n, reach)
      {
        forall i: nat | i < n
          ensures RawRow(a.view.(memory := other), stride, i, reach) == RawRow(a.view, stride, i, reach)
        {
          RowInsideIsSame(a, stride, i, reach, other);
        }
      }
    } else {
      var i: nat :| i < n && !RowInBounds(a, stride, i, reach);
      OutsideByteIsRead(a, stride, i, reach);
    }
  }

  // ---- A dtype no wider than the items is safe ------------------------------------------

  lemma PackedItemsCoverRows(a: NumpyArray, rowSize: nat, reach: nat, i: nat)
    requires OwnsItems(a) && a.view.strides.None? && reach <= rowSize <= a.itemSize && i < a.view.shape[0]
    ensures RowInBounds(a, rowSize, i, reach)
  {
    var n := a.view.shape[0];
    assert OwnsItem(a, 0) && OwnsItem(a, i);
    RowBounds(i, n, rowSize);
    Widen(i, rowSize, a.itemSize);
  }

  lemma Widen(i: nat, narrow: nat, wide: nat)
    requires narrow <= wide
    ensures 0 <= i * narrow <= i * wide
  {
    Distribute(i, 0, narrow);
    assert i * wide - i * narrow == i * (wide - narrow);
  }

  /**
   For every array as NumPy makes them, of either stride, a dtype argument no wider than the array's
   items keeps every byte read within the array.
   */
  lemma NarrowDtypeInBounds(a: NumpyArray, rowSize: nat, reach: nat)
    requires OwnsItems(a) && RowStride(a.view, rowSize).Success? && reach <= rowSize <= a.itemSize
    ensures InBounds(a, RowStride(a.view, rowSize).value, reach)
  {
    var stride := RowStride(a.view, rowSize).value;
    forall i: nat | i < a.view.shape[0]
      ensures RowInBounds(a, stride, i, reach)
    {
      if a.view.strides.None? {
        PackedItemsCoverRows(a, rowSize, reach, i);
      } else {
        assert OwnsItem(a, i);
      }
    }
  }

  // ---- Exactly when packed arrays and slices are read within bounds ---------------------

  /** A packed array that owns just its items. */
  function Packed(memory: Memory, lo: int, n: nat, itemSize: nat): NumpyArray {
    NumpyArray(PackedView(memory, lo, n), itemSize, lo, lo + n * itemSize)
  }

  /**
   A packed array's stride is not compared with anything. Its rows are read at the dtype's size, and
   all bytes read are its own exactly when the last row still ends within it.
   */
  lemma PackedInBoundsIff(memory: Memory, lo: int, n: nat, itemSize: nat, rowSize: nat, reach: nat)
    requires n > 0 && InIsize(n) && InIsize(n * rowSize) && InIsize(rowSize) && 0 < reach <= rowSize
    ensures RowStride(Packed(memory, lo, n, itemSize).view, rowSize) == Success(rowSize)
    ensures InBounds(Packed(memory, lo, n, itemSize), rowSize, reach) <==> (n - 1) * rowSize + reach <= n * itemSize
  {
    var a := Packed(memory, lo, n, itemSize);
    RowBounds(n - 1, n, rowSize);
    assert CheckedRowOffset(n - 1, rowSize) == Success((n - 1) * rowSize);
    if (n - 1) * rowSize + reach <= n * itemSize {
      forall i: nat | i < n
        ensures RowInBounds(a, rowSize, i, reach)
      {
        RowBounds(i, n, rowSize);
        Ordered(i, n - 1, rowSize);
      }
    } else {
      assert !RowInBounds(a, rowSize, n - 1, reach);
    }
  }

  lemma Ordered(i: nat, j: nat, k: nat)
    requires i <= j
    ensures 0 <= i * k <= j * k
  {
    Distribute(i, j - i, k);
  }

  /** In particular, when the fields fill the dtype, exactly when the dtype is no wider than the items. */
  lemma PackedWholeRowsIff(memory: Memory, lo: int, n: nat, itemSize: nat, rowSize: nat)
    requires n > 0 && InIsize(n) && InIsize(n * rowSize) && InIsize(rowSize) && 0 < rowSize
    ensures InBounds(Packed(memory, lo, n, itemSize), rowSize, rowSize) <==> rowSize <= itemSize
  {
    PackedInBoundsIff(memory, lo, n, itemSize, rowSize, rowSize);
    RowBounds(n - 1, n, rowSize);
    if rowSize <= itemSize {
      Widen(n, rowSize, itemSize);
    } else {
      Widen(n, itemSize, rowSize);
      Distribute(n - 1, 1, rowSize - itemSize);
      assert n * rowSize - n * itemSize == n * (rowSize - itemSize);
    }
  }

  /** A slice of an array of `count` items that owns just those. */
  function Sliced(memory: Memory, lo: int, count: nat, itemSize: nat, start: nat, step: int, n: nat): NumpyArray {
    NumpyArray(SliceView(memory, lo, itemSize, start, step, n), itemSize, lo, lo + count * itemSize)
  }

  /** The item of the slice at the highest address: the last one, or the first of a reversed slice. */
  function Highest(start: nat, step: int, n: nat): int
    requires n > 0
  {
    if step >= 0 then SliceIndex(start, step, n - 1) else SliceIndex(start, step, 0)
  }

  lemma HighestIsHighest(start: nat, step: int, n: nat, i: nat)
    requires i < n
    ensures SliceIndex(start, step, i) <= Highest(start, step, n)
  {
    if step >= 0 {
      Ordered(i, n - 1, step);
    } else {
      Ordered(0, i, -step);
      assert i * step == -(i * -step);
    }
  }

  /**
   A slice's rows are read at its own items, whatever the dtype's size. All bytes read belong to the
   array that it is a slice of exactly when its highest item leaves room for them.
   */
  lemma SliceInBoundsIff(memory: Memory, lo: int, count: nat, itemSize: nat, start: nat, step: int, n: nat, reach: nat)
    requires n > 0 && InIsize(n) && InIsize(count * itemSize) && itemSize > 0 && reach > 0
    requires SliceInRange(count, start, step, n)
    ensures InBounds(Sliced(memory, lo, count, itemSize, start, step, n), step * itemSize, reach)
      <==> Highest(start, step, n) * itemSize + reach <= count * itemSize
  {
    var a := Sliced(memory, lo, count, itemSize, start, step, n);
    var top: nat := if step >= 0 then n - 1 else 0;
    assert 0 <= SliceIndex(start, step, top) < count;
    SliceRowAddress(memory, lo, count, itemSize, start, step, n, top, reach);
    if Highest(start, step, n) * itemSize + reach <= count * itemSize {
      forall i: nat | i < n
        ensures RowInBounds(a, step * itemSize, i, reach)
      {
        assert 0 <= SliceIndex(start, step, i) < count;
        SliceRowAddress(memory, lo, count, itemSize, start, step, n, i, reach);
        HighestIsHighest(start, step, n, i);
        Ordered(SliceIndex(start, step, i), Highest(start, step, n), itemSize);
      }
    }
  }

  lemma SliceRowAddress(memory: Memory, lo: int, count: nat, itemSize: nat, start: nat, step: int, n: nat, i: nat,
                        reach: nat)
    requires i < n && InIsize(n) && InIsize(count * itemSize) && itemSize > 0 && reach > 0
    requires SliceInRange(count, start, step, n) && 0 <= SliceIndex(start, step, i) < count
    ensures RowInBounds(Sliced(memory, lo, count, itemSize, start, step, n), step * itemSize, i, reach)
      <==> SliceIndex(start, step, i) * itemSize + reach <= count * itemSize
  {
    IndexBound(i, n, start, step, count, itemSize);
    OffsetOfIndex(start, step, i, itemSize);
    Ordered(0, SliceIndex(start, step, i), itemSize);
  }

  /** Read at another size than its items', a packed array of several items is read from the wrong addresses. */
  lemma PackedAlignedIff(a: NumpyArray, rowSize: nat)
    requires OwnsItems(a) && a.view.strides.None? && a.view.shape[0] > 1
    ensures (forall i: nat :: i < a.view.shape[0] ==> i * rowSize == i * ItemStride(a)) <==> rowSize == a.itemSize
  {
    if forall i: nat :: i < a.view.shape[0] ==> i * rowSize == i * ItemStride(a) {
      var one: nat := 1;
      assert one * rowSize == one * ItemStride(a);
    }
  }

  // ---- From the dtype on ----------------------------------------------------------------

  datatype RecordsError = DtypeRefused(dtypeError: DtypeError) | ReadRefused(readError: ReadError)

  /**
   `numpy_to_records` from its dtype argument on. A caller who passes a dtype whose extents stay in
   its rows and that is no wider than the array's items is promised that only the array is read.
   */
  method NumpyToRecordsOfDtype(ieee: Ieee, entries: seq<DtypeEntry>, rowSize: nat, names: ReadConfig, a: NumpyArray)
    returns (r: Result<seq<WriteRecord>, RecordsError>)
    ensures r.Success? ==> AllPass(entries, rowSize)
    ensures AllPass(entries, rowSize) ==>
      var read := RecordsRead(ieee, names.(fields := FieldsOf(entries, rowSize)), a.view, rowSize);
      r == if read.Success? then Success(read.value) else Failure(ReadRefused(read.error))
    ensures !AllPass(entries, rowSize) ==>
      r.Failure? && r.error.DtypeRefused? && FirstDtypeError(entries, rowSize, r.error.dtypeError)
    ensures AllPass(entries, rowSize) && RowSafe(entries, rowSize) && OwnsItems(a) && rowSize <= a.itemSize
      ==> OnlyArrayMatters(ieee, names.(fields := FieldsOf(entries, rowSize)), a, rowSize)
  {
    var fields := ParseDtypeFields(entries, rowSize);
    if fields.Failure? {
      return Failure(DtypeRefused(fields.error));
    }
    var cfg := names.(fields := fields.value);
    if RowSafe(entries, rowSize) && OwnsItems(a) && rowSize <= a.itemSize {
      RowSafeFieldsStay(entries, rowSize);
      NarrowReadsOnlyArray(ieee, cfg, a, rowSize);
    }
    var records := NumpyToRecords(ieee, cfg, a.view, rowSize);
    match records {
      case Success(value) => r := Success(value);
      case Failure(e) => r := Failure(ReadRefused(e));
    }
  }

  /** The outcome is the same whatever memory holds outside the array. */
  ghost predicate OnlyArrayMatters(ieee: Ieee, cfg: ReadConfig, a: NumpyArray, rowSize: nat) {
    forall other: Memory :: SameInside(a, other)
      ==> RecordsRead(ieee, cfg, a.view.(memory := other), rowSize) == RecordsRead(ieee, cfg, a.view, rowSize)
  }

  lemma NarrowReadsOnlyArray(ieee: Ieee, cfg: ReadConfig, a: NumpyArray, rowSize: nat)
    requires StaysInRow(cfg.fields, rowSize) && OwnsItems(a) && rowSize <= a.itemSize
    ensures OnlyArrayMatters(ieee, cfg, a, rowSize)
  {
    var p := PrepareRead(cfg, a.view, rowSize);
    if p.Success? {
      var (stride, keyField) := p.value;
      var reach := Reach(cfg, keyField);
      ReachWithin(cfg, keyField, rowSize);
      NarrowDtypeInBounds(a, rowSize, reach);
      InBoundsIff(a, stride, reach);
      assert ReadsOnlyArray(a, stride, reach);
      forall other: Memory | SameInside(a, other)
        ensures RecordsRead(ieee, cfg, a.view.(memory := other), rowSize) == RecordsRead(ieee, cfg, a.view, rowSize)
      {
        assert PrepareRead(cfg, a.view.(memory := other), rowSize) == p;
      }
    }
  }

  // ---- A dtype wider than the items ------------------------------------------------------

  const KEY_ENTRY := DtypeEntry("_key", 0, 4, 4, 'S', '|')
  const WIDE_ENTRY := DtypeEntry("x", 4, 1000, 1000, 'V', '|')

  /** The dtype of a four-byte key and a thousand-byte bin, which every check accepts. */
  lemma WideDtypePasses()
    ensures AllPass([KEY_ENTRY, WIDE_ENTRY], 1004) && RowSafe([KEY_ENTRY, WIDE_ENTRY], 1004)
    ensures FieldsOf([KEY_ENTRY, WIDE_ENTRY], 1004) == [FieldOfEntry(KEY_ENTRY), FieldOfEntry(WIDE_ENTRY)]
  {
    var entries := [KEY_ENTRY, WIDE_ENTRY];
    assert AllPass(entries, 1004);
    var fields := FieldsOf(entries, 1004);
    assert fields[0] == FieldOfEntry(entries[0]) && fields[1] == FieldOfEntry(entries[1]);
  }

  lemma WideReach(cfg: ReadConfig)
    requires cfg.keyField == "_key" && cfg.fields == [FieldOfEntry(KEY_ENTRY), FieldOfEntry(WIDE_ENTRY)]
    ensures FindField(cfg.fields, "_key") == Some(FieldOfEntry(KEY_ENTRY))
    ensures FindField(cfg.fields, "_namespace") == None && FindField(cfg.fields, "_set") == None
    ensures BinFields(cfg.fields, "_key") == [FieldOfEntry(WIDE_ENTRY)]
    ensures Reach(cfg, FieldOfEntry(KEY_ENTRY)) == 1004
  {
    var key, wide := FieldOfEntry(KEY_ENTRY), FieldOfEntry(WIDE_ENTRY);
    assert cfg.fields[1..] == [wide] && [wide][1..] == [];
    assert cfg.fields[..1] == [key] && [key][..0] == [];
    assert IsBinField(wide, "_key") && !IsBinField(key, "_key");
    assert BinFields([key][..0], "_key") == [] && BinFields([key], "_key") == [];
    assert ReachOver(cfg, key, []) == 0 && ReachOver(cfg, key, [wide]) == 1004;
  }

  lemma WideDtypeLeavesArray(names: ReadConfig, memory: Memory, lo: int)
    requires names.keyField == "_key"
    ensures var a := Packed(memory, lo, 1, 4);
            var cfg := names.(fields := [FieldOfEntry(KEY_ENTRY), FieldOfEntry(WIDE_ENTRY)]);
            OwnsItems(a) && a.hi == lo + 4 && !InBounds(a, 1004, Reach(cfg, FieldOfEntry(KEY_ENTRY)))
  {
    WideReach(names.(fields := [FieldOfEntry(KEY_ENTRY), FieldOfEntry(WIDE_ENTRY)]));
    PackedInBoundsIff(memory, lo, 1, 4, 1004, 1004);
  }

  /**
   One item of four bytes, read with that dtype: the record's bin is a thousand bytes of memory that
   the array does not own.
   */
  lemma WiderDtypeReadsForeignBytes(ieee: Ieee, names: ReadConfig, memory: Memory, lo: int)
    requires names.keyField == "_key"
    ensures var a := Packed(memory, lo, 1, 4);
            var cfg := names.(fields := [FieldOfEntry(KEY_ENTRY), FieldOfEntry(WIDE_ENTRY)]);
            var r := RecordsRead(ieee, cfg, a.view, 1004);
            r.Success? && |r.value| == 1 && r.value[0].bins == [("x", Blob(Bytes(memory, lo + 4, 1000)))]
  {
    var key := FieldOfEntry(KEY_ENTRY);
    var a, cfg := Packed(memory, lo, 1, 4), names.(fields := [key, FieldOfEntry(WIDE_ENTRY)]);
    WideReach(cfg);
    var rows, row := RowsOf(a.view, 1004, 1, 1004), Bytes(memory, lo, 1004);
    assert rows[0] == RawRow(a.view, 1004, 0, 1004) == Success(row);
    WideRecord(ieee, cfg, row);
    assert row[4..1004] == Bytes(memory, lo + 4, 1000);
    assert rows[..0] == [] && ReadRows(ieee, cfg, key, rows[..0], 1004) == Success([]);
  }

  lemma WideRecord(ieee: Ieee, cfg: ReadConfig, row: seq<Byte>)
    requires cfg.keyField == "_key" && cfg.fields == [FieldOfEntry(KEY_ENTRY), FieldOfEntry(WIDE_ENTRY)]
      && |row| == 1004
    ensures RowReadable(cfg, FieldOfEntry(KEY_ENTRY), 1004)
    ensures var r := ReadRecord(ieee, cfg, FieldOfEntry(KEY_ENTRY), row);
            r.Success? && r.value.bins == [("x", Blob(row[4..1004]))]
  {
    WideReach(cfg);
    var wide := FieldOfEntry(WIDE_ENTRY);
    assert [wide][..0] == [] && ReadBins(ieee, row, [wide][..0]) == Success([]);
  }
}
