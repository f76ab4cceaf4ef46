/**
 Which values a field takes and what it then gives back, in terms of numbers rather than bytes, and what
 each dtype kind is for.
 */
module NumpyValues {
  import opened Wrappers
  import opened BatchResults
  import opened ByteCodec
  import opened NumpyFields
  import opened NumpyRows
  import opened NumpyRoundTrip

  // ---- What a field takes ---------------------------------------------------------------

  /** `i` is `r` without its fraction. */
  predicate TowardZero(r: real, i: int) {
    if r >= 0.0 then i as real <= r < (i + 1) as real else (i - 1) as real < r <= i as real
  }

  /** The integers that the field's width holds: two's complement, or from zero on. */
  predicate IntegerFits(f: FieldInfo, i: int) {
    IsWidth(f.baseItemsize)
    && if f.kind.IntKind? then 0 <= 2 * i + Pow256(f.baseItemsize) < 2 * Pow256(f.baseItemsize)
       else 0 <= i < Pow256(f.baseItemsize)
  }

  predicate BeyondSingle(m: Magnitude) {
    m.Finite? && !(-F32_MAX <= m.r <= F32_MAX)
  }

  /** Halves and doubles take every double; singles take those that are not finite or in their range. */
  predicate FloatFits(ieee: Ieee, f: FieldInfo, bits: Bits64) {
    f.baseItemsize in {2, 4, 8} && (f.baseItemsize == 4 ==> !BeyondSingle(ieee.magnitude(bits)))
  }

  /** The value as a double: what a float field stores, and what an integer field truncates. */
  function AsDouble(ieee: Ieee, v: Value): Option<Bits64> {
    match v
    case IntValue(i) => Some(ieee.ofInt(i))
    case BoolValue(b) => Some(ieee.ofInt(if b then 1 else 0))
    case Float64(bits) => Some(bits)
    case Float32(bits32) => Some(ieee.widen32(bits32))
    case _ => None
  }

  predicate IsFloat(v: Value) {
    v.Float64? || v.Float32?
  }

  /** A float is cut toward zero if it is in the range of the 64-bit integers of the field's sign. */
  ghost predicate Denotes(ieee: Ieee, f: FieldInfo, v: Value, i: int) {
    if v.IntValue? then i == v.i
    else if v.BoolValue? then i == if v.b then 1 else 0
    else
      && IsFloat(v) && ieee.magnitude(AsDouble(ieee, v).value).Finite?
      && var r := ieee.magnitude(AsDouble(ieee, v).value).r;
         TowardZero(r, i) && if f.kind.IntKind? then INT64_MIN as real <= r < INT64_LIMIT as real
                             else 0.0 <= r < UINT64_LIMIT as real
  }

  ghost predicate Takes(ieee: Ieee, f: FieldInfo, v: Value) {
    if v.Blob? then IsBytes(f) || IsSubArray(f)
    else if v.StringValue? then IsBytes(f)
    else if v.NilValue? then true
    else if v.OtherValue? || IsBytes(f) then false
    else if f.kind.FloatKind? then FloatFits(ieee, f, AsDouble(ieee, v).value)
    else exists i: int :: Denotes(ieee, f, v, i) && IntegerFits(f, i)
  }

  lemma TruncateIsTowardZero(r: real, i: int)
    ensures TowardZero(r, i) <==> Truncate(r) == i
  {
    assert r >= 0.0 ==> r.Floor as real <= r < r.Floor as real + 1.0;
    assert r < 0.0 ==> (-r).Floor as real <= -r < (-r).Floor as real + 1.0;
  }

  lemma DenotesOne(ieee: Ieee, f: FieldInfo, v: Value, i: int, j: int)
    requires Denotes(ieee, f, v, i) && Denotes(ieee, f, v, j)
    ensures i == j
  {
    if IsFloat(v) {
      TruncateIsTowardZero(ieee.magnitude(AsDouble(ieee, v).value).r, i);
      TruncateIsTowardZero(ieee.magnitude(AsDouble(ieee, v).value).r, j);
    }
  }

  lemma EncodeIntegerIff(f: FieldInfo, i: int)
    ensures f.kind.IntKind? && INT64_MIN <= i < INT64_LIMIT ==> (EncodeInt(f, i).Success? <==> IntegerFits(f, i))
    ensures !f.kind.IntKind? && 0 <= i < UINT64_LIMIT ==> (EncodeUint(f, i).Success? <==> IntegerFits(f, i))
  {
    PowersOf256();
  }

  /** A number that denotes `i` is stored in an integer field as `i`. */
  lemma EncodesDenoted(ieee: Ieee, f: FieldInfo, v: Value, i: int)
    requires (f.kind.IntKind? || f.kind.UintKind?) && Denotes(ieee, f, v, i)
    ensures f.kind.IntKind? ==> INT64_MIN <= i < INT64_LIMIT && Encode(ieee, f, v) == EncodeInt(f, i)
    ensures f.kind.UintKind? && i >= 0 ==> i < UINT64_LIMIT && Encode(ieee, f, v) == EncodeUint(f, i)
    ensures f.kind.UintKind? && i < 0 ==> Encode(ieee, f, v) == Failure(NegativeToUnsigned)
  {
    if IsFloat(v) {
      TruncateIsTowardZero(ieee.magnitude(AsDouble(ieee, v).value).r, i);
    }
  }

  lemma EncodedDenotes(ieee: Ieee, f: FieldInfo, v: Value)
    requires (f.kind.IntKind? || f.kind.UintKind?) && (IsFloat(v) || v.IntValue? || v.BoolValue?)
    requires Encode(ieee, f, v).Success?
    ensures exists i: int :: Denotes(ieee, f, v, i)
  {
    if v.IntValue? {
      assert Denotes(ieee, f, v, v.i);
    } else if v.BoolValue? {
      assert Denotes(ieee, f, v, if v.b then 1 else 0);
    } else {
      var r := ieee.magnitude(AsDouble(ieee, v).value).r;
      TruncateIsTowardZero(r, Truncate(r));
      assert Denotes(ieee, f, v, Truncate(r));
    }
  }

  lemma IntegerFieldTakesIff(ieee: Ieee, f: FieldInfo, v: Value)
    requires (f.kind.IntKind? || f.kind.UintKind?) && (IsFloat(v) || v.IntValue? || v.BoolValue?)
    ensures Encode(ieee, f, v).Success? <==> exists i: int :: Denotes(ieee, f, v, i) && IntegerFits(f, i)
  {
    if Encode(ieee, f, v).Success? {
      EncodedDenotes(ieee, f, v);
      var i: int :| Denotes(ieee, f, v, i);
      EncodesDenoted(ieee, f, v, i);
      EncodeIntegerIff(f, i);
    }
    if i: int :| Denotes(ieee, f, v, i) && IntegerFits(f, i) {
      EncodesDenoted(ieee, f, v, i);
      EncodeIntegerIff(f, i);
    }
  }

  /** A field takes a value exactly when its kind has a place for it and its width holds it. */
  lemma TakesIff(ieee: Ieee, f: FieldInfo, v: Value)
    ensures Encode(ieee, f, v).Success? <==> Takes(ieee, f, v)
  {
    if (f.kind.IntKind? || f.kind.UintKind?) && (IsFloat(v) || v.IntValue? || v.BoolValue?) {
      IntegerFieldTakesIff(ieee, f, v);
    }
  }

  /** The reasons that do not depend on a width, each with its own error. */
  lemma RefusalReasons(ieee: Ieee, f: FieldInfo, v: Value)
    ensures Encode(ieee, f, v) == Failure(UnsupportedValue) <==> v.OtherValue?
    ensures Encode(ieee, f, v) == Failure(KindMismatch)
      <==> || (v.Blob? && !IsBytes(f) && !IsSubArray(f)) || (v.StringValue? && !IsBytes(f))
           || (AsDouble(ieee, v).Some? && IsBytes(f))
    ensures Encode(ieee, f, v) == Failure(NotFinite)
      <==> IsFloat(v) && (f.kind.IntKind? || f.kind.UintKind?) && ieee.magnitude(AsDouble(ieee, v).value).NonFinite?
    ensures Encode(ieee, f, v) == Failure(NegativeToUnsigned)
      <==> && f.kind.UintKind?
           && (|| (v.IntValue? && v.i < 0)
               || (IsFloat(v) && ieee.magnitude(AsDouble(ieee, v).value).Finite?
                   && ieee.magnitude(AsDouble(ieee, v).value).r < 0.0))
    ensures Encode(ieee, f, v) == Failure(FloatOverflow)
      <==> AsDouble(ieee, v).Some? && f.kind.FloatKind? && f.baseItemsize == 4
           && BeyondSingle(ieee.magnitude(AsDouble(ieee, v).value))
  {
  }

  // ---- What it gives back ---------------------------------------------------------------

  /** The double that a float field gives back: the one stored, rounded to the field's format. */
  function Rounded(ieee: Ieee, f: FieldInfo, bits: Bits64): Bits64 {
    match f.baseItemsize
    case 2 => ieee.widen16(ieee.narrow16(bits))
    case 4 => ieee.widen32(ieee.narrow32(bits))
    case _ => bits
  }

  /** An unsigned field holds a number up to its width; what is read of it must also fit a signed 64-bit integer. */
  lemma UnsignedColumn(ieee: Ieee, row: seq<Byte>, f: FieldInfo, u: nat)
    requires f.kind.UintKind? && !IsSubArray(f) && IsWidth(f.baseItemsize) && u < Pow256(f.baseItemsize)
    requires InRow(f, |row|) && Field(row, f) == LittleEndian(u, f.baseItemsize)
    ensures ReadValue(ieee, row, f) == if u >= INT64_LIMIT then Failure(IntegerOverflow) else Success(IntValue(u))
  {
    PowersOf256();
    UnsignedRoundTrip(u, f.baseItemsize);
  }

  lemma SignedColumn(ieee: Ieee, row: seq<Byte>, f: FieldInfo, i: Int64)
    requires f.kind.IntKind? && !IsSubArray(f) && IntegerFits(f, i)
    requires InRow(f, |row|) && Field(row, f) == LittleEndian(ToUnsigned(i, f.baseItemsize), f.baseItemsize)
    ensures ReadValue(ieee, row, f) == Success(IntValue(i))
  {
    PowersOf256();
    SignedRoundTrip(i, f.baseItemsize);
  }

  /**
   An integer field gives back the integer that the stored number denotes: an integer itself, 1 or 0 for a
   boolean, a float cut toward zero. Only an unsigned one of 2^63 or more cannot be read.
   */
  lemma IntegerFieldGivesBack(ieee: Ieee, row: seq<Byte>, f: FieldInfo, v: Value)
    returns (i: int)
    requires Written(ieee, row, f, v) && (f.kind.IntKind? || f.kind.UintKind?) && !IsSubArray(f)
    requires IsFloat(v) || v.IntValue? || v.BoolValue?
    ensures Denotes(ieee, f, v, i) && IntegerFits(f, i)
    ensures ReadValue(ieee, row, f) == if i >= INT64_LIMIT then Failure(IntegerOverflow) else Success(IntValue(i))
  {
    EncodedDenotes(ieee, f, v);
    i :| Denotes(ieee, f, v, i);
    EncodesDenoted(ieee, f, v, i);
    EncodeIntegerIff(f, i);
    PowersOf256();
    var bytes := Encode(ieee, f, v).value;
    assert Padded(bytes, f.baseItemsize) == bytes;
    if f.kind.IntKind? {
      SignedColumn(ieee, row, f, i);
    } else {
      UnsignedColumn(ieee, row, f, i);
    }
  }

  /** A float field gives back the stored number as a double, rounded to the field's format. */
  lemma FloatFieldGivesBack(ieee: Ieee, row: seq<Byte>, f: FieldInfo, v: Value)
    requires Written(ieee, row, f, v) && f.kind.FloatKind? && !IsSubArray(f) && AsDouble(ieee, v).Some?
    ensures ReadValue(ieee, row, f) == Success(Float64(Rounded(ieee, f, AsDouble(ieee, v).value)))
  {
    var bits := AsDouble(ieee, v).value;
    assert Encode(ieee, f, v) == Encode(ieee, f, Float64(bits));
    DoubleReadsBack(ieee, row, f, bits);
  }

  /** A bytes field gives back text as its UTF-8 bytes, zero-padded or cut to the field. */
  lemma TextGivesBack(ieee: Ieee, row: seq<Byte>, f: FieldInfo, utf8: seq<Byte>)
    requires Written(ieee, row, f, StringValue(utf8))
    ensures ReadValue(ieee, row, f) == Success(Blob(Padded(utf8, f.itemsize)))
  {
    assert Padded(EncodeBytes(f, utf8), f.itemsize) == Padded(utf8, f.itemsize);
  }

  /** A nil stores nothing, so the row's zeros are read: 0, the double of zero bits, or bytes of zeros. */
  lemma NilGivesBack(ieee: Ieee, row: seq<Byte>, f: FieldInfo)
    requires Written(ieee, row, f, NilValue)
    ensures IsBytes(f) || IsSubArray(f) ==> ReadValue(ieee, row, f) == Success(Blob(Zeros(f.itemsize)))
    ensures HasScalar(f) && !IsSubArray(f) && !f.kind.FloatKind? ==> ReadValue(ieee, row, f) == Success(IntValue(0))
    ensures HasScalar(f) && !IsSubArray(f) && f.kind.FloatKind? ==>
      ReadValue(ieee, row, f) == Success(Float64(
        match f.baseItemsize case 2 => ieee.widen16(0) case 4 => ieee.widen32(0) case _ => 0))
  {
    assert Field(row, f) == Zeros(Extent(f));
    NumpyFill.ZerosValue(Extent(f));
  }

  // ---- What a dtype kind is for ---------------------------------------------------------

  /** Exactly these entries pass: of five kinds, in the host's byte order or without one, and inside the row. */
  lemma EntryPassesIff(e: DtypeEntry, rowStride: nat)
    ensures CheckEntry(e, rowStride).None?
      <==> e.kind in "iufSV" && e.byteorder in "=|<" && e.offset + e.itemsize <= rowStride
    ensures CheckEntry(e, rowStride) == Some(UnsupportedKind) <==> e.kind !in "iufSV"
    ensures CheckEntry(e, rowStride) == Some(NonNativeByteOrder) <==> e.kind in "iufSV" && e.byteorder !in "=|<"
  {
  }

  /**
   What the kind of an accepted entry means for values written to its field and read back: 'i' has -1, 'u'
   refuses it and has 255, 'f' turns numbers into doubles, and 'S' and 'V' take bytes.
   */
  lemma KindsByValues(ieee: Ieee, e: DtypeEntry, rowStride: nat, row: seq<Byte>, v: Value)
    requires CheckEntry(e, rowStride).None? && IsWidth(e.itemsize) && e.baseItemsize == e.itemsize
    ensures KindOf(e.kind).Some?
    ensures e.kind == 'i' ==> Encode(ieee, FieldOfEntry(e), IntValue(-1)).Success?
    ensures e.kind == 'u' ==> && Encode(ieee, FieldOfEntry(e), IntValue(-1)) == Failure(NegativeToUnsigned)
                              && Encode(ieee, FieldOfEntry(e), IntValue(255)).Success?
    ensures Written(ieee, row, FieldOfEntry(e), v) && v.IntValue? && e.kind in "iu" ==>
      ReadValue(ieee, row, FieldOfEntry(e)) == Success(v)
    ensures Written(ieee, row, FieldOfEntry(e), v) && AsDouble(ieee, v).Some? && e.kind == 'f' ==>
      ReadValue(ieee, row, FieldOfEntry(e)).Success? && ReadValue(ieee, row, FieldOfEntry(e)).value.Float64?
    ensures e.kind in "SV" ==> Encode(ieee, FieldOfEntry(e), Blob([1])).Success?
    ensures Written(ieee, row, FieldOfEntry(e), v) && e.kind in "SV" ==>
      && (v.Blob? || v.StringValue? || v.NilValue?)
      && ReadValue(ieee, row, FieldOfEntry(e)).Success? && ReadValue(ieee, row, FieldOfEntry(e)).value.Blob?
  {
    PowersOf256();
    var f := FieldOfEntry(e);
    if e.kind == 'i' || e.kind == 'u' {
      EncodeIntegerIff(f, -1);
      EncodeIntegerIff(f, 255);
      if Written(ieee, row, f, v) && v.IntValue? {
        ReadsBackIff(ieee, row, f, v);
      }
    } else if e.kind == 'f' && Written(ieee, row, f, v) && AsDouble(ieee, v).Some? {
      FloatFieldGivesBack(ieee, row, f, v);
    }
  }
}
