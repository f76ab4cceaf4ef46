/**
 NumPy dtype fields and the conversion of one value to and from the bytes of one field
 (rust/src/numpy_support.rs). Floating-point conversions are functions on bit patterns of which only
 `IeeeLaws` is known; the range guards around them see a value as non-finite or as an exact real.
 */
module NumpyFields {
  import opened Wrappers
  import opened BatchResults
  import opened ByteCodec

  datatype DtypeKind = IntKind | UintKind | FloatKind | FixedBytes | VoidBytes

  datatype FieldInfo = FieldInfo(name: string, offset: nat, itemsize: nat, baseItemsize: nat, kind: DtypeKind)

  datatype Magnitude = NonFinite | Finite(r: real)

  type UInt16 = b: int | 0 <= b < 0x1_0000

  /** Conversions between the IEEE formats and integers, on bit patterns. */
  datatype IeeeFunctions = IeeeFunctions(
    magnitude: Bits64 -> Magnitude,
    ofInt: Int64 -> Bits64,
    widen32: UInt32 -> Bits64,
    widen16: UInt16 -> Bits64,
    narrow32: Bits64 -> UInt32,
    narrow16: Bits64 -> UInt16)

  /** The largest finite f32. */
  const F32_MAX: real := 340282346638528859811704183484516925440.0

  /** Bit patterns whose exponent is not all ones. */
  predicate Finite32(b: UInt32) {
    (b / 0x80_0000) % 0x100 != 0xFF
  }

  predicate Finite16(b: UInt16) {
    (b / 0x400) % 0x20 != 0x1F
  }

  /** All that is assumed of the conversions: narrowing undoes the widening of a finite number, which stays in range. */
  ghost predicate IeeeLaws(f: IeeeFunctions) {
    && (forall b: UInt32 :: Finite32(b) ==>
          f.narrow32(f.widen32(b)) == b && InSingleRange(f.magnitude(f.widen32(b))))
    && (forall b: UInt16 :: Finite16(b) ==> f.narrow16(f.widen16(b)) == b)
  }

  predicate InSingleRange(m: Magnitude) {
    m.Finite? && -F32_MAX <= m.r <= F32_MAX
  }

  type Ieee = f: IeeeFunctions | IeeeLaws(f)
    ghost witness IeeeFunctions(_ => Finite(0.0), _ => 0, (b: UInt32) => b, (b: UInt16) => b,
                                (v: Bits64) => v % 0x1_0000_0000, (v: Bits64) => v % 0x1_0000)

  datatype FieldError =
    | IntegerOverflow
    | FloatOverflow
    | UnsupportedSize
    | NegativeToUnsigned
    | NotFinite
    | FloatOutOfRange
    | KindMismatch
    | UnsupportedValue

  /** The bounds check of `parse_dtype_fields`. */
  predicate Fits(f: FieldInfo, stride: nat) {
    f.offset + f.itemsize <= stride
  }

  predicate IsSubArray(f: FieldInfo) {
    (f.kind.IntKind? || f.kind.UintKind? || f.kind.FloatKind?) && f.itemsize > f.baseItemsize
  }

  predicate IsBytes(f: FieldInfo) {
    f.kind.FixedBytes? || f.kind.VoidBytes?
  }

  predicate IsWidth(w: nat) {
    w == 1 || w == 2 || w == 4 || w == 8
  }

  /** A numeric field whose scalars have a width that loads and stores support. */
  predicate HasScalar(f: FieldInfo) {
    !IsBytes(f) && IsWidth(f.baseItemsize) && !(f.kind.FloatKind? && f.baseItemsize == 1)
  }

  /**
   How many bytes from its offset a load or store of a field can touch. This is not the field's size: a
   numeric field that is not longer than its base scalar is accessed at the size of the base scalar.
   */
  function Extent(f: FieldInfo): nat {
    if IsBytes(f) || IsSubArray(f) then f.itemsize
    else if HasScalar(f) then f.baseItemsize
    else 0
  }

  predicate InRow(f: FieldInfo, stride: nat) {
    f.offset + Extent(f) <= stride
  }

  // ---- Value to bytes -------------------------------------------------------------------

  /** The bytes `write_int_to_buffer` stores, width by width. */
  function EncodeInt(f: FieldInfo, v: Int64): Result<seq<Byte>, FieldError> {
    PowersOf256();
    match f.baseItemsize
    case 1 => if v < -0x80 || v > 0x7F then Failure(IntegerOverflow) else Success(StoreSigned(v, 1))
    case 2 => if v < -0x8000 || v > 0x7FFF then Failure(IntegerOverflow) else Success(StoreSigned(v, 2))
    case 4 =>
      if v < -0x8000_0000 || v > 0x7FFF_FFFF then Failure(IntegerOverflow) else Success(StoreSigned(v, 4))
    case 8 => Success(StoreSigned(v, 8))
    case _ => Failure(UnsupportedSize)
  }

  /** A store of the low `width` bytes of a signed value that fits them. */
  function StoreSigned(v: Int64, width: nat): (bytes: seq<Byte>)
    requires IsWidth(width) && 0 <= 2 * v + Pow256(width) < 2 * Pow256(width)
  {
    LittleEndian(ToUnsigned(v, width), width)
  }

  function EncodeUint(f: FieldInfo, v: Bits64): Result<seq<Byte>, FieldError> {
    match f.baseItemsize
    case 1 => if v > 0xFF then Failure(IntegerOverflow) else Success(LittleEndian(v, 1))
    case 2 => if v > 0xFFFF then Failure(IntegerOverflow) else Success(LittleEndian(v, 2))
    case 4 => if v > 0xFFFF_FFFF then Failure(IntegerOverflow) else Success(LittleEndian(v, 4))
    case 8 => Success(LittleEndian(v, 8))
    case _ => Failure(UnsupportedSize)
  }

  function EncodeFloat(ieee: Ieee, f: FieldInfo, v: Bits64): Result<seq<Byte>, FieldError> {
    match f.baseItemsize
    case 4 =>
      var m := ieee.magnitude(v);
      if m.Finite? && (m.r > F32_MAX || m.r < -F32_MAX) then Failure(FloatOverflow)
      else Success(LittleEndian(ieee.narrow32(v), 4))
    case 8 => Success(LittleEndian(v, 8))
    case 2 => Success(LittleEndian(ieee.narrow16(v), 2))
    case _ => Failure(UnsupportedSize)
  }

  /** Longer data is truncated to the field. */
  function EncodeBytes(f: FieldInfo, data: seq<Byte>): seq<Byte> {
    if |data| <= f.itemsize then data else data[..f.itemsize]
  }

  /** Rust's `as` on an in-range float: toward zero. */
  function Truncate(r: real): int {
    if r >= 0.0 then r.Floor else -((-r).Floor)
  }

  function FloatToInt64(m: Magnitude): Result<Int64, FieldError> {
    if m.NonFinite? then Failure(NotFinite)
    else if m.r < INT64_MIN as real || m.r >= INT64_LIMIT as real then Failure(FloatOutOfRange)
    else Success(Truncate(m.r))
  }

  function FloatToUint64(m: Magnitude): Result<Bits64, FieldError> {
    if m.NonFinite? then Failure(NotFinite)
    else if m.r < 0.0 then Failure(NegativeToUnsigned)
    else if m.r >= UINT64_LIMIT as real then Failure(FloatOutOfRange)
    else Success(Truncate(m.r))
  }

  /** The bytes `write_value_to_buffer` leaves at the field's offset; none for a nil value. */
  function Encode(ieee: Ieee, f: FieldInfo, v: Value): Result<seq<Byte>, FieldError> {
    match v
    case IntValue(i) =>
      (match f.kind
       case IntKind => EncodeInt(f, i)
       case UintKind => if i < 0 then Failure(NegativeToUnsigned) else EncodeUint(f, i)
       case FloatKind => EncodeFloat(ieee, f, ieee.ofInt(i))
       case _ => Failure(KindMismatch))
    case Float64(bits) => EncodeFloatValue(ieee, f, bits)
    case Float32(bits) => EncodeFloatValue(ieee, f, ieee.widen32(bits))
    case BoolValue(b) =>
      var i: Int64 := if b then 1 else 0;
      (match f.kind
       case IntKind => EncodeInt(f, i)
       case UintKind => EncodeUint(f, i)
       case FloatKind => EncodeFloat(ieee, f, ieee.ofInt(i))
       case _ => Failure(KindMismatch))
    case Blob(bytes) =>
      if IsBytes(f) || IsSubArray(f) then Success(EncodeBytes(f, bytes)) else Failure(KindMismatch)
    case StringValue(utf8) =>
      if IsBytes(f) then Success(EncodeBytes(f, utf8)) else Failure(KindMismatch)
    case NilValue => Success([])
    case OtherValue(_) => Failure(UnsupportedValue)
  }

  function EncodeFloatValue(ieee: Ieee, f: FieldInfo, bits: Bits64): Result<seq<Byte>, FieldError> {
    match f.kind
    case FloatKind => EncodeFloat(ieee, f, bits)
    case IntKind =>
      (match FloatToInt64(ieee.magnitude(bits)) case Failure(e) => Failure(e) case Success(i) => EncodeInt(f, i))
    case UintKind =>
      (match FloatToUint64(ieee.magnitude(bits)) case Failure(e) => Failure(e) case Success(u) => EncodeUint(f, u))
    case _ => Failure(KindMismatch)
  }

  /** No value is ever stored past the field's extent. */
  lemma EncodeFits(ieee: Ieee, f: FieldInfo, v: Value)
    requires Encode(ieee, f, v).Success?
    ensures |Encode(ieee, f, v).value| <= Extent(f)
  {
  }

  /** 0x01 in each byte: a positive finite number in every format. */
  function Ones(width: nat): nat
    requires IsWidth(width)
  {
    match width
    case 1 => 0x01
    case 2 => 0x0101
    case 4 => 0x0101_0101
    case _ => 0x0101_0101_0101_0101
  }

  /** The integer or double that a numeric field stores as the bytes of `u`. */
  function ScalarOf(ieee: Ieee, f: FieldInfo, u: Int64): Value
    requires HasScalar(f) && 0 <= u < Pow256(f.baseItemsize)
  {
    PowersOf256();
    if !f.kind.FloatKind? then IntValue(u)
    else if f.baseItemsize == 2 then Float64(ieee.widen16(u))
    else if f.baseItemsize == 4 then Float64(ieee.widen32(u))
    else Float64(u)
  }

  /** A value whose store fills the field's extent with `b`, 0 or 1. */
  function Filler(ieee: Ieee, f: FieldInfo, b: Byte): Value
    requires b <= 1
  {
    PowersOf256();
    if IsBytes(f) || IsSubArray(f) then Blob(seq(f.itemsize, (k: nat) => b))
    else if HasScalar(f) then ScalarOf(ieee, f, if b == 0 then 0 else Ones(f.baseItemsize))
    else NilValue
  }

  lemma OnesBytes(width: nat, b: Byte)
    requires IsWidth(width) && b <= 1
    ensures LittleEndian(if b == 0 then 0 else Ones(width), width) == seq(width, (k: nat) => b)
  {
    assert LittleEndian(0x01, 1) == [1] && LittleEndian(0x0101, 2) == [1] + LittleEndian(0x01, 1);
    assert LittleEndian(0x01_0101, 3) == [1] + LittleEndian(0x0101, 2);
    assert LittleEndian(0x0101_0101, 4) == [1] + LittleEndian(0x01_0101, 3);
    assert LittleEndian(0x01_0101_0101, 5) == [1] + LittleEndian(0x0101_0101, 4);
    assert LittleEndian(0x0101_0101_0101, 6) == [1] + LittleEndian(0x01_0101_0101, 5);
    assert LittleEndian(0x01_0101_0101_0101, 7) == [1] + LittleEndian(0x0101_0101_0101, 6);
    assert LittleEndian(0x0101_0101_0101_0101, 8) == [1] + LittleEndian(0x01_0101_0101_0101, 7);
    ZeroBytes(width);
  }

  lemma {:induction false} ZeroBytes(width: nat)
    ensures LittleEndian(0, width) == seq(width, (k: nat) => 0)
  {
    if width > 0 {
      ZeroBytes(width - 1);
    }
  }

  /** Every field has stores that fill its whole extent with zeros, and with ones. */
  lemma FillerFills(ieee: Ieee, f: FieldInfo, b: Byte)
    requires b <= 1
    ensures Encode(ieee, f, Filler(ieee, f, b)) == Success(seq(Extent(f), (k: nat) => b))
  {
    if !IsBytes(f) && !IsSubArray(f) {
      if HasScalar(f) {
        OnesBytes(f.baseItemsize, b);
        assert Finite32(0) && Finite32(0x0101_0101) && Finite16(0) && Finite16(0x0101);
      } else {
        assert seq(0, (k: nat) => b) == [];
      }
    }
  }

  /** Every value of a field is stored within its first `n` bytes. */
  ghost predicate StoresWithin(ieee: Ieee, f: FieldInfo, n: int) {
    forall v :: Encode(ieee, f, v).Success? ==> |Encode(ieee, f, v).value| <= n
  }

  /** The extent is exact: for every bound, all stores stay within it exactly when the extent does. */
  lemma StoresWithinIff(ieee: Ieee, f: FieldInfo, n: nat)
    ensures StoresWithin(ieee, f, n) <==> Extent(f) <= n
  {
    FillerFills(ieee, f, 0);
    if Extent(f) <= n {
      forall v | Encode(ieee, f, v).Success?
        ensures |Encode(ieee, f, v).value| <= n
      {
        EncodeFits(ieee, f, v);
      }
    }
  }

  /** Stores stay in their field exactly when it is not shorter than a base scalar that can be stored. */
  lemma StaysInFieldIff(ieee: Ieee, f: FieldInfo)
    ensures StoresWithin(ieee, f, f.itemsize) <==> !(HasScalar(f) && f.itemsize < f.baseItemsize)
  {
    StoresWithinIff(ieee, f, f.itemsize);
  }

  /**
   In a dtype as NumPy makes them, sizes being multiples of base sizes, only a zero-length sub-array is
   that short.
   */
  lemma ShortMeansEmpty(f: FieldInfo)
    requires f.baseItemsize > 0 && f.itemsize % f.baseItemsize == 0
    ensures f.itemsize < f.baseItemsize <==> f.itemsize == 0
  {
    if f.itemsize < f.baseItemsize {
      assert f.itemsize % f.baseItemsize == f.itemsize;
    }
  }

  /** In a buffer of `n` rows, all stores into row `i` end within the buffer. */
  ghost predicate StaysInBuffer(ieee: Ieee, f: FieldInfo, stride: nat, n: nat, i: nat) {
    StoresWithin(ieee, f, n * stride - (i * stride + f.offset))
  }

  /** That holds for every row exactly when the field's extent stays in its row. */
  lemma StaysInBufferIff(ieee: Ieee, f: FieldInfo, stride: nat, n: nat)
    requires n > 0
    ensures (forall i: nat :: i < n ==> StaysInBuffer(ieee, f, stride, n, i)) <==> InRow(f, stride)
  {
    if InRow(f, stride) {
      forall i: nat | i < n
        ensures StaysInBuffer(ieee, f, stride, n, i)
      {
        RowBounds(i, n, stride);
        StoresWithinIff(ieee, f, n * stride - (i * stride + f.offset));
      }
    } else {
      RowBounds(n - 1, n, stride);
      FillerFills(ieee, f, 0);
      assert !StaysInBuffer(ieee, f, stride, n, n - 1);
    }
  }

  // ---- Bytes to value -------------------------------------------------------------------

  /** Where a field's last byte ends that a load or store can touch; a field without any touches nothing. */
  function EndOf(f: FieldInfo): nat {
    if Extent(f) == 0 then 0 else f.offset + Extent(f)
  }

  /** `read_value_from_buffer` on the bytes of one row, of which it reads the field's extent. */
  function ReadValue(ieee: Ieee, row: seq<Byte>, f: FieldInfo): Result<Value, FieldError>
    requires EndOf(f) <= |row|
  {
    Decode(ieee, f, if Extent(f) == 0 then [] else row[f.offset..f.offset + Extent(f)])
  }

  function Decode(ieee: Ieee, f: FieldInfo, bytes: seq<Byte>): Result<Value, FieldError>
    requires |bytes| == Extent(f)
  {
    if IsSubArray(f) || IsBytes(f) then Success(Blob(bytes))
    else if !HasScalar(f) then Failure(UnsupportedSize)
    else
      var u := LoadUnsigned(bytes);
      match f.kind
      case IntKind => Success(IntValue(AsSigned(u, f.baseItemsize)))
      case UintKind => if u >= INT64_LIMIT then Failure(IntegerOverflow) else Success(IntValue(u))
      case FloatKind =>
        (match f.baseItemsize
         case 2 => Success(Float64(ieee.widen16(u)))
         case 4 => Success(Float64(ieee.widen32(u)))
         case _ => Success(Float64(u)))
  }

  function LoadUnsigned(bytes: seq<Byte>): (u: Bits64)
    requires IsWidth(|bytes|)
    ensures u < Pow256(|bytes|)
    ensures (|bytes| == 2 ==> u < 0x1_0000) && (|bytes| == 4 ==> u < 0x1_0000_0000)
  {
    PowersOf256();
    FromLittleEndian(bytes)
  }

  function AsSigned(u: Bits64, width: nat): Int64
    requires IsWidth(width) && u < Pow256(width)
  {
    PowersOf256();
    ToSigned(u, width)
  }

  /** The first `n` bytes from the field's offset decide what is read. */
  ghost predicate ReadDecidedBy(ieee: Ieee, f: FieldInfo, n: nat) {
    forall a: seq<Byte>, b: seq<Byte> ::
      |a| == |b| == Extent(f) && AgreeUpTo(a, b, n) ==> Decode(ieee, f, a) == Decode(ieee, f, b)
  }

  predicate AgreeUpTo(a: seq<Byte>, b: seq<Byte>, n: nat) {
    forall k :: 0 <= k < |a| && k < |b| && k < n ==> a[k] == b[k]
  }

  /** All zeros but for the last byte. */
  function EndingIn(n: nat, last: Byte): (s: seq<Byte>)
    requires n > 0
    ensures |s| == n
  {
    seq(n - 1, (k: nat) => 0) + [last]
  }

  /** A load reads its field's whole extent, past a shorter field just as a store does. */
  lemma ReadDecidedByIff(ieee: Ieee, f: FieldInfo, n: nat)
    ensures ReadDecidedBy(ieee, f, n) <==> Extent(f) <= n
  {
    if Extent(f) <= n {
      forall a: seq<Byte>, b: seq<Byte> | |a| == |b| == Extent(f) && AgreeUpTo(a, b, n)
        ensures Decode(ieee, f, a) == Decode(ieee, f, b)
      {
        assert a == b;
      }
    } else {
      var a, b := EndingIn(Extent(f), 0), EndingIn(Extent(f), 1);
      assert AgreeUpTo(a, b, n);
      LastByteMatters(ieee, f);
      assert Decode(ieee, f, a) != Decode(ieee, f, b);
    }
  }

  lemma LastByteMatters(ieee: Ieee, f: FieldInfo)
    requires Extent(f) > 0
    ensures Decode(ieee, f, EndingIn(Extent(f), 0)) != Decode(ieee, f, EndingIn(Extent(f), 1))
  {
    var a, b := EndingIn(Extent(f), 0), EndingIn(Extent(f), 1);
    assert a[Extent(f) - 1] != b[Extent(f) - 1];
    if HasScalar(f) && !IsSubArray(f) {
      EndingValue(f.baseItemsize, 0);
      EndingValue(f.baseItemsize, 1);
      assert Finite32(0) && Finite32(0x100_0000) && Finite16(0) && Finite16(0x100);
    }
  }

  lemma EndingValue(width: nat, last: Byte)
    requires IsWidth(width)
    ensures FromLittleEndian(EndingIn(width, last))
         == last * (match width case 1 => 1 case 2 => 0x100 case 4 => 0x100_0000 case _ => 0x100_0000_0000_0000)
  {
    PowersOf256();
    EndingWeight(width, last);
    assert Pow256(3) == 0x100_0000 && Pow256(0) == 1;
    assert Pow256(7) == 0x100_0000_0000_0000 by {
      assert Pow256(5) == 0x100_0000_0000 && Pow256(6) == 0x1_0000_0000_0000;
    }
  }

  lemma {:induction false} EndingWeight(n: nat, last: Byte)
    requires n > 0
    ensures FromLittleEndian(EndingIn(n, last)) == last * Pow256(n - 1)
  {
    var s := EndingIn(n, last);
    if n > 1 {
      assert s[1..] == EndingIn(n - 1, last);
      EndingWeight(n - 1, last);
      assert last * Pow256(n - 1) == 256 * (last * Pow256(n - 2));
    } else {
      assert s == [last] && s[1..] == [];
    }
  }
}
