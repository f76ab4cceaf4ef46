/** Batch results as aerospike-core delivers them: result codes, keys, bin values and records. */
module BatchResults {
  import opened Wrappers

  type Byte = x: int | 0 <= x < 256

  const INT64_MIN: int := -0x8000_0000_0000_0000
  const INT64_LIMIT: int := 0x8000_0000_0000_0000
  const UINT64_LIMIT: int := 0x1_0000_0000_0000_0000

  type Int32 = i: int | -0x8000_0000 <= i < 0x8000_0000
  type UInt32 = i: int | 0 <= i < 0x1_0000_0000
  type Int64 = i: int | INT64_MIN <= i < INT64_LIMIT
  type Bits64 = b: int | 0 <= b < UINT64_LIMIT

  datatype Value =
    | IntValue(i: Int64)
    | Float64(bits: Bits64)
    | Float32(bits32: UInt32)
    | BoolValue(b: bool)
    | Blob(bytes: seq<Byte>)
    | StringValue(utf8: seq<Byte>)
    | NilValue
    | OtherValue(id: int)

  /** Wire codes other than those named by `ResultCode`. */
  type OtherWire = c: int | -0x8000_0000 <= c < 0x8000_0000 && c !in {0, 8, 9, 11, 14, 18} witness 1

  datatype ResultCode =
    | Ok
    | ServerMemError
    | Timeout
    | PartitionUnavailable
    | KeyBusy
    | DeviceOverload
    | OtherCode(wire: OtherWire)

  /** A float as Python compares it. */
  datatype FloatNumber = Number(r: real) | Infinite(negative: bool) | NotANumber

  /** A user key; with an explicit digest the client takes any value for one, lists and dicts included. */
  datatype UserKey =
    | StringKey(s: string)
    | IntKey(k: Int64)
    | BytesKey(data: seq<Byte>)
    | FloatKey(f: FloatNumber)
    | BoolKey(truth: bool)
    | UnhashableKey(id: int)

  /** `bins` in the order in which the record's hash map yields them. */
  datatype Record = Record(gen: UInt32, ttl: UInt32, bins: seq<(string, Value)>)

  datatype BatchRecord = BatchRecord(userKey: Option<UserKey>, resultCode: Option<ResultCode>, record: Option<Record>)

  /** `result_code_to_int`. */
  function ResultCodeToInt(rc: ResultCode): (wire: Int32)
    ensures wire == 0 <==> rc.Ok?
  {
    match rc
    case Ok => 0
    case ServerMemError => 8
    case Timeout => 9
    case PartitionUnavailable => 11
    case KeyBusy => 14
    case DeviceOverload => 18
    case OtherCode(wire) => wire
  }

  /** A missing code counts as success. */
  predicate IsOk(br: BatchRecord) {
    br.resultCode == None || br.resultCode == Some(Ok)
  }

  function WireCode(br: BatchRecord): (wire: Int32)
    ensures wire == 0 <==> IsOk(br)
  {
    match br.resultCode case Some(rc) => ResultCodeToInt(rc) case None => 0
  }

  /** The wire codes of the server protocol, and no two codes share one. */
  lemma WireCodesOf(a: ResultCode, b: ResultCode)
    ensures ResultCodeToInt(a) == ResultCodeToInt(b) <==> a == b
    ensures ResultCodeToInt(ServerMemError) == 8 && ResultCodeToInt(Timeout) == 9
    ensures ResultCodeToInt(PartitionUnavailable) == 11 && ResultCodeToInt(KeyBusy) == 14
    ensures ResultCodeToInt(DeviceOverload) == 18
  {
  }
}
