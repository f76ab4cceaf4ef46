/**
 Conversion of operation lists and their routing as batch reads or batch writes
 (rust/src/operations.rs, rust/src/client_common.rs).
 */
module OpRouting {
  import opened Wrappers

  // ---- Operations -----------------------------------------------------------------------

  /** What the constructor that an operation code maps to does on the server. */
  datatype Verb =
    | Get | Size | Describe | Count | Scan
    | Put | Add | Append | Prepend | Touch | Delete
    | Insert | Pop | Remove | Set | Trim | Clear | Increment | Sort | SetOrder
    | Init | Fold | Union | Resize | Logic | Shift | Arithmetic

  datatype Family = Basic | List | Map | Hll | Bit

  /** `args` stands for the value and other fields that the operation carries. */
  datatype Operation = Operation(family: Family, verb: Verb, bin: Option<string>, args: int)

  /** Operations that the server applies without changing the record. */
  predicate IsRead(op: Operation) {
    op.verb.Get? || op.verb.Size? || op.verb.Describe? || op.verb.Count? || op.verb.Scan?
  }

  predicate Within(code: int, lo: int, hi: int) {
    lo <= code <= hi
  }

  /** The dispatch table: the constructor of each supported code. */
  function Dispatch(code: int): Option<(Family, Verb)> {
    if code < 1000 then BasicVerb(code)
    else if code < 2000 then ListVerb(code)
    else if code < 3000 then MapVerb(code)
    else if code < 4000 then HllVerb(code)
    else BitVerb(code)
  }

  function BasicVerb(code: int): Option<(Family, Verb)> {
    match code
    case 1 => Some((Basic, Get))
    case 2 => Some((Basic, Put))
    case 5 => Some((Basic, Add))
    case 9 => Some((Basic, Append))
    case 10 => Some((Basic, Prepend))
    case 11 => Some((Basic, Touch))
    case 12 => Some((Basic, Delete))
    case _ => None
  }

  function ListVerb(code: int): Option<(Family, Verb)> {
    if Within(code, 1001, 1002) then Some((List, Append))
    else if Within(code, 1003, 1004) then Some((List, Insert))
    else if Within(code, 1005, 1006) then Some((List, Pop))
    else if Within(code, 1007, 1008) then Some((List, Remove))
    else if code == 1009 then Some((List, Set))
    else if code == 1010 then Some((List, Trim))
    else if code == 1011 then Some((List, Clear))
    else if code == 1012 then Some((List, Size))
    else if Within(code, 1013, 1021) then Some((List, Get))
    else if Within(code, 1022, 1028) then Some((List, Remove))
    else if code == 1029 then Some((List, Increment))
    else if code == 1030 then Some((List, Sort))
    else if code == 1031 then Some((List, SetOrder))
    else None
  }

  function MapVerb(code: int): Option<(Family, Verb)> {
    if code == 2001 then Some((Map, SetOrder))
    else if Within(code, 2002, 2003) then Some((Map, Put))
    else if Within(code, 2004, 2005) then Some((Map, Increment))
    else if code == 2006 then Some((Map, Clear))
    else if Within(code, 2007, 2016) then Some((Map, Remove))
    else if code == 2017 then Some((Map, Size))
    else if Within(code, 2018, 2027) then Some((Map, Get))
    else None
  }

  function HllVerb(code: int): Option<(Family, Verb)> {
    if code == 3001 then Some((Hll, Init))
    else if code == 3002 then Some((Hll, Add))
    else if Within(code, 3003, 3007) then Some((Hll, Get))
    else if code == 3008 then Some((Hll, Describe))
    else if code == 3009 then Some((Hll, Fold))
    else if code == 3010 then Some((Hll, Union))
    else None
  }

  function BitVerb(code: int): Option<(Family, Verb)> {
    if code == 4001 then Some((Bit, Resize))
    else if code == 4002 then Some((Bit, Insert))
    else if code == 4003 then Some((Bit, Remove))
    else if code == 4004 || code == 4013 then Some((Bit, Set))
    else if Within(code, 4005, 4008) then Some((Bit, Logic))
    else if Within(code, 4009, 4010) then Some((Bit, Shift))
    else if Within(code, 4011, 4012) then Some((Bit, Arithmetic))
    else if code == 4050 || code == 4054 then Some((Bit, Get))
    else if code == 4051 then Some((Bit, Count))
    else if Within(code, 4052, 4053) then Some((Bit, Scan))
    else None
  }

  /** `op_code_is_write`: every code that is not listed as a read. */
  predicate OpCodeIsWrite(code: int) {
    !(|| code == 1                      // OP_READ
      || Within(code, 1012, 1021)       // OP_LIST_SIZE .. OP_LIST_GET_BY_VALUE_RANGE
      || Within(code, 2017, 2027)       // OP_MAP_SIZE .. OP_MAP_GET_BY_VALUE_LIST
      || Within(code, 3003, 3008)       // OP_HLL_GET_COUNT .. OP_HLL_DESCRIBE
      || Within(code, 4050, 4054))      // OP_BIT_GET .. OP_BIT_GET_INT
  }

  datatype OpError = NotADict | MissingBin | Unsupported | BadField(what: int)

  /**
   One element of the list: what extracting its `op`, `bin` and `val` gives, and what the arm of its
   code makes of `val` and the other fields.
   */
  datatype Item =
    | Other
    | OpDict(code: Result<int, OpError>, bin: Result<Option<string>, OpError>, val: Result<(), OpError>,
             args: Result<int, OpError>)

  /** Reads, touches and deletes may go without a bin; the latter two never look at one. */
  predicate NeedsBin(code: int) {
    code != 1 && !IgnoresBin(code)
  }

  predicate IgnoresBin(code: int) {
    code == 11 || code == 12
  }

  /** One iteration of the conversion loop; the dispatch comes after `op`, `bin` and `val` are extracted. */
  function ParseOp(item: Item): Result<Operation, OpError> {
    match item
    case Other => Failure(NotADict)
    case OpDict(code, bin, val, args) =>
      if code.Failure? then Failure(code.error)
      else if bin.Failure? then Failure(bin.error)
      else if val.Failure? then Failure(val.error)
      else if Dispatch(code.value).None? then Failure(Unsupported)
      else if NeedsBin(code.value) && bin.value.None? then Failure(MissingBin)
      else if args.Failure? then Failure(args.error)
      else
        var (family, verb) := Dispatch(code.value).value;
        Success(Operation(family, verb, if IgnoresBin(code.value) then None else bin.value, args.value))
  }

  /** The two tables agree: an operation converted from a code is a write exactly when the code says so. */
  lemma CodeTellsWrite(item: Item)
    requires ParseOp(item).Success?
    ensures OpCodeIsWrite(item.code.value) <==> !IsRead(ParseOp(item).value)
  {
  }

  /** A code outside the dispatch table is never taken for a read. */
  lemma UnknownCodesAreWrites(code: int)
    ensures Dispatch(code).None? ==> OpCodeIsWrite(code)
  {
  }

  /** The item's own operation: on its bin, with its arguments, in its code's family, and a write if that is one. */
  predicate IsOwnOperation(item: Item, op: Operation) {
    && item.OpDict? && item.code.Success? && item.bin.Success? && item.val.Success? && item.args.Success?
    && var code := item.code.value;
       && op.args == item.args.value
       && (op.bin == if code in {11, 12} then None else item.bin.value)
       && (op.bin == None ==> code in {1, 11, 12})
       && (match op.family
           case Basic => code < 1000
           case List => 1000 <= code < 2000
           case Map => 2000 <= code < 3000
           case Hll => 3000 <= code < 4000
           case Bit => 4000 <= code)
       && (OpCodeIsWrite(code) <==> !IsRead(op))
  }

  lemma ConvertsOwnOperation(item: Item)
    requires ParseOp(item).Success?
    ensures IsOwnOperation(item, ParseOp(item).value)
  {
    CodeTellsWrite(item);
  }

  datatype BinValue = Number(n: int) | Text(s: string)

  type Bins = map<string, BinValue>

  /** What the server makes of a record, if there is one, on the constructors of the basic operations. */
  function Applied(record: Option<Bins>, op: Operation, v: BinValue): Option<Bins> {
    if op.verb.Delete? then None
    else if IsRead(op) || op.verb.Touch? || op.bin.None? then record
    else
      var bins, b := if record.Some? then record.value else map[], op.bin.value;
      Some(bins[b := if b in bins then Written(op.verb, bins[b], v) else v])
  }

  /** The new value of a bin that is there; a value of another type is refused, which leaves the bin alone. */
  function Written(verb: Verb, was: BinValue, v: BinValue): BinValue {
    match verb
    case Put => v
    case Add => if was.Number? && v.Number? then Number(was.n + v.n) else was
    case Append => if was.Text? && v.Text? then Text(was.s + v.s) else was
    case Prepend => if was.Text? && v.Text? then Text(v.s + was.s) else was
    case _ => was
  }

  /** What each basic code does to a record, on the bin that it names. */
  lemma BasicCodesDo(item: Item, bins: Bins, b: string, v: BinValue)
    requires ParseOp(item).Success? && item.code.value < 1000
    requires item.code.value !in {11, 12} ==> item.bin.value == Some(b)
    ensures var op, code := ParseOp(item).value, item.code.value;
            && code in {1, 2, 5, 9, 10, 11, 12}
            && (code == 1 ==> IsRead(op) && Applied(Some(bins), op, v) == Some(bins))
            && (code == 2 ==> Applied(Some(bins), op, v) == Some(bins[b := v]))
            && (code == 5 && b in bins && bins[b].Number? && v.Number? ==>
                  Applied(Some(bins), op, v) == Some(bins[b := Number(bins[b].n + v.n)]))
            && (code == 9 && b in bins && bins[b].Text? && v.Text? ==>
                  Applied(Some(bins), op, v) == Some(bins[b := Text(bins[b].s + v.s)]))
            && (code == 10 && b in bins && bins[b].Text? && v.Text? ==>
                  Applied(Some(bins), op, v) == Some(bins[b := Text(v.s + bins[b].s)]))
            && (code in {2, 5, 9, 10} && b !in bins ==> Applied(Some(bins), op, v) == Some(bins[b := v]))
            && (code in {2, 5, 9, 10} ==> Applied(None, op, v) == Some(map[b := v]))
            && (code == 11 ==> !IsRead(op) && Applied(Some(bins), op, v) == Some(bins))
            && (code == 12 ==> Applied(Some(bins), op, v) == None)
  {
  }

  predicate HasWrite(ops: seq<Operation>) {
    exists i: nat :: i < |ops| && !IsRead(ops[i])
  }

  /**
   `py_ops_to_rust_checked`: converts all operations in order or fails with the error of the first
   bad one; the flag says whether the converted list has a write.
   */
  method PyOpsToRustChecked(items: seq<Item>) returns (r: Result<(seq<Operation>, bool), OpError>)
    ensures r.Success? <==> forall i: nat :: i < |items| ==> ParseOp(items[i]).Success?
    ensures r.Success? ==>
      && |r.value.0| == |items|
      && (forall i: nat :: i < |items| ==> ParseOp(items[i]) == Success(r.value.0[i]))
      && (forall i: nat :: i < |items| ==> IsOwnOperation(items[i], r.value.0[i]))
      && (r.value.1 <==> HasWrite(r.value.0))
    ensures r.Failure? ==>
      exists i: nat :: i < |items| && ParseOp(items[i]) == Failure(r.error)
                       && forall j: nat :: j < i ==> ParseOp(items[j]).Success?
  {
    var ops: seq<Operation>, hasWrite := [], false;
    for n := 0 to |items|
      invariant |ops| == n && forall i: nat :: i < n ==> ParseOp(items[i]) == Success(ops[i])
      invariant forall i: nat :: i < n ==> IsOwnOperation(items[i], ops[i])
      invariant hasWrite <==> HasWrite(ops)
    {
      match ParseOp(items[n]) {
        case Failure(e) =>
          return Failure(e);
        case Success(op) =>
          ConvertsOwnOperation(items[n]);
          HasWriteSnoc(ops, op);
          hasWrite := hasWrite || OpCodeIsWrite(items[n].code.value);
          ops := ops + [op];
      }
    }
    r := Success((ops, hasWrite));
  }

  lemma HasWriteSnoc(ops: seq<Operation>, op: Operation)
    ensures HasWrite(ops + [op]) <==> HasWrite(ops) || !IsRead(op)
  {
    var all := ops + [op];
    if i: nat :| i < |ops| && !IsRead(ops[i]) {
      assert all[i] == ops[i];
    }
    if !IsRead(op) {
      assert all[|ops|] == op;
    }
  }

  // ---- Routing --------------------------------------------------------------------------

  datatype BatchEntry = ReadOps(key: int, ops: seq<Operation>) | WriteOps(key: int, ops: seq<Operation>)

  datatype BatchOperateArgs = BatchOperateArgs(keys: seq<int>, ops: seq<Operation>, hasWrite: bool)

  /** `to_batch_ops`. */
  function ToBatchOps(args: BatchOperateArgs): seq<BatchEntry> {
    if !args.hasWrite then seq(|args.keys|, i requires 0 <= i < |args.keys| => ReadOps(args.keys[i], args.ops))
    else seq(|args.keys|, i requires 0 <= i < |args.keys| => WriteOps(args.keys[i], args.ops))
  }

  /** The core library refuses a batch write without a write; a batch read must not hide a write. */
  predicate WellRouted(entry: BatchEntry) {
    entry.WriteOps? <==> HasWrite(entry.ops)
  }

  /**
   `batch_operate` from the Python lists to the batch entries: one entry for each key, in order,
   each carrying the whole converted list, and each well routed.
   */
  method BatchOperate(items: seq<Item>, keys: seq<int>) returns (r: Result<seq<BatchEntry>, OpError>)
    ensures r.Success? <==> forall i: nat :: i < |items| ==> ParseOp(items[i]).Success?
    ensures r.Success? ==>
      && |r.value| == |keys|
      && forall k: nat :: k < |keys| ==>
           && r.value[k].key == keys[k] && WellRouted(r.value[k])
           && |r.value[k].ops| == |items|
           && forall i: nat :: i < |items| ==> ParseOp(items[i]) == Success(r.value[k].ops[i])
  {
    var converted := PyOpsToRustChecked(items);
    if converted.Failure? {
      return Failure(converted.error);
    }
    r := Success(ToBatchOps(BatchOperateArgs(keys, converted.value.0, converted.value.1)));
  }
}
