/**
 Conversion of Python expression dicts to filter expressions (rust/src/expressions.rs).

 The input is a heap of Python objects with references, not a tree: dicts may be shared and may
 reach themselves. Nothing but the depth cap makes the conversion end.
 */
module ExprConverter {
  import opened Wrappers

  const MAX_EXPRESSION_DEPTH: nat := 64

  // ---- Operations, grouped by the shape of their dict ------------------------------------

  datatype NullaryOp =
    | Nil | Infinity | Wildcard | KeyExists | SetName | RecordSize | LastUpdate | SinceUpdate | VoidTime | Ttl
      | IsTombstone

  datatype BinAccessor =
    | IntBin | FloatBin | StringBin | BoolBin | BlobBin | ListBin | MapBin | GeoBin | HllBin | BinExists | BinType

  datatype Comparison = Eq | Ne | Gt | Ge | Lt | Le | GeoCompare

  datatype VariadicKind =
    | And | Or | Xor | NumAdd | NumSub | NumMul | NumDiv | Min | Max | IntAnd | IntOr | IntXor | Cond | Let

  datatype UnaryKind = NumAbs | NumFloor | NumCeil | ToInt | ToFloat | IntNot | IntCount

  datatype PairKind = NumMod | NumPow | NumLog | IntLshift | IntRshift | IntArshift | IntLscan | IntRscan

  /** The string under `__expr__`. */
  datatype Op =
    | IntValOp | FloatValOp | StringValOp | BoolValOp | BlobValOp | ListValOp | MapValOp | GeoValOp
    | NullaryOf(nullary: NullaryOp)
    | BinOf(accessor: BinAccessor)
    | KeyOp
    | DigestModuloOp
    | CompareOf(comparison: Comparison)
    | NotOp
    | VariadicOf(variadic: VariadicKind)
    | UnaryOf(unary: UnaryKind)
    | PairOf(pair: PairKind)
    | RegexOp
    | VarOp
    | DefOp
    | UnknownOp(name: string)

  /** A converted element of a Python list or dict value. */
  type Val = int

  /** `aerospike_core::Expression`, as far as its constructors distinguish. */
  datatype Expr =
    | IntVal(i: int)
    | FloatVal(bits: nat)
    | StringVal(str: string)
    | BoolVal(b: bool)
    | BlobVal(bytes: seq<nat>)
    | ListVal(values: seq<Val>)
    | MapVal(entries: map<Val, Val>)
    | GeoVal(geo: string)
    | Nullary(nullary: NullaryOp)
    | Bin(accessor: BinAccessor, binName: string)
    | Key(expType: int)
    | DigestModulo(modulo: int)
    | Compare(comparison: Comparison, left: Expr, right: Expr)
    | Not(expr: Expr)
    | Variadic(variadic: VariadicKind, exprs: seq<Expr>)
    | Unary(unary: UnaryKind, operand: Expr)
    | Pair(pair: PairKind, first: Expr, second: Expr)
    | Regex(regex: string, flags: int, subject: Expr)
    | Var(varName: string)
    | Def(defName: string, value: Expr)

  // ---- The Python heap ------------------------------------------------------------------

  /** The dict keys the converter looks at. */
  datatype Field =
    | TagF | ValF | NameF | ExpTypeF | ModuloF | LeftF | RightF | ExprF | ExprsF | RegexF | FlagsF | BinF | ValueF

  datatype Obj =
    | DictObj(fields: map<Field, nat>)
    | ListObj(items: seq<nat>)
    | OpObj(op: Op)
    | IntObj(i: int)
    | FloatObj(bits: nat)
    | StrObj(str: string)
    | BoolObj(b: bool)
    | BytesObj(bytes: seq<nat>)
    | ValuesObj(values: seq<Val>)
    | ValueMapObj(entries: map<Val, Val>)
    | OtherObj

  type Heap = seq<Obj>

  datatype ConvertError =
    | TooDeep
    | NotADict
    | MissingTag
    | MissingField
    | WrongType
    | OutOfRange
    | EmptyBinName
    | BadExpType
    | UnknownExpression
    | EmptyOperands
    | CondArity
    | LetArity
    | UnaryArity
    | PairArity

  function Deref(h: Heap, r: nat): Obj {
    if r < |h| then h[r] else OtherObj
  }

  predicate InInt64(i: int) {
    -0x8000_0000_0000_0000 <= i < 0x8000_0000_0000_0000
  }

  // ---- Field extraction -----------------------------------------------------------------

  function GetRequired(h: Heap, d: map<Field, nat>, f: Field): Result<Obj, ConvertError> {
    if f in d then Success(Deref(h, d[f])) else Failure(MissingField)
  }

  function GetInt(h: Heap, d: map<Field, nat>, f: Field): Result<int, ConvertError> {
    match GetRequired(h, d, f)
    case Failure(e) => Failure(e)
    case Success(o) =>
      if !o.IntObj? then Failure(WrongType)
      else if !InInt64(o.i) then Failure(OutOfRange)
      else Success(o.i)
  }

  function GetStr(h: Heap, d: map<Field, nat>, f: Field): Result<string, ConvertError> {
    match GetRequired(h, d, f)
    case Failure(e) => Failure(e)
    case Success(o) => if o.StrObj? then Success(o.str) else Failure(WrongType)
  }

  /** The operations whose dict holds no sub-expression. */
  predicate IsLeafOp(op: Op) {
    !(op.CompareOf? || op.NotOp? || op.VariadicOf? || op.UnaryOf? || op.PairOf? || op.RegexOp? || op.DefOp?)
  }

  function ConvertLeaf(h: Heap, d: map<Field, nat>, op: Op): Result<Expr, ConvertError>
    requires IsLeafOp(op)
  {
    match op
    case IntValOp =>
      (match GetInt(h, d, ValF) case Success(i) => Success(IntVal(i)) case Failure(e) => Failure(e))
    case FloatValOp =>
      (match GetRequired(h, d, ValF)
       case Success(o) => if o.FloatObj? then Success(FloatVal(o.bits)) else Failure(WrongType)
       case Failure(e) => Failure(e))
    case StringValOp =>
      (match GetStr(h, d, ValF) case Success(s) => Success(StringVal(s)) case Failure(e) => Failure(e))
    case BoolValOp =>
      (match GetRequired(h, d, ValF)
       case Success(o) => if o.BoolObj? then Success(BoolVal(o.b)) else Failure(WrongType)
       case Failure(e) => Failure(e))
    case BlobValOp =>
      (match GetRequired(h, d, ValF)
       case Success(o) => if o.BytesObj? then Success(BlobVal(o.bytes)) else Failure(WrongType)
       case Failure(e) => Failure(e))
    case ListValOp =>
      (match GetRequired(h, d, ValF)
       case Success(o) => if o.ValuesObj? then Success(ListVal(o.values)) else Failure(WrongType)
       case Failure(e) => Failure(e))
    case MapValOp =>
      (match GetRequired(h, d, ValF)
       case Success(o) => if o.ValueMapObj? then Success(MapVal(o.entries)) else Failure(WrongType)
       case Failure(e) => Failure(e))
    case GeoValOp =>
      (match GetStr(h, d, ValF) case Success(s) => Success(GeoVal(s)) case Failure(e) => Failure(e))
    case NullaryOf(n) => Success(Nullary(n))
    case BinOf(accessor) =>
      (match GetStr(h, d, NameF)
       case Success(name) => if name == "" then Failure(EmptyBinName) else Success(Bin(accessor, name))
       case Failure(e) => Failure(e))
    case KeyOp =>
      (match GetInt(h, d, ExpTypeF)
       case Success(i) => if 0 <= i <= 9 then Success(Key(i)) else Failure(BadExpType)
       case Failure(e) => Failure(e))
    case DigestModuloOp =>
      (match GetInt(h, d, ModuloF) case Success(i) => Success(DigestModulo(i)) case Failure(e) => Failure(e))
    case VarOp =>
      (match GetStr(h, d, NameF) case Success(name) => Success(Var(name)) case Failure(e) => Failure(e))
    case UnknownOp(_) => Failure(UnknownExpression)
  }

  // ---- The converter --------------------------------------------------------------------

  function DepthLeft(depth: nat): nat {
    if depth > MAX_EXPRESSION_DEPTH then 0 else MAX_EXPRESSION_DEPTH + 1 - depth
  }

  /** `py_to_expression_inner`. */
  function Convert(h: Heap, r: nat, depth: nat): Result<Expr, ConvertError>
    decreases DepthLeft(depth), 0
  {
    if depth > MAX_EXPRESSION_DEPTH then Failure(TooDeep)
    else if !Deref(h, r).DictObj? then Failure(NotADict)
    else
      var d := Deref(h, r).fields;
      if TagF !in d then Failure(MissingTag)
      else if !Deref(h, d[TagF]).OpObj? then Failure(WrongType)
      else
        var op := Deref(h, d[TagF]).op;
        match op
        case CompareOf(c) =>
          (match ParseSubExpr(h, d, LeftF, depth)
           case Failure(e) => Failure(e)
           case Success(left) =>
             match ParseSubExpr(h, d, RightF, depth)
             case Failure(e) => Failure(e)
             case Success(right) => Success(Compare(c, left, right)))
        case NotOp =>
          (match ParseSubExpr(h, d, ExprF, depth)
           case Failure(e) => Failure(e)
           case Success(x) => Success(Not(x)))
        case VariadicOf(v) =>
          (match ParseSubExprs(h, d, depth)
           case Failure(e) => Failure(e)
           case Success(xs) =>
             if |xs| == 0 then Failure(EmptyOperands)
             else if v == Cond && (|xs| < 3 || |xs| % 2 == 0) then Failure(CondArity)
             else if v == Let && |xs| < 2 then Failure(LetArity)
             else Success(Variadic(v, xs)))
        case UnaryOf(u) =>
          (match ParseSubExprs(h, d, depth)
           case Failure(e) => Failure(e)
           case Success(xs) => if |xs| == 0 then Failure(UnaryArity) else Success(Unary(u, xs[0])))
        case PairOf(p) =>
          (match ParseSubExprs(h, d, depth)
           case Failure(e) => Failure(e)
           case Success(xs) => if |xs| != 2 then Failure(PairArity) else Success(Pair(p, xs[0], xs[1])))
        case RegexOp =>
          (match GetStr(h, d, RegexF)
           case Failure(e) => Failure(e)
           case Success(regex) =>
             match GetInt(h, d, FlagsF)
             case Failure(e) => Failure(e)
             case Success(flags) =>
               match ParseSubExpr(h, d, BinF, depth)
               case Failure(e) => Failure(e)
               case Success(x) => Success(Regex(regex, flags, x)))
        case DefOp =>
          (match GetStr(h, d, NameF)
           case Failure(e) => Failure(e)
           case Success(name) =>
             match ParseSubExpr(h, d, ValueF, depth)
             case Failure(e) => Failure(e)
             case Success(x) => Success(Def(name, x)))
        case _ => ConvertLeaf(h, d, op)
  }

  function ParseSubExpr(h: Heap, d: map<Field, nat>, f: Field, depth: nat): Result<Expr, ConvertError>
    requires depth <= MAX_EXPRESSION_DEPTH
    decreases DepthLeft(depth + 1), 1
  {
    if f in d then Convert(h, d[f], depth + 1) else Failure(MissingField)
  }

  function ParseSubExprs(h: Heap, d: map<Field, nat>, depth: nat): Result<seq<Expr>, ConvertError>
    requires depth <= MAX_EXPRESSION_DEPTH
    decreases DepthLeft(depth + 1), 3
  {
    if ExprsF !in d then Failure(MissingField)
    else if !Deref(h, d[ExprsF]).ListObj? then Failure(WrongType)
    else ConvertAll(h, Deref(h, d[ExprsF]).items, depth + 1)
  }

  /** The conversions of a list's items, each on its own. */
  function Results(h: Heap, items: seq<nat>, depth: nat): (rs: seq<Result<Expr, ConvertError>>)
    ensures |rs| == |items|
    ensures forall i :: 0 <= i < |items| ==> rs[i] == Convert(h, items[i], depth)
    decreases DepthLeft(depth), 1
  {
    seq(|items|, i requires 0 <= i < |items| => Convert(h, items[i], depth))
  }

  /** All values in order, or the first failure. */
  function Collect(rs: seq<Result<Expr, ConvertError>>): Result<seq<Expr>, ConvertError> {
    if rs == [] then Success([])
    else
      var n := |rs| - 1;
      match Collect(rs[..n])
      case Failure(e) => Failure(e)
      case Success(xs) =>
        match rs[n]
        case Failure(e) => Failure(e)
        case Success(x) => Success(xs + [x])
  }

  function ConvertAll(h: Heap, items: seq<nat>, depth: nat): Result<seq<Expr>, ConvertError>
    decreases DepthLeft(depth), 2
  {
    Collect(Results(h, items, depth))
  }

  /** The loop of `parse_sub_expr_list`, which returns at the first item that fails. */
  method ParseSubExprList(h: Heap, items: seq<nat>, depth: nat) returns (r: Result<seq<Expr>, ConvertError>)
    ensures r == ConvertAll(h, items, depth)
  {
    ghost var rs := Results(h, items, depth);
    var result: seq<Expr> := [];
    for i := 0 to |items|
      invariant Collect(rs[..i]) == Success(result)
    {
      assert rs[..i + 1][..i] == rs[..i];
      match Convert(h, items[i], depth) {
        case Failure(e) =>
          FailurePropagates(rs, i + 1);
          return Failure(e);
        case Success(x) =>
          result := result + [x];
      }
    }
    assert rs[..|items|] == rs;
    r := Success(result);
  }

  lemma {:induction false} FailurePropagates(rs: seq<Result<Expr, ConvertError>>, i: nat)
    requires i <= |rs| && Collect(rs[..i]).Failure?
    ensures Collect(rs) == Collect(rs[..i])
    decreases |rs|
  {
    if i == |rs| {
      assert rs[..i] == rs;
    } else {
      var n := |rs| - 1;
      assert rs[..n][..i] == rs[..i];
      FailurePropagates(rs[..n], i);
    }
  }

  /** `py_to_expression`. */
  function PyToExpression(h: Heap, r: nat): Result<Expr, ConvertError> {
    Convert(h, r, 0)
  }
}
