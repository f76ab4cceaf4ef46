/**
 The builder functions of src/aerospike_py/exp.py and the round trip through the converter.

 A builder allocates a fresh dict (and list) that refers to the operand dicts it was given.
 `Build` is what a nest of builder calls leaves on the Python heap for an abstract expression.
 */
module ExprBuilder {
  import opened Wrappers
  import opened ExprConverter
  import opened ExprUnfolding

  datatype Built = Built(heap: Heap, ref: nat)

  /** `_cmd` with scalar arguments only. */
  function CmdScalar(h: Heap, op: Op, f: Field, arg: Obj): Built {
    Built(h + [OpObj(op), arg, DictObj(map[TagF := |h|, f := |h| + 1])], |h| + 2)
  }

  function CmdNullary(h: Heap, op: Op): Built {
    Built(h + [OpObj(op), DictObj(map[TagF := |h|])], |h| + 1)
  }

  /** `_cmd(op, exprs=[...])`. */
  function CmdExprs(h: Heap, op: Op, refs: seq<nat>): Built {
    Built(h + [OpObj(op), ListObj(refs), DictObj(map[TagF := |h|, ExprsF := |h| + 1])], |h| + 2)
  }

  function Build(h: Heap, e: Expr): Built
    decreases e
  {
    match e
    case IntVal(i) => CmdScalar(h, IntValOp, ValF, IntObj(i))
    case FloatVal(bits) => CmdScalar(h, FloatValOp, ValF, FloatObj(bits))
    case StringVal(s) => CmdScalar(h, StringValOp, ValF, StrObj(s))
    case BoolVal(b) => CmdScalar(h, BoolValOp, ValF, BoolObj(b))
    case BlobVal(bytes) => CmdScalar(h, BlobValOp, ValF, BytesObj(bytes))
    case ListVal(values) => CmdScalar(h, ListValOp, ValF, ValuesObj(values))
    case MapVal(entries) => CmdScalar(h, MapValOp, ValF, ValueMapObj(entries))
    case GeoVal(geo) => CmdScalar(h, GeoValOp, ValF, StrObj(geo))
    case Nullary(n) => CmdNullary(h, NullaryOf(n))
    case Bin(accessor, name) => CmdScalar(h, BinOf(accessor), NameF, StrObj(name))
    case Key(t) => CmdScalar(h, KeyOp, ExpTypeF, IntObj(t))
    case DigestModulo(m) => CmdScalar(h, DigestModuloOp, ModuloF, IntObj(m))
    case Var(name) => CmdScalar(h, VarOp, NameF, StrObj(name))
    case Compare(c, left, right) =>
      var l := Build(h, left);
      var r := Build(l.heap, right);
      var n := |r.heap|;
      Built(r.heap + [OpObj(CompareOf(c)), DictObj(map[TagF := n, LeftF := l.ref, RightF := r.ref])], n + 1)
    case Not(x) =>
      var b := Build(h, x);
      var n := |b.heap|;
      Built(b.heap + [OpObj(NotOp), DictObj(map[TagF := n, ExprF := b.ref])], n + 1)
    case Variadic(v, xs) =>
      var (g, refs) := BuildAll(h, xs);
      CmdExprs(g, VariadicOf(v), refs)
    case Unary(u, x) =>
      var b := Build(h, x);
      CmdExprs(b.heap, UnaryOf(u), [b.ref])
    case Pair(p, x, y) =>
      var a := Build(h, x);
      var b := Build(a.heap, y);
      CmdExprs(b.heap, PairOf(p), [a.ref, b.ref])
    case Regex(regex, flags, x) =>
      var b := Build(h, x);
      var n := |b.heap|;
      Built(b.heap + [OpObj(RegexOp), StrObj(regex), IntObj(flags),
                      DictObj(map[TagF := n, RegexF := n + 1, FlagsF := n + 2, BinF := b.ref])], n + 3)
    case Def(name, x) =>
      var b := Build(h, x);
      var n := |b.heap|;
      Built(b.heap + [OpObj(DefOp), StrObj(name), DictObj(map[TagF := n, NameF := n + 1, ValueF := b.ref])], n + 2)
  }

  /** Arguments are built left to right. */
  function BuildAll(h: Heap, xs: seq<Expr>): (Heap, seq<nat>)
    decreases xs
  {
    if xs == [] then (h, [])
    else
      var n := |xs| - 1;
      var (g, refs) := BuildAll(h, xs[..n]);
      var b := Build(g, xs[n]);
      (b.heap, refs + [b.ref])
  }

  /** Arities and scalar arguments that the converter accepts at one node. */
  predicate LegalNode(e: Expr) {
    match e
    case IntVal(i) => InInt64(i)
    case Bin(_, name) => name != ""
    case Key(t) => 0 <= t <= 9
    case DigestModulo(m) => InInt64(m)
    case Variadic(v, xs) => ArityOk(VariadicOf(v), |xs|)
    case Regex(_, flags, _) => InInt64(flags)
    case _ => true
  }

  function Subs(e: Expr): (xs: seq<Expr>)
    ensures forall i :: 0 <= i < |xs| ==> xs[i] < e
  {
    match e
    case Compare(_, l, r) => [l, r]
    case Not(x) => [x]
    case Variadic(_, xs) => xs
    case Unary(_, x) => [x]
    case Pair(_, x, y) => [x, y]
    case Regex(_, _, x) => [x]
    case Def(_, x) => [x]
    case _ => []
  }

  /** Legal throughout and at most `n` levels below the root. */
  ghost predicate LegalWithin(e: Expr, n: int) {
    n >= 0 && LegalNode(e) && forall i :: 0 <= i < |Subs(e)| ==> LegalWithin(Subs(e)[i], n - 1)
  }

  // ---- What the builders leave on the heap ----------------------------------------------

  lemma {:induction false} BuildGrows(h: Heap, e: Expr)
    ensures h <= Build(h, e).heap && Build(h, e).ref < |Build(h, e).heap|
    decreases e
  {
    match e {
      case Compare(c, l, r) =>
        BuildGrows(h, l);
        BuildGrows(Build(h, l).heap, r);
      case Not(x) => BuildGrows(h, x);
      case Variadic(v, xs) => BuildAllGrows(h, xs);
      case Unary(u, x) => BuildGrows(h, x);
      case Pair(p, x, y) =>
        BuildGrows(h, x);
        BuildGrows(Build(h, x).heap, y);
      case Regex(s, f, x) => BuildGrows(h, x);
      case Def(s, x) => BuildGrows(h, x);
      case _ =>
    }
  }

  lemma {:induction false} BuildAllGrows(h: Heap, xs: seq<Expr>)
    ensures h <= BuildAll(h, xs).0 && |BuildAll(h, xs).1| == |xs|
    decreases xs
  {
    if xs != [] {
      var n := |xs| - 1;
      BuildAllGrows(h, xs[..n]);
      BuildGrows(BuildAll(h, xs[..n]).0, xs[n]);
    }
  }

  /** Object `r` of heap `g` was made by the builders for `e`. */
  ghost predicate BuiltIn(g: Heap, r: nat, e: Expr) {
    exists h :: Build(h, e).heap <= g && Build(h, e).ref == r
  }

  lemma {:induction false} AllBuiltIn(h: Heap, xs: seq<Expr>, g: Heap)
    requires BuildAll(h, xs).0 <= g
    ensures |BuildAll(h, xs).1| == |xs|
    ensures forall i :: 0 <= i < |xs| ==> BuiltIn(g, BuildAll(h, xs).1[i], xs[i])
    decreases |xs|
  {
    BuildAllGrows(h, xs);
    if xs != [] {
      var n := |xs| - 1;
      var (front, refs) := BuildAll(h, xs[..n]);
      BuildGrows(front, xs[n]);
      AllBuiltIn(h, xs[..n], g);
      assert Build(front, xs[n]).heap <= g;
      forall i | 0 <= i < |xs|
        ensures BuiltIn(g, BuildAll(h, xs).1[i], xs[i])
      {
        if i < n {
          assert xs[..n][i] == xs[i];
        }
      }
    }
  }

  /** What the converter sees of a built node. */
  ghost predicate NodeRoundTrip(g: Heap, r: nat, e: Expr) {
    SeenAs(g, r, e) && SubsBuiltIn(g, Operands(g, r).value, e)
  }

  ghost predicate SubsBuiltIn(g: Heap, refs: seq<nat>, e: Expr) {
    |refs| == |Subs(e)| && forall i :: 0 <= i < |refs| ==> BuiltIn(g, refs[i], Subs(e)[i])
  }

  ghost predicate SeenAs(g: Heap, r: nat, e: Expr) {
    && Operands(g, r).Some?
    && |Operands(g, r).value| == |Subs(e)|
    && (NodeOk(g, r) <==> LegalNode(e))
    && (NodeOk(g, r) ==> NodeExpr(g, r, Subs(e)) == e)
  }

  lemma BuiltScalar(h: Heap, op: Op, f: Field, arg: Obj, g: Heap)
    requires CmdScalar(h, op, f, arg).heap <= g && f != TagF
    ensures OpOf(g, CmdScalar(h, op, f, arg).ref) == Some(op)
    ensures GetRequired(g, Deref(g, CmdScalar(h, op, f, arg).ref).fields, f) == Success(arg)
  {
    var b := CmdScalar(h, op, f, arg);
    assert g[|h|] == b.heap[|h|] && g[|h| + 1] == b.heap[|h| + 1] && g[|h| + 2] == b.heap[|h| + 2];
  }

  predicate IsScalar(e: Expr) {
    e.IntVal? || e.FloatVal? || e.StringVal? || e.BoolVal?
  }

  predicate IsCompound(e: Expr) {
    e.BlobVal? || e.ListVal? || e.MapVal? || e.GeoVal?
  }

  lemma BuiltValue(h: Heap, e: Expr, g: Heap)
    requires Build(h, e).heap <= g && IsScalar(e)
    ensures NodeRoundTrip(g, Build(h, e).ref, e)
  {
    match e {
      case IntVal(i) => BuiltScalar(h, IntValOp, ValF, IntObj(i), g);
      case FloatVal(bits) => BuiltScalar(h, FloatValOp, ValF, FloatObj(bits), g);
      case StringVal(x) => BuiltScalar(h, StringValOp, ValF, StrObj(x), g);
      case BoolVal(x) => BuiltScalar(h, BoolValOp, ValF, BoolObj(x), g);
    }
  }

  lemma BuiltCompound(h: Heap, e: Expr, g: Heap)
    requires Build(h, e).heap <= g && IsCompound(e)
    ensures NodeRoundTrip(g, Build(h, e).ref, e)
  {
    match e {
      case BlobVal(x) => BuiltScalar(h, BlobValOp, ValF, BytesObj(x), g);
      case ListVal(x) => BuiltScalar(h, ListValOp, ValF, ValuesObj(x), g);
      case MapVal(x) => BuiltScalar(h, MapValOp, ValF, ValueMapObj(x), g);
      case GeoVal(x) => BuiltScalar(h, GeoValOp, ValF, StrObj(x), g);
    }
  }

  lemma BuiltNullary(h: Heap, e: Expr, g: Heap)
    requires Build(h, e).heap <= g && e.Nullary?
    ensures NodeRoundTrip(g, Build(h, e).ref, e)
  {
    var b := Build(h, e);
    assert g[|h|] == b.heap[|h|] && g[|h| + 1] == b.heap[|h| + 1];
  }

  lemma BuiltName(h: Heap, e: Expr, g: Heap)
    requires Build(h, e).heap <= g && (e.Bin? || e.Var?)
    ensures NodeRoundTrip(g, Build(h, e).ref, e)
  {
    match e {
      case Bin(accessor, name) => BuiltScalar(h, BinOf(accessor), NameF, StrObj(name), g);
      case Var(name) => BuiltScalar(h, VarOp, NameF, StrObj(name), g);
    }
  }

  lemma BuiltNumber(h: Heap, e: Expr, g: Heap)
    requires Build(h, e).heap <= g && (e.Key? || e.DigestModulo?)
    ensures NodeRoundTrip(g, Build(h, e).ref, e)
  {
    match e {
      case Key(t) => BuiltScalar(h, KeyOp, ExpTypeF, IntObj(t), g);
      case DigestModulo(m) => BuiltScalar(h, DigestModuloOp, ModuloF, IntObj(m), g);
    }
  }

  lemma BuiltExprs(h: Heap, op: Op, refs: seq<nat>, g: Heap)
    requires CmdExprs(h, op, refs).heap <= g
    requires op.VariadicOf? || op.UnaryOf? || op.PairOf?
    ensures OpOf(g, CmdExprs(h, op, refs).ref) == Some(op)
    ensures Operands(g, CmdExprs(h, op, refs).ref) == Some(refs)
  {
    var b := CmdExprs(h, op, refs);
    assert g[|h|] == b.heap[|h|] && g[|h| + 1] == b.heap[|h| + 1] && g[|h| + 2] == b.heap[|h| + 2];
  }

  lemma BuiltVariadic(h: Heap, e: Expr, g: Heap)
    requires Build(h, e).heap <= g && e.Variadic?
    ensures NodeRoundTrip(g, Build(h, e).ref, e)
  {
    var (front, refs) := BuildAll(h, e.exprs);
    AllBuiltIn(h, e.exprs, g);
    BuiltExprs(front, VariadicOf(e.variadic), refs, g);
  }

  lemma BuiltUnary(h: Heap, e: Expr, g: Heap)
    requires Build(h, e).heap <= g && e.Unary?
    ensures NodeRoundTrip(g, Build(h, e).ref, e)
  {
    var b := Build(h, e.operand);
    BuiltExprs(b.heap, UnaryOf(e.unary), [b.ref], g);
    assert BuiltIn(g, b.ref, e.operand);
  }

  lemma BuiltPair(h: Heap, e: Expr, g: Heap)
    requires Build(h, e).heap <= g && e.Pair?
    ensures NodeRoundTrip(g, Build(h, e).ref, e)
  {
    var a := Build(h, e.first);
    var b := Build(a.heap, e.second);
    BuildGrows(a.heap, e.second);
    BuiltExprs(b.heap, PairOf(e.pair), [a.ref, b.ref], g);
    assert BuiltIn(g, a.ref, e.first) && BuiltIn(g, b.ref, e.second);
  }

  lemma BuiltCompare(h: Heap, e: Expr, g: Heap)
    requires Build(h, e).heap <= g && e.Compare?
    ensures NodeRoundTrip(g, Build(h, e).ref, e)
  {
    var a := Build(h, e.left);
    var b := Build(a.heap, e.right);
    BuildGrows(a.heap, e.right);
    assert BuiltIn(g, a.ref, e.left) && BuiltIn(g, b.ref, e.right);
    var out, n := Build(h, e), |b.heap|;
    assert g[n] == out.heap[n] && g[n + 1] == out.heap[n + 1];
    assert OpOf(g, out.ref) == Some(CompareOf(e.comparison));
    assert Operands(g, out.ref) == Some([a.ref, b.ref]);
  }

  lemma BuiltNot(h: Heap, e: Expr, g: Heap)
    requires Build(h, e).heap <= g && e.Not?
    ensures NodeRoundTrip(g, Build(h, e).ref, e)
  {
    var b := Build(h, e.expr);
    var out, n := Build(h, e), |b.heap|;
    assert g[n] == out.heap[n] && g[n + 1] == out.heap[n + 1];
    assert OpOf(g, out.ref) == Some(NotOp);
    assert Operands(g, out.ref) == Some([b.ref]);
    assert b.heap <= g;
    assert BuiltIn(g, b.ref, e.expr);
  }

  lemma BuiltDef(h: Heap, e: Expr, g: Heap)
    requires Build(h, e).heap <= g && e.Def?
    ensures NodeRoundTrip(g, Build(h, e).ref, e)
  {
    var b := Build(h, e.value);
    var out, n := Build(h, e), |b.heap|;
    assert g[n] == out.heap[n] && g[n + 1] == out.heap[n + 1] && g[n + 2] == out.heap[n + 2];
    assert OpOf(g, out.ref) == Some(DefOp);
    assert Operands(g, out.ref) == Some([b.ref]);
    assert GetStr(g, Deref(g, out.ref).fields, NameF) == Success(e.defName);
    assert b.heap <= g;
    assert BuiltIn(g, b.ref, e.value);
  }

  lemma BuiltRegex(h: Heap, e: Expr, g: Heap)
    requires Build(h, e).heap <= g && e.Regex?
    ensures NodeRoundTrip(g, Build(h, e).ref, e)
  {
    var b := Build(h, e.subject);
    var out, n := Build(h, e), |b.heap|;
    assert g[n] == out.heap[n] && g[n + 1] == out.heap[n + 1];
    assert g[n + 2] == out.heap[n + 2] && g[n + 3] == out.heap[n + 3];
    assert OpOf(g, out.ref) == Some(RegexOp);
    assert Operands(g, out.ref) == Some([b.ref]);
    assert b.heap <= g;
    assert BuiltIn(g, b.ref, e.subject);
  }

  lemma BuiltNode(g: Heap, r: nat, e: Expr)
    requires BuiltIn(g, r, e)
    ensures NodeRoundTrip(g, r, e)
  {
    var h :| Build(h, e).heap <= g && Build(h, e).ref == r;
    if IsScalar(e) {
      BuiltValue(h, e, g);
    } else if IsCompound(e) {
      BuiltCompound(h, e, g);
    } else if e.Compare? {
      BuiltCompare(h, e, g);
    } else if e.Not? {
      BuiltNot(h, e, g);
    } else if e.Def? {
      BuiltDef(h, e, g);
    } else if e.Regex? {
      BuiltRegex(h, e, g);
    } else if e.Variadic? {
      BuiltVariadic(h, e, g);
    } else if e.Unary? {
      BuiltUnary(h, e, g);
    } else if e.Pair? {
      BuiltPair(h, e, g);
    } else if e.Nullary? {
      BuiltNullary(h, e, g);
    } else if e.Bin? || e.Var? {
      BuiltName(h, e, g);
    } else {
      BuiltNumber(h, e, g);
    }
  }

  /** The converter's answer for a built expression at some depth. */
  ghost predicate ConvertsBack(out: Result<Expr, ConvertError>, e: Expr, depth: nat) {
    if LegalWithin(e, MAX_EXPRESSION_DEPTH - depth) then out == Success(e) else out.Failure?
  }

  ghost predicate AllLegalWithin(es: seq<Expr>, n: int) {
    forall i :: 0 <= i < |es| ==> LegalWithin(es[i], n)
  }

  ghost predicate ConvertBack(g: Heap, refs: seq<nat>, es: seq<Expr>, depth: nat) {
    |refs| == |es| && forall i :: 0 <= i < |es| ==> ConvertsBack(Convert(g, refs[i], depth), es[i], depth)
  }

  lemma ListConvertsBack(g: Heap, refs: seq<nat>, es: seq<Expr>, depth: nat)
    requires ConvertBack(g, refs, es, depth)
    ensures if AllLegalWithin(es, MAX_EXPRESSION_DEPTH - depth) then ConvertAll(g, refs, depth) == Success(es)
            else ConvertAll(g, refs, depth).Failure?
  {
    ConvertAllItems(g, refs, depth);
    if AllLegalWithin(es, MAX_EXPRESSION_DEPTH - depth) {
      assert forall i :: 0 <= i < |es| ==> Convert(g, refs[i], depth) == Success(es[i]);
      assert ConvertAll(g, refs, depth).value == es;
    }
  }

  /** The step without the heap: what the node law makes of the operands' conversions. */
  lemma NodeConvertsBack(e: Expr, depth: nat, nodeOk: bool, operands: Result<seq<Expr>, ConvertError>,
                         out: Result<Expr, ConvertError>)
    requires depth <= MAX_EXPRESSION_DEPTH && (nodeOk <==> LegalNode(e))
    requires if AllLegalWithin(Subs(e), MAX_EXPRESSION_DEPTH - (depth + 1)) then operands == Success(Subs(e))
             else operands.Failure?
    requires nodeOk && operands == Success(Subs(e)) ==> out == Success(e)
    requires !nodeOk || operands.Failure? ==> out.Failure?
    ensures ConvertsBack(out, e, depth)
  {
  }

  lemma RoundTripStep(g: Heap, r: nat, e: Expr, depth: nat)
    requires depth <= MAX_EXPRESSION_DEPTH
    requires SeenAs(g, r, e) && ConvertBack(g, Operands(g, r).value, Subs(e), depth + 1)
    ensures ConvertsBack(Convert(g, r, depth), e, depth)
  {
    var refs := Operands(g, r).value;
    ConvertNode(g, r, depth);
    ListConvertsBack(g, refs, Subs(e), depth + 1);
    NodeConvertsBack(e, depth, NodeOk(g, r), ConvertAll(g, refs, depth + 1), Convert(g, r, depth));
  }

  /**
   The converter inverts the builders: the dict built for an expression converts exactly when the
   expression is legal and within the depth cap, and then to the same expression, operand order
   included.
   */
  lemma {:induction false} RoundTrip(g: Heap, r: nat, e: Expr, depth: nat)
    requires BuiltIn(g, r, e)
    ensures ConvertsBack(Convert(g, r, depth), e, depth)
    decreases e, 1
  {
    if depth <= MAX_EXPRESSION_DEPTH {
      BuiltNode(g, r, e);
      var refs := Operands(g, r).value;
      SubsRoundTrip(g, refs, e, depth + 1);
      RoundTripStep(g, r, e, depth);
    } else {
      BelowTheCap(g, r, e, depth);
    }
  }

  lemma BelowTheCap(g: Heap, r: nat, e: Expr, depth: nat)
    requires depth > MAX_EXPRESSION_DEPTH
    ensures ConvertsBack(Convert(g, r, depth), e, depth)
  {
  }

  lemma {:induction false} SubsRoundTrip(g: Heap, refs: seq<nat>, e: Expr, depth: nat)
    requires SubsBuiltIn(g, refs, e)
    ensures ConvertBack(g, refs, Subs(e), depth)
    decreases e, 0
  {
    forall i | 0 <= i < |refs|
      ensures ConvertsBack(Convert(g, refs[i], depth), Subs(e)[i], depth)
    {
      RoundTrip(g, refs[i], Subs(e)[i], depth);
    }
  }

  /** A whole nest of builder calls, on any heap, handed to `py_to_expression`. */
  lemma BuilderRoundTrip(h: Heap, e: Expr)
    ensures var b := Build(h, e);
            if LegalWithin(e, MAX_EXPRESSION_DEPTH) then PyToExpression(b.heap, b.ref) == Success(e)
            else PyToExpression(b.heap, b.ref).Failure?
  {
    var b := Build(h, e);
    assert BuiltIn(b.heap, b.ref, e);
    RoundTrip(b.heap, b.ref, e, 0);
  }

  /** `n` negations around a constant. */
  function Negations(n: nat): Expr {
    if n == 0 then BoolVal(true) else Not(Negations(n - 1))
  }

  lemma {:induction false} NegationsLegal(n: nat, room: int)
    ensures LegalWithin(Negations(n), room) <==> n <= room
  {
    assert LegalNode(Negations(n));
    if n > 0 {
      NegationsLegal(n - 1, room - 1);
      assert Subs(Negations(n)) == [Negations(n - 1)];
      assert LegalWithin(Subs(Negations(n))[0], room - 1) <==> n - 1 <= room - 1;
    } else {
      assert Subs(Negations(0)) == [];
    }
  }

  /** The depth cap in numbers: 64 nested negations convert, and 65 do not. */
  lemma DepthCapInNumbers(h: Heap, n: nat)
    ensures var b := Build(h, Negations(n));
            if n <= 64 then PyToExpression(b.heap, b.ref) == Success(Negations(n))
            else PyToExpression(b.heap, b.ref).Failure?
  {
    BuilderRoundTrip(h, Negations(n));
    NegationsLegal(n, MAX_EXPRESSION_DEPTH);
  }

  /** `n` constants as operands. */
  function Constants(n: nat): (es: seq<Expr>)
    ensures |es| == n && forall i :: 0 <= i < n ==> es[i] == BoolVal(true)
  {
    seq(n, _ => BoolVal(true))
  }

  /**
   Operand counts in numbers: a conditional has an odd number of operands from three on, a `let` at least two,
   and every other operation that takes a list at least one.
   */
  lemma OperandCounts(h: Heap, v: VariadicKind, n: nat)
    ensures var b := Build(h, Variadic(v, Constants(n)));
            var most := if v == Cond then n >= 3 && n % 2 == 1 else if v == Let then n >= 2 else n >= 1;
            PyToExpression(b.heap, b.ref).Success? == most
  {
    var e := Variadic(v, Constants(n));
    BuilderRoundTrip(h, e);
    ConstantsLegal(v, n);
  }

  lemma ConstantsLegal(v: VariadicKind, n: nat)
    ensures var e := Variadic(v, Constants(n)); LegalWithin(e, MAX_EXPRESSION_DEPTH) <==> LegalNode(e)
  {
    var e := Variadic(v, Constants(n));
    forall i | 0 <= i < n
      ensures LegalWithin(Subs(e)[i], MAX_EXPRESSION_DEPTH - 1)
    {
      assert Subs(e)[i] == Negations(0);
      NegationsLegal(0, MAX_EXPRESSION_DEPTH - 1);
    }
  }

  /** Scalar arguments in numbers: 64-bit integers, the ten key types, and bin names that are not empty. */
  lemma ScalarArguments(h: Heap, i: int, accessor: BinAccessor, name: string)
    ensures var b := Build(h, IntVal(i));
            PyToExpression(b.heap, b.ref).Success? <==> -0x8000_0000_0000_0000 <= i <= 0x7FFF_FFFF_FFFF_FFFF
    ensures var b := Build(h, Key(i)); PyToExpression(b.heap, b.ref).Success? <==> i in {0, 1, 2, 3, 4, 5, 6, 7, 8, 9}
    ensures var b := Build(h, Bin(accessor, name)); PyToExpression(b.heap, b.ref).Success? <==> |name| > 0
  {
    BuilderRoundTrip(h, IntVal(i));
    BuilderRoundTrip(h, Key(i));
    BuilderRoundTrip(h, Bin(accessor, name));
  }

  /** On any heap: what converts with two operands has exactly two, and a single-operand operation takes the first. */
  lemma ConvertedShapes(h: Heap, r: nat)
    requires PyToExpression(h, r).Success?
    ensures Operands(h, r).Some?
    ensures PyToExpression(h, r).value.Pair? ==>
      && |Operands(h, r).value| == 2
      && Convert(h, Operands(h, r).value[0], 1) == Success(PyToExpression(h, r).value.first)
      && Convert(h, Operands(h, r).value[1], 1) == Success(PyToExpression(h, r).value.second)
    ensures PyToExpression(h, r).value.Unary? ==>
      && |Operands(h, r).value| >= 1
      && Convert(h, Operands(h, r).value[0], 1) == Success(PyToExpression(h, r).value.operand)
  {
    ConvertNode(h, r, 0);
    ConvertAllItems(h, Operands(h, r).value, 1);
  }
}
