/**
 When the conversion of an expression dict succeeds: exactly when the dict unfolds to a finite
 tree of depth at most 64 whose every node meets the shape rule of its operation. Cyclic dicts
 have no finite unfolding.
 */
module ExprUnfolding {
  import opened Wrappers
  import opened ExprConverter

  /** The operation of an object that is an expression dict. */
  function OpOf(h: Heap, r: nat): Option<Op> {
    if Deref(h, r).DictObj? && TagF in Deref(h, r).fields && Deref(h, Deref(h, r).fields[TagF]).OpObj? then
      Some(Deref(h, Deref(h, r).fields[TagF]).op)
    else None
  }

  /** References from an expression dict to its sub-expressions, in operand order. */
  function Operands(h: Heap, r: nat): Option<seq<nat>> {
    match OpOf(h, r)
    case None => None
    case Some(op) =>
      var d := Deref(h, r).fields;
      match op
      case CompareOf(_) => if LeftF in d && RightF in d then Some([d[LeftF], d[RightF]]) else None
      case NotOp => if ExprF in d then Some([d[ExprF]]) else None
      case RegexOp => if BinF in d then Some([d[BinF]]) else None
      case DefOp => if ValueF in d then Some([d[ValueF]]) else None
      case VariadicOf(_) => OperandList(h, d)
      case UnaryOf(_) => OperandList(h, d)
      case PairOf(_) => OperandList(h, d)
      case _ => Some([])
  }

  function OperandList(h: Heap, d: map<Field, nat>): Option<seq<nat>> {
    if ExprsF in d && Deref(h, d[ExprsF]).ListObj? then Some(Deref(h, d[ExprsF]).items) else None
  }

  /** How many operands an operation accepts. */
  predicate ArityOk(op: Op, n: nat) {
    match op
    case VariadicOf(v) => n >= 1 && (v == Cond ==> n >= 3 && n % 2 == 1) && (v == Let ==> n >= 2)
    case UnaryOf(_) => n >= 1
    case PairOf(_) => n == 2
    case _ => true
  }

  /** The shape rule of one node: operands present, arity, and scalar fields. */
  predicate NodeOk(h: Heap, r: nat) {
    && Operands(h, r).Some?
    && var op, d := OpOf(h, r).value, Deref(h, r).fields;
       && ArityOk(op, |Operands(h, r).value|)
       && (op.RegexOp? ==> GetStr(h, d, RegexF).Success? && GetInt(h, d, FlagsF).Success?)
       && (op.DefOp? ==> GetStr(h, d, NameF).Success?)
       && (IsLeafOp(op) ==> ConvertLeaf(h, d, op).Success?)
  }

  /** A node's expression from those of its operands; a unary operation ignores all but the first. */
  function NodeExpr(h: Heap, r: nat, xs: seq<Expr>): Expr
    requires NodeOk(h, r) && |xs| == |Operands(h, r).value|
  {
    var d := Deref(h, r).fields;
    match OpOf(h, r).value
    case CompareOf(c) => Compare(c, xs[0], xs[1])
    case NotOp => Not(xs[0])
    case VariadicOf(v) => Variadic(v, xs)
    case UnaryOf(u) => Unary(u, xs[0])
    case PairOf(p) => Pair(p, xs[0], xs[1])
    case RegexOp => Regex(GetStr(h, d, RegexF).value, GetInt(h, d, FlagsF).value, xs[0])
    case DefOp => Def(GetStr(h, d, NameF).value, xs[0])
    case op => ConvertLeaf(h, d, op).value
  }

  // ---- Unfoldings -----------------------------------------------------------------------

  /** A finite tree of references. */
  datatype Shadow = Shadow(ref: nat, kids: seq<Shadow>)

  /** `t` follows the heap's operand references all the way down. */
  ghost predicate Unfolds(h: Heap, t: Shadow) {
    && Operands(h, t.ref).Some?
    && |t.kids| == |Operands(h, t.ref).value|
    && forall i :: 0 <= i < |t.kids| ==> t.kids[i].ref == Operands(h, t.ref).value[i] && Unfolds(h, t.kids[i])
  }

  ghost predicate AllNodesOk(h: Heap, t: Shadow) {
    NodeOk(h, t.ref) && forall i :: 0 <= i < |t.kids| ==> AllNodesOk(h, t.kids[i])
  }

  ghost predicate HeightAtMost(t: Shadow, n: int) {
    n >= 0 && forall i :: 0 <= i < |t.kids| ==> HeightAtMost(t.kids[i], n - 1)
  }

  /** The expression an unfolding stands for. */
  ghost function Denote(h: Heap, t: Shadow): Expr
    requires Unfolds(h, t) && AllNodesOk(h, t)
  {
    NodeExpr(h, t.ref, seq(|t.kids|, i requires 0 <= i < |t.kids| => Denote(h, t.kids[i])))
  }

  ghost predicate Convertible(h: Heap, t: Shadow, depth: nat) {
    Unfolds(h, t) && AllNodesOk(h, t) && HeightAtMost(t, MAX_EXPRESSION_DEPTH - depth)
  }

  // ---- The converter in terms of operands -----------------------------------------------

  /** One level of the converter, whatever the operation's dict layout. */
  ghost predicate NodeLaw(h: Heap, r: nat, depth: nat)
    requires depth <= MAX_EXPRESSION_DEPTH
  {
    var out := Convert(h, r, depth);
    if NodeOk(h, r) then
      match ConvertAll(h, Operands(h, r).value, depth + 1)
      case Failure(e) => out == Failure(e)
      case Success(xs) => |xs| == |Operands(h, r).value| && out == Success(NodeExpr(h, r, xs))
    else
      out.Failure?
  }

  lemma NodeLawLeaf(h: Heap, r: nat, depth: nat)
    requires depth <= MAX_EXPRESSION_DEPTH
    requires OpOf(h, r).Some? && IsLeafOp(OpOf(h, r).value)
    ensures NodeLaw(h, r, depth)
  {
    assert Results(h, [], depth + 1) == [];
  }

  lemma NodeLawCompare(h: Heap, r: nat, depth: nat)
    requires depth <= MAX_EXPRESSION_DEPTH
    requires OpOf(h, r).Some? && OpOf(h, r).value.CompareOf?
    ensures NodeLaw(h, r, depth)
  {
    var d := Deref(h, r).fields;
    if LeftF in d && RightF in d {
      ConvertTwo(h, d[LeftF], d[RightF], depth + 1);
    }
  }

  lemma NodeLawSingle(h: Heap, r: nat, depth: nat)
    requires depth <= MAX_EXPRESSION_DEPTH
    requires OpOf(h, r).Some?
    requires OpOf(h, r).value.NotOp? || OpOf(h, r).value.RegexOp? || OpOf(h, r).value.DefOp?
    ensures NodeLaw(h, r, depth)
  {
    if Operands(h, r).Some? {
      ConvertOne(h, Operands(h, r).value[0], depth + 1);
    }
  }

  /** Operations with an `exprs` list parse exactly their operands. */
  lemma ParsedOperands(h: Heap, r: nat, depth: nat)
    requires depth <= MAX_EXPRESSION_DEPTH && OpOf(h, r).Some?
    requires OpOf(h, r).value.VariadicOf? || OpOf(h, r).value.UnaryOf? || OpOf(h, r).value.PairOf?
    ensures var parsed := ParseSubExprs(h, Deref(h, r).fields, depth);
            if Operands(h, r).Some? then
              && parsed == ConvertAll(h, Operands(h, r).value, depth + 1)
              && (parsed.Success? ==> |parsed.value| == |Operands(h, r).value|)
            else parsed.Failure?
  {
    if Operands(h, r).Some? {
      ConvertAllItems(h, Operands(h, r).value, depth + 1);
    }
  }

  lemma NodeLawVariadic(h: Heap, r: nat, depth: nat)
    requires depth <= MAX_EXPRESSION_DEPTH
    requires OpOf(h, r).Some? && OpOf(h, r).value.VariadicOf?
    ensures NodeLaw(h, r, depth)
  {
    ParsedOperands(h, r, depth);
  }

  lemma NodeLawUnary(h: Heap, r: nat, depth: nat)
    requires depth <= MAX_EXPRESSION_DEPTH
    requires OpOf(h, r).Some? && OpOf(h, r).value.UnaryOf?
    ensures NodeLaw(h, r, depth)
  {
    ParsedOperands(h, r, depth);
  }

  lemma NodeLawPair(h: Heap, r: nat, depth: nat)
    requires depth <= MAX_EXPRESSION_DEPTH
    requires OpOf(h, r).Some? && OpOf(h, r).value.PairOf?
    ensures NodeLaw(h, r, depth)
  {
    ParsedOperands(h, r, depth);
  }

  lemma ConvertNode(h: Heap, r: nat, depth: nat)
    requires depth <= MAX_EXPRESSION_DEPTH
    ensures NodeLaw(h, r, depth)
  {
    match OpOf(h, r) {
      case None =>
      case Some(op) =>
        if IsLeafOp(op) {
          NodeLawLeaf(h, r, depth);
        } else if op.CompareOf? {
          NodeLawCompare(h, r, depth);
        } else if op.NotOp? || op.RegexOp? || op.DefOp? {
          NodeLawSingle(h, r, depth);
        } else if op.VariadicOf? {
          NodeLawVariadic(h, r, depth);
        } else if op.UnaryOf? {
          NodeLawUnary(h, r, depth);
        } else {
          NodeLawPair(h, r, depth);
        }
    }
  }

  lemma ConvertOne(h: Heap, a: nat, depth: nat)
    ensures ConvertAll(h, [a], depth)
         == match Convert(h, a, depth) case Success(x) => Success([x]) case Failure(e) => Failure(e)
  {
    var rs := Results(h, [a], depth);
    CollectItems(rs);
    if Convert(h, a, depth).Success? {
      assert Collect(rs).value == [Convert(h, a, depth).value];
    }
  }

  lemma ConvertTwo(h: Heap, a: nat, b: nat, depth: nat)
    ensures ConvertAll(h, [a, b], depth)
         == match Convert(h, a, depth)
            case Failure(e) => Failure(e)
            case Success(x) =>
              match Convert(h, b, depth) case Success(y) => Success([x, y]) case Failure(e) => Failure(e)
  {
    var rs := Results(h, [a, b], depth);
    assert rs[..1] == Results(h, [a], depth);
    ConvertOne(h, a, depth);
    if Convert(h, a, depth).Success? && Convert(h, b, depth).Success? {
      var x, y := Convert(h, a, depth).value, Convert(h, b, depth).value;
      assert [x] + [y] == [x, y];
    }
  }

  lemma {:induction false} CollectItems(rs: seq<Result<Expr, ConvertError>>)
    ensures Collect(rs).Success? <==> forall i :: 0 <= i < |rs| ==> rs[i].Success?
    ensures Collect(rs).Success?
      ==> |Collect(rs).value| == |rs| && forall i :: 0 <= i < |rs| ==> Collect(rs).value[i] == rs[i].value
    ensures Collect(rs).Failure? ==> exists i :: 0 <= i < |rs| && rs[i] == Failure(Collect(rs).error)
  {
    if rs != [] {
      var n := |rs| - 1;
      CollectItems(rs[..n]);
      assert forall i :: 0 <= i < n ==> rs[..n][i] == rs[i];
    }
  }

  lemma ConvertAllItems(h: Heap, items: seq<nat>, depth: nat)
    ensures ConvertAll(h, items, depth).Success?
      <==> forall i :: 0 <= i < |items| ==> Convert(h, items[i], depth).Success?
    ensures ConvertAll(h, items, depth).Success?
      ==> |ConvertAll(h, items, depth).value| == |items|
          && forall i :: 0 <= i < |items| ==> ConvertAll(h, items, depth).value[i] == Convert(h, items[i], depth).value
    ensures ConvertAll(h, items, depth).Failure?
      ==> exists i :: 0 <= i < |items| && Convert(h, items[i], depth) == Failure(ConvertAll(h, items, depth).error)
  {
    CollectItems(Results(h, items, depth));
  }

  // ---- Success is a finite well-shaped unfolding ----------------------------------------

  lemma {:induction false} Complete(h: Heap, t: Shadow, depth: nat)
    requires Convertible(h, t, depth)
    ensures Convert(h, t.ref, depth) == Success(Denote(h, t))
    decreases t
  {
    var refs := Operands(h, t.ref).value;
    forall i | 0 <= i < |refs|
      ensures Convert(h, refs[i], depth + 1) == Success(Denote(h, t.kids[i]))
    {
      Complete(h, t.kids[i], depth + 1);
    }
    ConvertAllItems(h, refs, depth + 1);
    ConvertNode(h, t.ref, depth);
    var xs := ConvertAll(h, refs, depth + 1).value;
    assert xs == seq(|t.kids|, i requires 0 <= i < |t.kids| => Denote(h, t.kids[i]));
  }

  lemma {:induction false} Sound(h: Heap, r: nat, depth: nat) returns (t: Shadow)
    requires Convert(h, r, depth).Success?
    ensures t.ref == r && Convertible(h, t, depth)
    decreases DepthLeft(depth), 0
  {
    ConvertNode(h, r, depth);
    var refs := Operands(h, r).value;
    ConvertAllItems(h, refs, depth + 1);
    var kids := SoundAll(h, refs, depth + 1);
    t := Shadow(r, kids);
  }

  lemma {:induction false} SoundAll(h: Heap, items: seq<nat>, depth: nat) returns (ts: seq<Shadow>)
    requires forall i :: 0 <= i < |items| ==> Convert(h, items[i], depth).Success?
    ensures |ts| == |items|
    ensures forall i :: 0 <= i < |items| ==> ts[i].ref == items[i] && Convertible(h, ts[i], depth)
    decreases DepthLeft(depth), 1, |items|
  {
    if items == [] {
      ts := [];
    } else {
      var n := |items| - 1;
      var front := SoundAll(h, items[..n], depth);
      var last := Sound(h, items[n], depth);
      ts := front + [last];
      assert forall i :: 0 <= i < n ==> items[..n][i] == items[i];
    }
  }

  /**
   The conversion of any object of any heap succeeds exactly when the object has a finite
   unfolding of depth at most 64 whose nodes all meet their shape rules, and it then returns the
   expression that unfolding denotes.
   */
  lemma ConvertsIff(h: Heap, r: nat)
    ensures PyToExpression(h, r).Success? <==> exists t: Shadow :: t.ref == r && Convertible(h, t, 0)
    ensures forall t: Shadow :: t.ref == r && Convertible(h, t, 0) ==> PyToExpression(h, r) == Success(Denote(h, t))
  {
    if PyToExpression(h, r).Success? {
      var t := Sound(h, r, 0);
      assert t.ref == r && Convertible(h, t, 0);
    }
    forall t: Shadow | t.ref == r && Convertible(h, t, 0)
      ensures PyToExpression(h, r) == Success(Denote(h, t))
    {
      Complete(h, t, 0);
    }
  }

  // ---- Cycles ---------------------------------------------------------------------------

  ghost predicate Edge(h: Heap, a: nat, b: nat) {
    Operands(h, a).Some? && b in Operands(h, a).value
  }

  ghost predicate Walk(h: Heap, w: seq<nat>) {
    |w| >= 1 && forall i :: 0 <= i < |w| - 1 ==> Edge(h, w[i], w[i + 1])
  }

  lemma EdgeConverts(h: Heap, a: nat, b: nat, depth: nat)
    requires Convert(h, a, depth).Success? && Edge(h, a, b)
    ensures depth <= MAX_EXPRESSION_DEPTH && Convert(h, b, depth + 1).Success?
  {
    ConvertNode(h, a, depth);
    ConvertAllItems(h, Operands(h, a).value, depth + 1);
  }

  lemma WalkTail(h: Heap, w: seq<nat>)
    requires Walk(h, w) && |w| > 1
    ensures Edge(h, w[0], w[1]) && Walk(h, w[1..])
  {
    forall i | 0 <= i < |w[1..]| - 1
      ensures Edge(h, w[1..][i], w[1..][i + 1])
    {
      assert Edge(h, w[i + 1], w[i + 2]);
    }
  }

  /** A converted object has no walk of operands that outruns the depth cap. */
  lemma {:induction false} WalksAreShort(h: Heap, w: seq<nat>, depth: nat)
    requires Walk(h, w) && Convert(h, w[0], depth).Success?
    ensures depth + |w| - 1 <= MAX_EXPRESSION_DEPTH
    decreases |w|
  {
    if |w| > 1 {
      WalkTail(h, w);
      EdgeConverts(h, w[0], w[1], depth);
      WalksAreShort(h, w[1..], depth + 1);
    }
  }

  lemma JoinWalks(h: Heap, a: seq<nat>, b: seq<nat>)
    requires Walk(h, a) && Walk(h, b) && a[|a| - 1] == b[0]
    ensures Walk(h, a + b[1..])
    ensures (a + b[1..])[0] == a[0] && (a + b[1..])[|a + b[1..]| - 1] == b[|b| - 1]
  {
    var w := a + b[1..];
    forall i | 0 <= i < |w| - 1
      ensures Edge(h, w[i], w[i + 1])
    {
      if i < |a| - 1 {
        assert Edge(h, a[i], a[i + 1]);
      } else {
        assert Edge(h, b[i - (|a| - 1)], b[i - (|a| - 1) + 1]);
      }
    }
  }

  lemma {:induction false} GoRound(h: Heap, cycle: seq<nat>, n: nat) returns (w: seq<nat>)
    requires Walk(h, cycle) && |cycle| >= 2 && cycle[0] == cycle[|cycle| - 1]
    ensures Walk(h, w) && |w| > n && w[0] == cycle[0] && w[|w| - 1] == cycle[0]
  {
    if n == 0 {
      w := cycle;
    } else {
      var shorter := GoRound(h, cycle, n - 1);
      JoinWalks(h, shorter, cycle);
      w := shorter + cycle[1..];
    }
  }

  /** An object from which some expression dict reaches itself is never converted. */
  lemma CyclesAreRejected(h: Heap, path: seq<nat>, cycle: seq<nat>)
    requires Walk(h, path) && Walk(h, cycle)
    requires |cycle| >= 2 && cycle[0] == cycle[|cycle| - 1] == path[|path| - 1]
    ensures PyToExpression(h, path[0]).Failure?
  {
    if PyToExpression(h, path[0]).Success? {
      var w := GoRound(h, cycle, MAX_EXPRESSION_DEPTH + 1);
      JoinWalks(h, path, w);
      WalksAreShort(h, path + w[1..], 0);
    }
  }

  /** Every object reachable from `r` meets the shape rule of its operation. */
  ghost predicate WellShapedFrom(h: Heap, r: nat) {
    forall w :: Walk(h, w) && w[0] == r ==> NodeOk(h, w[|w| - 1])
  }

  lemma WellShapedChild(h: Heap, r: nat, child: nat)
    requires WellShapedFrom(h, r) && Edge(h, r, child)
    ensures NodeOk(h, r) && WellShapedFrom(h, child)
  {
    assert Walk(h, [r]) && Walk(h, [r, child]);
    forall w | Walk(h, w) && w[0] == child
      ensures NodeOk(h, w[|w| - 1])
    {
      JoinWalks(h, [r, child], w);
    }
  }

  lemma WellShapedNode(h: Heap, r: nat)
    requires WellShapedFrom(h, r)
    ensures NodeOk(h, r)
  {
    assert Walk(h, [r]);
    assert [r][|[r]| - 1] == r;
  }

  /** On well-shaped input the depth cap is the only reason to fail, so a cycle is reported as too deep. */
  lemma {:induction false} OnlyDepthFails(h: Heap, r: nat, depth: nat)
    requires WellShapedFrom(h, r)
    ensures Convert(h, r, depth).Failure? ==> Convert(h, r, depth) == Failure(TooDeep)
    decreases DepthLeft(depth)
  {
    if depth <= MAX_EXPRESSION_DEPTH {
      WellShapedNode(h, r);
      ConvertNode(h, r, depth);
      var refs := Operands(h, r).value;
      ConvertAllItems(h, refs, depth + 1);
      if Convert(h, r, depth).Failure? {
        var i :| 0 <= i < |refs| && Convert(h, refs[i], depth + 1) == Failure(Convert(h, r, depth).error);
        assert Edge(h, r, refs[i]);
        WellShapedChild(h, r, refs[i]);
        OnlyDepthFails(h, refs[i], depth + 1);
      }
    }
  }

  /** `x = {"__expr__": "not", "expr": x}`: the smallest cycle ends in the depth error. */
  lemma SelfReferenceIsTooDeep()
    ensures PyToExpression([OpObj(NotOp), DictObj(map[TagF := 0, ExprF := 1])], 1) == Failure(TooDeep)
  {
    var h := [OpObj(NotOp), DictObj(map[TagF := 0, ExprF := 1])];
    assert Operands(h, 1) == Some([1]);
    assert Edge(h, 1, 1);
    assert Walk(h, [1, 1]) && Walk(h, [1]);
    CyclesAreRejected(h, [1], [1, 1]);
    forall w | Walk(h, w) && w[0] == 1
      ensures NodeOk(h, w[|w| - 1])
    {
      StaysAtOne(h, w);
    }
    OnlyDepthFails(h, 1, 0);
  }

  lemma {:induction false} StaysAtOne(h: Heap, w: seq<nat>)
    requires Walk(h, w) && w[0] == 1 && Operands(h, 1) == Some([1])
    ensures w[|w| - 1] == 1
  {
    if |w| > 1 {
      var n := |w| - 1;
      assert Edge(h, w[n - 1], w[n]);
      assert forall i :: 0 <= i < n - 1 ==> Edge(h, w[i], w[i + 1]) ==> Edge(h, w[..n][i], w[..n][i + 1]);
      StaysAtOne(h, w[..n]);
    }
  }
}
