/** What `optimize` promises, stated over `Resolver.Optimized`: the NEGATE and
    CONCAT cases, the type decision for ordinary operands, the accepted and
    rejected date/time combinations and their rewrites, the conversion flag,
    constant folding, and error propagation. Each lemma takes the resolved
    operands `a` and `b` as given, since what the operands resolve to is the
    operands' business. */
module Resolution {
  import opened Values
  import opened Expressions
  import opened Evaluator
  import opened Resolver
  import Rendering

  /** The left operand of `n` resolves to `a`. */
  predicate LeftResolves(n: Node, lib: Lib, s: Session, a: Expr) {
    WfNode(n) && OptimizeExpr(n.left, lib, s) == Ok(a)
  }

  /** Both operands of the binary node `n` resolve, to `a` and `b`. */
  predicate OperandsResolve(n: Node, lib: Lib, s: Session, a: Expr, b: Expr) {
    && WfNode(n) && n.right.Some?
    && OptimizeExpr(n.left, lib, s) == Ok(a)
    && OptimizeExpr(n.right.value, lib, s) == Ok(b)
  }

  // ------------------------------------------------------------ errors

  /** An error while resolving an operand is passed on unchanged: after the
      left operand fails nothing has changed, after the right one fails only
      the left operand (and, for arithmetic, the DECIMAL type) is new. */
  lemma OperandErrorsPropagate(n: Node, lib: Lib, s: Session)
    requires WfNode(n)
    ensures OptimizeExpr(n.left, lib, s).Unsupported? ==>
      Optimized(n, lib, s) == Step(n, OptimizeExpr(n.left, lib, s))
    ensures OptimizeExpr(n.left, lib, s).Ok? && n.right.Some? && OptimizeExpr(n.right.value, lib, s).Unsupported? ==>
      var left := OptimizeExpr(n.left, lib, s).value;
      var n1 := if n.op == Concat then n.(left := left) else n.(left := left, dataType := Decimal);
      Optimized(n, lib, s) == Step(n1, OptimizeExpr(n.right.value, lib, s))
  {
  }

  // ------------------------------------------------------------ NEGATE, CONCAT

  /** NEGATE takes its operand's type, DECIMAL for an unknown one, and folds a
      constant operand into the literal of its negation. */
  lemma NegateResolution(n: Node, lib: Lib, s: Session, a: Expr)
    requires LeftResolves(n, lib, s, a) && n.op == Negate
    ensures var st := Optimized(n, lib, s);
      && st.state.op == Negate && st.state.left == a && st.state.right.None?
      && st.state.convertRight == n.convertRight
      && st.state.dataType == (if TypeOf(a, lib) == Unknown then Decimal else TypeOf(a, lib))
      && st.state.dataType != Unknown
      && st.result == Fold(st.state, lib, s).result
  {
  }

  /** CONCAT is typed STRING and folds exactly when both operands are constant. */
  lemma ConcatResolution(n: Node, lib: Lib, s: Session, a: Expr, b: Expr)
    requires OperandsResolve(n, lib, s, a, b) && n.op == Concat
    ensures var st := Optimized(n, lib, s);
      && st.state == n.(left := a, right := Some(b), dataType := String)
      && st.result == Fold(st.state, lib, s).result
      && (st.result.value.Const? <==> IsConstant(a, lib) && IsConstant(b, lib))
  {
  }

  // ------------------------------------------------------------ ordinary operands

  /** With neither operand a date or time (or both untyped), an arithmetic
      node ends up typed DECIMAL, whatever type was chosen first; it becomes
      CONCAT exactly when `+` may concatenate and either it is PLUS over an
      untyped pair or the promoted type is a string type, for any operator;
      and it folds exactly when both operands are constant. */
  lemma OrdinaryResolution(n: Node, lib: Lib, s: Session, a: Expr, b: Expr, l: TypeTag, r: TypeTag)
    requires OperandsResolve(n, lib, s, a, b) && IsArithmetic(n.op)
    requires l == TypeOf(a, lib) && r == TypeOf(b, lib)
    requires Untyped(l, r) || (!IsTemporal(l) && !IsTemporal(r))
    ensures var st := Optimized(n, lib, s);
      && st.state.dataType == Decimal
      && (st.state.op == Concat <==>
           s.mode.allowPlusForStringConcat
           && ((n.op == Plus && Untyped(l, r)) || (!Untyped(l, r) && lib.isStringType(lib.higherOrder(l, r)))))
      && (st.state.op != Concat ==> st.state.op == n.op)
      && st.state.left == a && st.state.right == Some(b) && st.state.convertRight == n.convertRight
      && st.result == Fold(st.state, lib, s).result
      && (st.result.value.Const? <==> IsConstant(a, lib) && IsConstant(b, lib))
  {
  }

  /** Resolving twice is not resolving once: PLUS over two untyped, non-constant
      operands becomes CONCAT typed DECIMAL, and resolving that node again
      retypes it STRING. */
  lemma ReresolutionChangesType(lib: Lib, s: Session, info: Info)
    requires s.mode.allowPlusForStringConcat
    requires info.dataType == Null && !info.constant
    ensures var n := NewNode(Plus, Leaf("A", info), Some(Leaf("B", info)));
      WfNode(n) &&
      var once := Optimized(n, lib, s);
      var twice := Optimized(once.state, lib, s);
      && once.state.op == Concat && once.state.dataType == Decimal
      && once.result == Ok(Op(once.state))
      && twice.state.dataType == String
      && twice.state != once.state
  {
    var n := NewNode(Plus, Leaf("A", info), Some(Leaf("B", info)));
    assert WfExpr(n.left) && WfExpr(n.right.value);
    assert OptimizeExpr(n.left, lib, s) == Ok(n.left);
    assert OptimizeExpr(n.right.value, lib, s) == Ok(n.right.value);
    OrdinaryResolution(n, lib, s, n.left, n.right.value, Null, Null);
    var once := Optimized(n, lib, s);
    assert once.state.left == n.left && once.state.right == n.right;
    ConcatResolution(once.state, lib, s, n.left, n.right.value);
  }

  // ------------------------------------------------------------ date and time

  /** The operand types in the order PLUS puts them in: the higher-order type
      on the right. Other operators keep the written order. */
  function Ordered(op: OpType, l: TypeTag, r: TypeTag, lib: Lib): (TypeTag, TypeTag) {
    if op == Plus && r != lib.higherOrder(l, r) then (r, l) else (l, r)
  }

  /** The date/time combinations `optimize` supports, over ordered types. */
  predicate Accepted(op: OpType, lo: TypeTag, hi: TypeTag) {
    match op
    case Plus => lo == Int || IsFractional(lo) || lo == Time
    case Minus =>
      || (IsDateLike(lo) && (hi == Int || IsFractional(hi) || hi == Time || IsDateLike(hi)))
      || (lo == Time && hi == Time)
    case Multiply => lo == Time || hi == Time
    case Divide => lo == Time
    case _ => false
  }

  /** The subtractions that add a resolved negation to a date. */
  predicate NegatingSubtraction(op: OpType, l: TypeTag, r: TypeTag) {
    op == Minus && IsDateLike(l) && (r == Int || IsFractional(r))
  }

  /** The outcome of the date/time rewrites that resolve nothing further. */
  predicate RewriteOutcome(m: Node, l: TypeTag, r: TypeTag, lib: Lib)
    requires WfNode(m) && m.right.Some?
  {
    var st := TemporalRewrite(m, l, r, lib);
    var (lo, hi) := Ordered(m.op, l, r, lib);
    && (!Accepted(m.op, lo, hi) ==> st.result == Unsupported(lo, Rendering.Token(m.op), hi))
    && (Accepted(m.op, lo, hi) ==> st.result.Ok?)
    && (st.result.Ok? ==> st.result.value.FuncCall? || st.result == Ok(Op(st.state)))
    && (st.result == Ok(Op(st.state)) ==> st.state.dataType == Time || st.state.dataType == Timestamp)
  }

  lemma PlusRewriteOutcome(m: Node, l: TypeTag, r: TypeTag, lib: Lib)
    requires WfNode(m) && m.right.Some? && m.op == Plus
    ensures RewriteOutcome(m, l, r, lib)
  {
    var (lo, hi) := Ordered(m.op, l, r, lib);
    if lo == Int || IsFractional(lo) {
      assert TemporalRewrite(m, l, r, lib).result.value.FuncCall?;
    } else if lo == Time {
      assert TemporalRewrite(m, l, r, lib).result == Ok(Op(TemporalRewrite(m, l, r, lib).state));
    }
  }

  lemma MinusRewriteOutcome(m: Node, l: TypeTag, r: TypeTag, lib: Lib)
    requires WfNode(m) && m.right.Some? && m.op == Minus
    requires !NegatingSubtraction(m.op, l, r)
    ensures RewriteOutcome(m, l, r, lib)
  {
  }

  lemma ScaleRewriteOutcome(m: Node, l: TypeTag, r: TypeTag, lib: Lib)
    requires WfNode(m) && m.right.Some? && (m.op == Multiply || m.op == Divide || m.op == Modulus)
    ensures RewriteOutcome(m, l, r, lib)
  {
  }

  /** With a date or time operand, an unsupported combination fails with
      both (ordered) type codes and the operator's token; a supported one that
      needs no further resolution succeeds; and no date/time node is ever
      folded: it becomes a function call or keeps itself, typed TIME or
      TIMESTAMP. */
  lemma TemporalOutcome(n: Node, lib: Lib, s: Session, a: Expr, b: Expr, l: TypeTag, r: TypeTag)
    requires OperandsResolve(n, lib, s, a, b) && IsArithmetic(n.op)
    requires l == TypeOf(a, lib) && r == TypeOf(b, lib)
    requires !Untyped(l, r) && (IsTemporal(l) || IsTemporal(r))
    ensures var st := Optimized(n, lib, s);
      var (lo, hi) := Ordered(n.op, l, r, lib);
      && (!Accepted(n.op, lo, hi) ==> st.result == Unsupported(lo, Rendering.Token(n.op), hi))
      && (Accepted(n.op, lo, hi) && !NegatingSubtraction(n.op, l, r) ==> st.result.Ok?)
      && (st.result.Ok? ==> st.result.value.FuncCall? || st.result == Ok(Op(st.state)))
      && (st.result == Ok(Op(st.state)) ==> st.state.dataType == Time || st.state.dataType == Timestamp)
  {
    var n2 := n.(left := a, right := Some(b), dataType := Decimal);
    assert Optimized(n, lib, s) == Temporal(n2, l, r, lib, s);
    if NegatingSubtraction(n.op, l, r) {
      MinusSubtractsDays(n, lib, s, a, b, l, r);
    } else {
      assert Temporal(n2, l, r, lib, s) == TemporalRewrite(n2, l, r, lib);
      if n.op == Plus {
        PlusRewriteOutcome(n2, l, r, lib);
      } else if n.op == Minus {
        MinusRewriteOutcome(n2, l, r, lib);
      } else {
        ScaleRewriteOutcome(n2, l, r, lib);
      }
      assert RewriteOutcome(n2, l, r, lib);
    }
  }

  /** PLUS adds a number of days to a date or time on either side: an INT
      gives DATEADD('DAY', number, date), a fraction of a day gives
      DATEADD('SECOND', 86400 * number, date) with the product left
      unresolved, provided the type order ranks the date above the number. */
  lemma PlusAddsDays(n: Node, lib: Lib, s: Session, a: Expr, b: Expr, number: Expr, date: Expr)
    requires OperandsResolve(n, lib, s, a, b) && n.op == Plus
    requires (number, date) == (a, b) || (number, date) == (b, a)
    requires IsTemporal(TypeOf(date, lib))
    requires TypeOf(number, lib) == Int || IsFractional(TypeOf(number, lib))
    requires lib.higherOrder(TypeOf(number, lib), TypeOf(date, lib)) == TypeOf(date, lib)
    requires lib.higherOrder(TypeOf(date, lib), TypeOf(number, lib)) == TypeOf(date, lib)
    ensures TypeOf(number, lib) == Int ==>
      Optimized(n, lib, s).result == Ok(DateAdd("DAY", number, date))
    ensures IsFractional(TypeOf(number, lib)) ==>
      Optimized(n, lib, s).result == Ok(DateAdd("SECOND", DaysToSeconds(number), date))
      && DaysToSeconds(number) == Op(NewNode(Multiply, Const(IntValue(86400)), Some(number)))
      && DaysToSeconds(number).node.dataType == Null
  {
    var l, r := TypeOf(a, lib), TypeOf(b, lib);
    var n2 := n.(left := a, right := Some(b), dataType := Decimal);
    assert Optimized(n, lib, s) == Temporal(n2, l, r, lib, s) == TemporalRewrite(n2, l, r, lib);
  }

  /** PLUS with TIME as the lower-ordered operand keeps the node: TIME + TIME
      is TIME, TIME with any higher type is TIMESTAMP, the higher type being
      moved to the right. */
  lemma PlusTime(n: Node, lib: Lib, s: Session, a: Expr, b: Expr, l: TypeTag, r: TypeTag)
    requires OperandsResolve(n, lib, s, a, b) && n.op == Plus
    requires l == TypeOf(a, lib) && r == TypeOf(b, lib) && !Untyped(l, r)
    requires (IsTemporal(l) || IsTemporal(r)) && Ordered(Plus, l, r, lib).0 == Time
    ensures var st := Optimized(n, lib, s);
      var swapped := r != lib.higherOrder(l, r);
      && st.result == Ok(Op(st.state))
      && st.state.left == (if swapped then b else a)
      && st.state.right == Some(if swapped then a else b)
      && st.state.dataType == (if l == Time && r == Time then Time else Timestamp)
      && st.state.convertRight == n.convertRight
  {
    var n2 := n.(left := a, right := Some(b), dataType := Decimal);
    assert Optimized(n, lib, s) == Temporal(n2, l, r, lib, s) == TemporalRewrite(n2, l, r, lib);
  }

  /** Subtracting a number from a date adds its negation: the node's right
      operand becomes the negation (of the number in days, or of 86400 times
      the fraction), which is resolved; DATEADD is built from what it resolves
      to, or the error it raises is passed on. */
  lemma MinusSubtractsDays(n: Node, lib: Lib, s: Session, a: Expr, b: Expr, l: TypeTag, r: TypeTag)
    requires OperandsResolve(n, lib, s, a, b) && n.op == Minus
    requires l == TypeOf(a, lib) && r == TypeOf(b, lib)
    requires IsDateLike(l) && (r == Int || IsFractional(r))
    ensures var negation := if r == Int then NegationOf(b) else NegationOf(DaysToSeconds(b));
      var st := Optimized(n, lib, s);
      && (OptimizeExpr(negation, lib, s).Unsupported? ==>
           st == Step(n.(left := a, right := Some(negation), dataType := Decimal), OptimizeExpr(negation, lib, s)))
      && (OptimizeExpr(negation, lib, s).Ok? ==>
           var negated := OptimizeExpr(negation, lib, s).value;
           st.state == n.(left := a, right := Some(negated), dataType := Decimal)
           && st.result == Ok(DateAdd(if r == Int then "DAY" else "SECOND", negated, a)))
  {
    var n2 := n.(left := a, right := Some(b), dataType := Decimal);
    assert Optimized(n, lib, s) == Temporal(n2, l, r, lib, s);
  }

  /** `date - k` for an INT literal `k`: the negation folds, and the node
      becomes DATEADD('DAY', -k, date), the literal being the negation of `k`
      converted to INT (NULL stays NULL). */
  lemma {:induction false} DateMinusIntLiteral(n: Node, lib: Lib, s: Session, a: Expr, k: Value)
    requires OperandsResolve(n, lib, s, a, Const(k)) && n.op == Minus
    requires IsDateLike(TypeOf(a, lib)) && TypeOfValue(k) == Int
    ensures var c := lib.convertTo(k, Int);
      Optimized(n, lib, s).result == Ok(DateAdd("DAY", Const(if c == NullValue then NullValue else lib.negate(c)), a))
  {
    var negation := NegationOf(Const(k));
    MinusSubtractsDays(n, lib, s, a, Const(k), TypeOf(a, lib), Int);
    assert OptimizeExpr(Const(k), lib, s) == Ok(Const(k));
    NegateResolution(negation.node, lib, s, Const(k));
    assert TypeOf(Const(k), lib) == Int;
    var st := Optimized(negation.node, lib, s);
    assert st.state == negation.node.(dataType := Int);
    assert IsConstant(Const(k), lib);
    assert st.result == Ok(Const(NodeValue(st.state, lib, s)));
    assert ExprValue(Const(k), lib, s) == k;
    assert OptimizeExpr(negation, lib, s) == st.result;
  }

  /** DATE/TIMESTAMP minus TIME is a TIMESTAMP; minus DATE/TIMESTAMP it is
      DATEDIFF('DAY', right, left); TIME minus TIME is a TIME. */
  lemma MinusDates(n: Node, lib: Lib, s: Session, a: Expr, b: Expr, l: TypeTag, r: TypeTag)
    requires OperandsResolve(n, lib, s, a, b) && n.op == Minus
    requires l == TypeOf(a, lib) && r == TypeOf(b, lib)
    ensures var st := Optimized(n, lib, s);
      var kept := n.(left := a, right := Some(b));
      && (IsDateLike(l) && r == Time ==> st == Keep(kept.(dataType := Timestamp)))
      && (IsDateLike(l) && IsDateLike(r) ==> st.result == Ok(DateDiff("DAY", b, a)))
      && (l == Time && r == Time ==> st == Keep(kept.(dataType := Time)))
  {
    var n2 := n.(left := a, right := Some(b), dataType := Decimal);
    if (IsDateLike(l) && (r == Time || IsDateLike(r))) || (l == Time && r == Time) {
      assert Optimized(n, lib, s) == Temporal(n2, l, r, lib, s) == TemporalRewrite(n2, l, r, lib);
    }
  }

  /** TIME times a number, in either order, and TIME divided by a number keep
      the node, typed TIME, with TIME on the left and the number no longer
      converted to the node's type. */
  lemma ScaledTime(n: Node, lib: Lib, s: Session, a: Expr, b: Expr, l: TypeTag, r: TypeTag)
    requires OperandsResolve(n, lib, s, a, b) && (n.op == Multiply || n.op == Divide)
    requires l == TypeOf(a, lib) && r == TypeOf(b, lib)
    requires l == Time || (n.op == Multiply && r == Time)
    ensures var st := Optimized(n, lib, s);
      var (time, number) := if l == Time then (a, b) else (b, a);
      && st == Keep(n.(left := time, right := Some(number), dataType := Time, convertRight := false))
      && TypeOf(st.state.left, lib) == Time
  {
    var n2 := n.(left := a, right := Some(b), dataType := Decimal);
    assert Optimized(n, lib, s) == Temporal(n2, l, r, lib, s) == TemporalRewrite(n2, l, r, lib);
  }

  // ------------------------------------------------------------ convertRight

  /** A TIME multiply or divide node: the operators whose number operand is
      not converted to the node's type. */
  predicate ScalesTime(m: Node) {
    (m.op == Multiply || m.op == Divide) && m.dataType == Time
  }

  /** Resolution clears `convertRight` only when it keeps a TIME multiply or
      divide node, and it always clears it on such a node that it keeps. */
  lemma {:induction false} ConvertRightClearedOnlyForTime(n: Node, lib: Lib, s: Session)
    requires WfNode(n) && n.convertRight
    ensures var st := Optimized(n, lib, s);
      !st.state.convertRight ==>
        && (n.op == Multiply || n.op == Divide)
        && st.state.op == n.op
        && st.state.dataType == Time
        && st == Keep(st.state)
    ensures var st := Optimized(n, lib, s);
      st == Keep(st.state) && ScalesTime(st.state) ==> !st.state.convertRight
  {
    match OptimizeExpr(n.left, lib, s)
    case Unsupported(_, _, _) =>
    case Ok(a) =>
      if n.op != Negate {
        match OptimizeExpr(n.right.value, lib, s)
        case Unsupported(_, _, _) =>
        case Ok(b) =>
          var l, r := TypeOf(a, lib), TypeOf(b, lib);
          var n1 := if n.op == Concat then n.(left := a) else n.(left := a, dataType := Decimal);
          var n2 := n1.(right := Some(b));
          if n.op != Concat && !Untyped(l, r) && (IsTemporal(l) || IsTemporal(r)) {
            if NegatingSubtraction(n.op, l, r) {
              MinusSubtractsDays(n, lib, s, a, b, l, r);
            } else {
              assert Optimized(n, lib, s) == TemporalRewrite(n2, l, r, lib);
            }
          }
      }
  }

  /** How a node that resolution keeps evaluates its operands: the left one
      is always converted to the resolved type, and so is the right one,
      except in a TIME multiply or divide, which uses the number as it is. */
  lemma ResolvedOperandConversion(n: Node, lib: Lib, s: Session, s2: Session)
    requires WfNode(n) && n.convertRight && n.right.Some?
    requires Optimized(n, lib, s) == Keep(Optimized(n, lib, s).state)
    ensures var m := Optimized(n, lib, s).state;
      && m.right.Some?
      && LeftOperand(m, lib, s2) == lib.convertTo(ExprValue(m.left, lib, s2), m.dataType)
      && (!ScalesTime(m) ==> RightOperand(m, lib, s2) == lib.convertTo(ExprValue(m.right.value, lib, s2), m.dataType))
      && (ScalesTime(m) ==> RightOperand(m, lib, s2) == ExprValue(m.right.value, lib, s2))
  {
    ConvertRightClearedOnlyForTime(n, lib, s);
  }

  // ------------------------------------------------------------ constant folding

  /** A node is only ever replaced by a literal when its resolved operands are
      all constant, and the literal is the value of the resolved node: in any
      session that gives the operands the same values and has the same
      NULL-concatenation flag, the literal and the node evaluate alike. */
  lemma {:induction false} FoldingPreservesValue(n: Node, lib: Lib, s: Session, s2: Session, v: Value)
    requires WfNode(n) && Optimized(n, lib, s).result == Ok(Const(v))
    requires s2.mode.nullConcatIsNull == s.mode.nullConcatIsNull
    requires var m := Optimized(n, lib, s).state;
      && ExprValue(m.left, lib, s2) == ExprValue(m.left, lib, s)
      && (m.right.Some? ==> ExprValue(m.right.value, lib, s2) == ExprValue(m.right.value, lib, s))
    ensures var m := Optimized(n, lib, s).state;
      && IsConstant(m.left, lib) && (m.right.None? || IsConstant(m.right.value, lib))
      && ExprValue(Const(v), lib, s2) == NodeValue(m, lib, s2)
  {
    var m := Optimized(n, lib, s).state;
    FoldedOnlyOverConstants(n, lib, s);
    NodeValueReadsOnlyOperands(m, lib, s, s2);
  }

  /** Every `Const` result of `optimize` is the fold of the final state. */
  lemma {:induction false} FoldedOnlyOverConstants(n: Node, lib: Lib, s: Session)
    requires WfNode(n)
    ensures var st := Optimized(n, lib, s);
      st.result.Ok? && st.result.value.Const? ==> st.result == Fold(st.state, lib, s).result
  {
    match OptimizeExpr(n.left, lib, s)
    case Unsupported(_, _, _) =>
    case Ok(a) =>
      if n.op != Negate {
        match OptimizeExpr(n.right.value, lib, s)
        case Unsupported(_, _, _) =>
        case Ok(b) =>
          var l, r := TypeOf(a, lib), TypeOf(b, lib);
          if n.op != Concat && !Untyped(l, r) && (IsTemporal(l) || IsTemporal(r)) {
            TemporalOutcome(n, lib, s, a, b, l, r);
          }
      }
  }
}
