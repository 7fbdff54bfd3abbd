/** `getValue`: evaluating an operation node against a session. */
module Evaluator {
  import opened Values
  import opened Expressions

  predicate IsArithmetic(op: OpType) {
    op == Plus || op == Minus || op == Multiply || op == Divide || op == Modulus
  }

  /** The value operation a binary arithmetic operator delegates to. */
  function Arithmetic(op: OpType, lib: Lib, l: Value, r: Value): Value
    requires IsArithmetic(op)
  {
    match op
    case Plus => lib.add(l, r)
    case Minus => lib.subtract(l, r)
    case Multiply => lib.multiply(l, r)
    case Divide => lib.divide(l, r)
    case Modulus => lib.modulus(l, r)
  }

  function ExprValue(e: Expr, lib: Lib, s: Session): Value
    requires WfExpr(e)
    decreases e, 2
  {
    match e
    case Const(v) => v
    case Leaf(name, _) => s.column(name)
    case FuncCall(f, args) => s.call(f, args)
    case Op(n) => NodeValue(n, lib, s)
  }

  /** The left operand's value, always converted to the node's type. */
  function LeftOperand(n: Node, lib: Lib, s: Session): Value
    requires WfNode(n)
    decreases n, 0
  {
    lib.convertTo(ExprValue(n.left, lib, s), n.dataType)
  }

  /** The right operand's value, converted to the node's type exactly when
      `convertRight` is set. */
  function RightOperand(n: Node, lib: Lib, s: Session): (r: Value)
    requires WfNode(n) && n.right.Some?
    ensures n.convertRight ==> r == lib.convertTo(ExprValue(n.right.value, lib, s), n.dataType)
    ensures !n.convertRight ==> r == ExprValue(n.right.value, lib, s)
    decreases n, 0
  {
    var v := ExprValue(n.right.value, lib, s);
    if n.convertRight then lib.convertTo(v, n.dataType) else v
  }

  function NodeValue(n: Node, lib: Lib, s: Session): (v: Value)
    requires WfNode(n)
    // NULL in either operand of an arithmetic operator, or under NEGATE, gives NULL
    ensures n.op != Concat && LeftOperand(n, lib, s) == NullValue ==> v == NullValue
    ensures IsArithmetic(n.op) && RightOperand(n, lib, s) == NullValue ==> v == NullValue
    ensures n.op == Negate && LeftOperand(n, lib, s) != NullValue
      ==> v == lib.negate(LeftOperand(n, lib, s))
    ensures IsArithmetic(n.op) && LeftOperand(n, lib, s) != NullValue && RightOperand(n, lib, s) != NullValue
      ==> v == Arithmetic(n.op, lib, LeftOperand(n, lib, s), RightOperand(n, lib, s))
    // concatenation: NULL absorbs when the mode says so, and is the identity otherwise
    ensures n.op == Concat && s.mode.nullConcatIsNull
      && (LeftOperand(n, lib, s) == NullValue || RightOperand(n, lib, s) == NullValue)
      ==> v == NullValue
    ensures n.op == Concat && !s.mode.nullConcatIsNull && LeftOperand(n, lib, s) == NullValue
      ==> v == RightOperand(n, lib, s)
    ensures n.op == Concat && !s.mode.nullConcatIsNull && RightOperand(n, lib, s) == NullValue
      ==> v == LeftOperand(n, lib, s)
    ensures n.op == Concat && LeftOperand(n, lib, s) != NullValue && RightOperand(n, lib, s) != NullValue
      ==> v == StringValue(lib.getString(LeftOperand(n, lib, s)) + lib.getString(RightOperand(n, lib, s)))
    decreases n, 1
  {
    var l := LeftOperand(n, lib, s);
    if n.op == Negate then
      if l == NullValue then l else lib.negate(l)
    else
      var r := RightOperand(n, lib, s);
      if n.op == Concat then
        if l == NullValue then
          if s.mode.nullConcatIsNull then NullValue else r
        else if r == NullValue then
          if s.mode.nullConcatIsNull then NullValue else l
        else
          StringValue(lib.getString(l) + lib.getString(r))
      else if l == NullValue || r == NullValue then
        NullValue
      else
        Arithmetic(n.op, lib, l, r)
  }

  /** Two sessions that agree on the NULL-concatenation flag and on the node's
      operand values give the node the same value: evaluation reads nothing
      else of the session. */
  lemma NodeValueReadsOnlyOperands(n: Node, lib: Lib, s1: Session, s2: Session)
    requires WfNode(n)
    requires s1.mode.nullConcatIsNull == s2.mode.nullConcatIsNull
    requires ExprValue(n.left, lib, s1) == ExprValue(n.left, lib, s2)
    requires n.right.Some? ==> ExprValue(n.right.value, lib, s1) == ExprValue(n.right.value, lib, s2)
    ensures NodeValue(n, lib, s1) == NodeValue(n, lib, s2)
  {
  }
}
