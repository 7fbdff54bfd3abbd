/** The operation node as the object `optimize` updates in place. */
module OperationNode {
  import opened Values
  import opened Expressions
  import opened Resolver
  import Evaluator
  import Rendering

  /** An arithmetic or concatenation node: `optimize` reassigns its operator,
      operands, type and conversion flag. Its read-only members are the
      functions of `State()` in Evaluator and Rendering. */
  class Operation {
    var opType: OpType
    var left: Expr
    var right: Option<Expr>
    var dataType: TypeTag
    var convertRight: bool

    constructor (opType: OpType, left: Expr, right: Option<Expr>)
      ensures State() == NewNode(opType, left, right)
      ensures Valid() <==> (opType == Negate <==> right.None?) && WfExpr(left) && (right.Some? ==> WfExpr(right.value))
    {
      this.opType := opType;
      this.left := left;
      this.right := right;
      dataType := Null;
      convertRight := true;
    }

    /** The node's fields as a value. */
    function State(): Node
      reads this
    {
      Node(opType, left, right, dataType, convertRight)
    }

    /** A binary operator has a right operand and NEGATE has none, and the
        same holds inside the operands. */
    predicate Valid()
      reads this
    {
      WfNode(State())
    }

    /** Exchanges the operands; nothing else changes. */
    method Swap()
      requires right.Some?
      modifies this
      ensures left == old(right.value) && right == Some(old(left))
      ensures opType == old(opType) && dataType == old(dataType) && convertRight == old(convertRight)
    {
      var temp := left;
      left := right.value;
      right := Some(temp);
    }

    /** Resolves the node: `res` is what replaces it (the node itself is
        returned as `Op(State())`) or the unsupported-operation error, and the
        fields are left as `Optimized` says. */
    method Optimize(lib: Lib, s: Session) returns (res: Result)
      requires Valid()
      modifies this
      ensures Valid()
      ensures Step(State(), res) == Optimized(old(State()), lib, s)
    {
      var optimizedLeft := OptimizeExpr(left, lib, s);
      if optimizedLeft.Unsupported? {
        return optimizedLeft;
      }
      left := optimizedLeft.value;
      if opType == Negate {
        dataType := TypeOf(left, lib);
        if dataType == Unknown {
          dataType := Decimal;
        }
      } else if opType == Concat {
        var optimizedRight := OptimizeExpr(right.value, lib, s);
        if optimizedRight.Unsupported? {
          return optimizedRight;
        }
        right := Some(optimizedRight.value);
        dataType := String;
        if IsConstant(left, lib) && IsConstant(right.value, lib) {
          return Ok(Const(Evaluator.NodeValue(State(), lib, s)));
        }
      } else {
        dataType := Decimal;
        var optimizedRight := OptimizeExpr(right.value, lib, s);
        if optimizedRight.Unsupported? {
          return optimizedRight;
        }
        right := Some(optimizedRight.value);
        var l, r := TypeOf(left, lib), TypeOf(right.value, lib);
        if (l == Null && r == Null) || (l == Unknown && r == Unknown) {
          if opType == Plus && s.mode.allowPlusForStringConcat {
            dataType := String;
            opType := Concat;
          } else {
            dataType := Decimal;
          }
        } else if IsTemporal(l) || IsTemporal(r) {
          res := OptimizeTemporal(l, r, lib, s);
          return;
        } else {
          dataType := lib.higherOrder(l, r);
          if lib.isStringType(dataType) && s.mode.allowPlusForStringConcat {
            opType := Concat;
          }
        }
        dataType := Decimal;
      }
      if IsConstant(left, lib) && (right.None? || IsConstant(right.value, lib)) {
        return Ok(Const(Evaluator.NodeValue(State(), lib, s)));
      }
      return Ok(Op(State()));
    }

    /** The date/time part of `optimize`: both operands are resolved and have
        the types `l` and `r`, at least one of them a date or time. */
    method OptimizeTemporal(l: TypeTag, r: TypeTag, lib: Lib, s: Session) returns (res: Result)
      requires Valid() && right.Some? && Evaluator.IsArithmetic(opType)
      modifies this
      ensures Valid()
      ensures Step(State(), res) == Temporal(old(State()), l, r, lib, s)
    {
      if opType == Plus {
        res := OptimizeTemporalPlus(l, r, lib);
        return;
      } else if opType == Minus {
        res := OptimizeTemporalMinus(l, r, lib, s);
        return;
      } else if opType == Multiply {
        if l == Time {
          dataType := Time;
          convertRight := false;
          return Ok(Op(State()));
        } else if r == Time {
          Swap();
          dataType := Time;
          convertRight := false;
          return Ok(Op(State()));
        }
      } else if opType == Divide {
        if l == Time {
          dataType := Time;
          convertRight := false;
          return Ok(Op(State()));
        }
      }
      return Unsupported(l, Rendering.Token(opType), r);
    }

    /** PLUS with a date or time operand: the operands are ordered by type,
        and a number of days becomes a DATEADD call. */
    method OptimizeTemporalPlus(l: TypeTag, r: TypeTag, lib: Lib) returns (res: Result)
      requires Valid() && opType == Plus
      modifies this
      ensures Valid()
      ensures Step(State(), res) == TemporalRewrite(old(State()), l, r, lib)
    {
      var l, r := l, r;
      if r != lib.higherOrder(l, r) {
        Swap();
        l, r := r, l;
      }
      if l == Int {
        return Ok(DateAdd("DAY", left, right.value));
      } else if l == Decimal || l == Float || l == Double {
        left := DaysToSeconds(left);
        return Ok(DateAdd("SECOND", left, right.value));
      } else if l == Time && r == Time {
        dataType := Time;
        return Ok(Op(State()));
      } else if l == Time {
        dataType := Timestamp;
        return Ok(Op(State()));
      }
      return Unsupported(l, Rendering.Token(opType), r);
    }

    /** MINUS with a date or time operand: subtracting a number from a date
        adds its resolved negation. */
    method OptimizeTemporalMinus(l: TypeTag, r: TypeTag, lib: Lib, s: Session) returns (res: Result)
      requires Valid() && opType == Minus
      modifies this
      ensures Valid()
      ensures Step(State(), res) == Temporal(old(State()), l, r, lib, s)
    {
      if (l == Date || l == Timestamp) && r == Int {
        right := Some(NegationOf(right.value));
        var negated := OptimizeExpr(right.value, lib, s);
        if negated.Unsupported? {
          return negated;
        }
        right := Some(negated.value);
        return Ok(DateAdd("DAY", right.value, left));
      } else if (l == Date || l == Timestamp) && (r == Decimal || r == Float || r == Double) {
        right := Some(DaysToSeconds(right.value));
        right := Some(NegationOf(right.value));
        var negated := OptimizeExpr(right.value, lib, s);
        if negated.Unsupported? {
          return negated;
        }
        right := Some(negated.value);
        return Ok(DateAdd("SECOND", right.value, left));
      } else if l == Date || l == Timestamp {
        if r == Time {
          dataType := Timestamp;
          return Ok(Op(State()));
        } else if r == Date || r == Timestamp {
          return Ok(DateDiff("DAY", right.value, left));
        }
      } else if l == Time && r == Time {
        dataType := Time;
        return Ok(Op(State()));
      }
      return Unsupported(l, Rendering.Token(opType), r);
    }
  }
}
