/** `optimize` as a function of the node's fields: the resolution pass that
    types a node, rewrites date/time arithmetic into DATEADD and DATEDIFF
    calls, and folds constants. Resolving a node gives back the new field
    values together with what the Java method returns. */
module Resolver {
  import opened Values
  import opened Expressions
  import opened Evaluator
  import Rendering

  const SecondsPerDay: Int32 := 60 * 60 * 24

  /** The node's fields after `optimize`, and what it returned. */
  datatype Step = Step(state: Node, result: Result)

  /** A measure that resolution never increases. MINUS weighs three because
      its date rewrites wrap the right operand in two new nodes and resolve
      them again. */
  function OpWeight(op: OpType): nat {
    if op == Minus then 3 else 1
  }

  function Weight(e: Expr): nat
    decreases e, 1
  {
    match e
    case Op(n) => NodeWeight(n)
    case _ => 0
  }

  function NodeWeight(n: Node): nat
    decreases n, 0
  {
    OpWeight(n.op) + Weight(n.left) + (if n.right.Some? then Weight(n.right.value) else 0)
  }

  /** `new Operation(NEGATE, e, null)`. */
  function NegationOf(e: Expr): (neg: Expr)
    ensures WfExpr(e) ==> WfExpr(neg)
    ensures Weight(neg) == 1 + Weight(e)
  {
    Op(NewNode(Negate, e, None))
  }

  /** `new Operation(MULTIPLY, 60 * 60 * 24, e)`: a number of days in seconds. */
  function DaysToSeconds(e: Expr): (seconds: Expr)
    ensures WfExpr(e) ==> WfExpr(seconds)
    ensures Weight(seconds) == 1 + Weight(e)
  {
    var days := Const(IntValue(SecondsPerDay));
    assert WfExpr(days) && Weight(days) == 0;
    Op(NewNode(Multiply, days, Some(e)))
  }

  /** The call `DATEADD(unit, amount, base)`. */
  function DateAdd(unit: string, amount: Expr, base: Expr): Expr {
    FuncCall("DATEADD", [Const(StringValue(unit)), amount, base])
  }

  /** The call `DATEDIFF(unit, from, to)`. */
  function DateDiff(unit: string, from: Expr, to: Expr): Expr {
    FuncCall("DATEDIFF", [Const(StringValue(unit)), from, to])
  }

  /** Both operand types unknown, as in `? + ?`, or both NULL. */
  predicate Untyped(l: TypeTag, r: TypeTag) {
    (l == Null && r == Null) || (l == Unknown && r == Unknown)
  }

  /** The node returns itself. */
  function Keep(n: Node): Step {
    Step(n, Ok(Op(n)))
  }

  /** The last step of `optimize`: a node whose operands are all constant is
      replaced by the literal of its value. */
  function Fold(n: Node, lib: Lib, s: Session): (st: Step)
    requires WfNode(n)
    ensures st.state == n && st.result.Ok?
    ensures st.result.value.Const? <==> IsConstant(n.left, lib) && (n.right.None? || IsConstant(n.right.value, lib))
    ensures st.result.value.Const? ==> st.result.value.v == NodeValue(n, lib, s)
    ensures !st.result.value.Const? ==> st.result.value == Op(n)
  {
    if IsConstant(n.left, lib) && (n.right.None? || IsConstant(n.right.value, lib)) then
      Step(n, Ok(Const(NodeValue(n, lib, s))))
    else
      Keep(n)
  }

  /** The type decision for operands of which neither is a date or time: the
      untyped pair, or the promoted type; PLUS (or, for a promoted string
      type, any operator) may turn into CONCAT; then DECIMAL overrides the
      type chosen. */
  function ResolveOrdinary(n: Node, l: TypeTag, r: TypeTag, lib: Lib, mode: Mode): (m: Node)
    ensures m.dataType == Decimal
    ensures m.op == (if mode.allowPlusForStringConcat
                        && ((n.op == Plus && Untyped(l, r)) || (!Untyped(l, r) && lib.isStringType(lib.higherOrder(l, r))))
                     then Concat else n.op)
    ensures m.left == n.left && m.right == n.right && m.convertRight == n.convertRight
  {
    var typed :=
      if Untyped(l, r) then
        if n.op == Plus && mode.allowPlusForStringConcat then n.(dataType := String, op := Concat)
        else n.(dataType := Decimal)
      else
        var promoted := lib.higherOrder(l, r);
        if lib.isStringType(promoted) && mode.allowPlusForStringConcat then n.(dataType := promoted, op := Concat)
        else n.(dataType := promoted);
    typed.(dataType := Decimal)
  }

  /** The date/time cases other than the two subtractions that negate their
      right operand (those resolve a new node and are in `Temporal`). */
  function TemporalRewrite(n: Node, l: TypeTag, r: TypeTag, lib: Lib): (st: Step)
    requires WfNode(n) && n.right.Some?
    ensures WfNode(st.state)
    ensures st.result.Ok? ==> WfExpr(st.result.value) && Weight(st.result.value) <= NodeWeight(n)
  {
    match n.op
    case Plus =>
      // order the operands: INT < TIME < DATE < TIMESTAMP
      var swapped := r != lib.higherOrder(l, r);
      var m := if swapped then n.(left := n.right.value, right := Some(n.left)) else n;
      var lo := if swapped then r else l;
      var hi := if swapped then l else r;
      if lo == Int then
        Step(m, Ok(DateAdd("DAY", m.left, m.right.value)))
      else if IsFractional(lo) then
        var seconds := DaysToSeconds(m.left);
        Step(m.(left := seconds), Ok(DateAdd("SECOND", seconds, m.right.value)))
      else if lo == Time && hi == Time then
        Keep(m.(dataType := Time))
      else if lo == Time then
        Keep(m.(dataType := Timestamp))
      else
        Step(m, Unsupported(lo, Rendering.Token(n.op), hi))
    case Minus =>
      if IsDateLike(l) && r == Time then
        Keep(n.(dataType := Timestamp))
      else if IsDateLike(l) && IsDateLike(r) then
        Step(n, Ok(DateDiff("DAY", n.right.value, n.left)))
      else if l == Time && r == Time then
        Keep(n.(dataType := Time))
      else
        Step(n, Unsupported(l, Rendering.Token(n.op), r))
    case Multiply =>
      if l == Time then
        Keep(n.(dataType := Time, convertRight := false))
      else if r == Time then
        Keep(n.(left := n.right.value, right := Some(n.left), dataType := Time, convertRight := false))
      else
        Step(n, Unsupported(l, Rendering.Token(n.op), r))
    case Divide =>
      if l == Time then
        Keep(n.(dataType := Time, convertRight := false))
      else
        Step(n, Unsupported(l, Rendering.Token(n.op), r))
    case _ =>
      Step(n, Unsupported(l, Rendering.Token(n.op), r))
  }

  /** `optimize` on a node with fields `n`. An error raised while resolving an
      operand leaves the fields as they were at that point. */
  function Optimized(n: Node, lib: Lib, s: Session): (st: Step)
    requires WfNode(n)
    ensures WfNode(st.state)
    ensures st.result.Ok? ==> WfExpr(st.result.value) && Weight(st.result.value) <= NodeWeight(n)
    decreases NodeWeight(n), 1
  {
    match OptimizeExpr(n.left, lib, s)
    case Unsupported(lt, t, rt) => Step(n, Unsupported(lt, t, rt))
    case Ok(left) =>
      if n.op == Negate then
        var t := TypeOf(left, lib);
        Fold(n.(left := left, dataType := if t == Unknown then Decimal else t), lib, s)
      else
        var n1 := if n.op == Concat then n.(left := left) else n.(left := left, dataType := Decimal);
        match OptimizeExpr(n.right.value, lib, s)
        case Unsupported(lt, t, rt) => Step(n1, Unsupported(lt, t, rt))
        case Ok(right) =>
          var n2 := n1.(right := Some(right));
          var l, r := TypeOf(left, lib), TypeOf(right, lib);
          if n.op == Concat then
            Fold(n2.(dataType := String), lib, s)
          else if Untyped(l, r) || (!IsTemporal(l) && !IsTemporal(r)) then
            Fold(ResolveOrdinary(n2, l, r, lib, s.mode), lib, s)
          else
            Temporal(n2, l, r, lib, s)
  }

  /** The date/time cases of `optimize`, on the node with both operands
      resolved and of types `l` and `r`. */
  function Temporal(n: Node, l: TypeTag, r: TypeTag, lib: Lib, s: Session): (st: Step)
    requires WfNode(n) && n.right.Some?
    ensures WfNode(st.state)
    ensures st.result.Ok? ==> WfExpr(st.result.value) && Weight(st.result.value) <= NodeWeight(n)
    decreases NodeWeight(n), 0
  {
    if n.op == Minus && IsDateLike(l) && (r == Int || IsFractional(r)) then
      // DATEADD(unit, -right, left): the negation is resolved before use
      var unit := if r == Int then "DAY" else "SECOND";
      var right := n.right.value;
      var negation := if r == Int then NegationOf(right) else NegationOf(DaysToSeconds(right));
      assert Weight(negation) <= 2 + Weight(right);
      match OptimizeExpr(negation, lib, s)
      case Unsupported(lt, t, rt) => Step(n.(right := Some(negation)), Unsupported(lt, t, rt))
      case Ok(negated) => Step(n.(right := Some(negated)), Ok(DateAdd(unit, negated, n.left)))
    else
      TemporalRewrite(n, l, r, lib)
  }

  /** `optimize` on an operand: only operation nodes change; constants and
      leaves return themselves, and a function call is left as built. */
  function OptimizeExpr(e: Expr, lib: Lib, s: Session): (r: Result)
    requires WfExpr(e)
    ensures r.Ok? ==> WfExpr(r.value) && Weight(r.value) <= Weight(e)
    decreases Weight(e), 2
  {
    match e
    case Op(n) => Optimized(n, lib, s).result
    case _ => Ok(e)
  }
}
