/** What an operation node reports about itself without evaluating anything:
    its SQL text, cost, precision, display size, scale and the visitor check. */
module Rendering {
  import opened Values
  import opened Expressions

  /** `getOperationToken`: one symbol, two for CONCAT; "-" is shared by
      exactly MINUS and NEGATE. */
  function Token(op: OpType): (t: string)
    ensures |t| == (if op == Concat then 2 else 1)
    ensures t == "-" <==> op == Minus || op == Negate
  {
    match op
    case Negate => "-"
    case Concat => "||"
    case Plus => "+"
    case Minus => "-"
    case Multiply => "*"
    case Divide => "/"
    case Modulus => "%"
  }

  /** Reading a token back: the operator it stands for, given whether the
      operation is unary. */
  function OpOfToken(t: string, unary: bool): (r: Option<OpType>)
    ensures r.Some? ==> Token(r.value) == t && (r.value == Negate <==> unary)
  {
    if unary then (if t == "-" then Some(Negate) else None)
    else if t == "||" then Some(Concat)
    else if t == "+" then Some(Plus)
    else if t == "-" then Some(Minus)
    else if t == "*" then Some(Multiply)
    else if t == "/" then Some(Divide)
    else if t == "%" then Some(Modulus)
    else None
  }

  /** Every operator is recovered from its token; MINUS and NEGATE share "-"
      and are told apart by arity. */
  lemma TokenRoundTrip(op: OpType)
    ensures OpOfToken(Token(op), op == Negate) == Some(op)
  {
  }

  // ---------------------------------------------------------------- SQL text

  function ExprSql(e: Expr, lib: Lib): string
    requires WfExpr(e)
    decreases e, 1
  {
    match e
    case Op(n) => NodeSql(n, lib)
    case _ => AtomInfo(e, lib).sql
  }

  /** `getSQL`: the operation in parentheses; a negation is written "- x",
      with the space, so that two minus signs never meet. */
  function NodeSql(n: Node, lib: Lib): (sql: string)
    requires WfNode(n)
    ensures |sql| >= 4 && sql[0] == '(' && sql[|sql| - 1] == ')'
    ensures n.op == Negate ==> sql[..3] == "(- "
    decreases n, 0
  {
    var inner :=
      if n.op == Negate then "- " + ExprSql(n.left, lib)
      else ExprSql(n.left, lib) + " " + Token(n.op) + " " + ExprSql(n.right.value, lib);
    "(" + inner + ")"
  }

  /** The token of a rendered operation, cut out of its text given the texts
      of its operands: between "(" + left + " " and " " + right + ")", or the
      "-" after "(" for a negation. */
  function ReadToken(sql: string, left: string, right: string, unary: bool): string {
    if unary then (if |sql| >= 2 then sql[1..2] else "")
    else if |left| + 2 <= |sql| - |right| - 2 then sql[|left| + 2 .. |sql| - |right| - 2]
    else ""
  }

  /** The text of an operation reads back: the operand texts stand where the
      rendering put them, and the token between them gives the operator. */
  lemma SqlReadBack(n: Node, lib: Lib)
    requires WfNode(n)
    ensures var sql := NodeSql(n, lib);
      var l := ExprSql(n.left, lib);
      var r := if n.right.Some? then ExprSql(n.right.value, lib) else "";
      && OpOfToken(ReadToken(sql, l, r, n.op == Negate), n.op == Negate) == Some(n.op)
      && (n.op == Negate ==> |sql| == |l| + 4 && sql[3..|sql| - 1] == l)
      && (n.op != Negate ==>
            && |sql| == |l| + |r| + |Token(n.op)| + 4
            && sql[1..|l| + 1] == l
            && sql[|l| + 1] == ' ' && sql[|sql| - |r| - 2] == ' '
            && sql[|sql| - |r| - 1..|sql| - 1] == r)
  {
    var sql := NodeSql(n, lib);
    var l := ExprSql(n.left, lib);
    TokenRoundTrip(n.op);
    if n.op == Negate {
      assert sql == "(- " + l + ")";
      assert sql[1..2] == "-";
    } else {
      var r := ExprSql(n.right.value, lib);
      var t := Token(n.op);
      var before, after := "(" + l + " ", " " + r + ")";
      assert sql == before + t + after;
      assert sql[|before|..|before| + |t|] == t;
      assert sql[|l| + 1] == before[|l| + 1] == ' ';
      assert sql[|before| + |t|..] == after;
      assert sql[|sql| - |r| - 1..|sql| - 1] == after[1..|after| - 1] == r;
    }
  }

  /** No "--" in a text: the SQL line-comment marker. */
  predicate NoLineComment(s: string) {
    forall i :: 0 <= i < |s| - 1 ==> !(s[i] == '-' && s[i + 1] == '-')
  }

  /** The operands of a tree that are not operation nodes, left to right. */
  function Atoms(e: Expr): (atoms: seq<Expr>)
    ensures forall a :: a in atoms ==> !a.Op?
    decreases e, 1
  {
    match e
    case Op(n) => NodeAtoms(n)
    case _ => [e]
  }

  function NodeAtoms(n: Node): (atoms: seq<Expr>)
    ensures forall a :: a in atoms ==> !a.Op?
    decreases n, 0
  {
    Atoms(n.left) + (if n.right.Some? then Atoms(n.right.value) else [])
  }

  lemma JoinNoLineComment(a: string, b: string)
    requires NoLineComment(a) && NoLineComment(b)
    requires a == [] || b == [] || a[|a| - 1] != '-' || b[0] != '-'
    ensures NoLineComment(a + b)
  {
    var s := a + b;
    forall i | 0 <= i < |s| - 1
      ensures !(s[i] == '-' && s[i + 1] == '-')
    {
      if i + 1 < |a| {
        assert s[i] == a[i] && s[i + 1] == a[i + 1];
      } else if i >= |a| {
        assert s[i] == b[i - |a|] && s[i + 1] == b[i + 1 - |a|];
      }
    }
  }

  lemma NegationTextNoLineComment(l: string)
    requires NoLineComment(l)
    ensures NoLineComment("(" + ("- " + l) + ")")
  {
    JoinNoLineComment("(- ", l);
    JoinNoLineComment("(- " + l, ")");
    assert "(" + ("- " + l) + ")" == "(- " + l + ")";
  }

  lemma BinaryTextNoLineComment(l: string, t: string, r: string)
    requires NoLineComment(l) && NoLineComment(t) && NoLineComment(r)
    ensures NoLineComment("(" + (l + " " + t + " " + r) + ")")
  {
    var a := "(" + l;
    JoinNoLineComment("(", l);
    var b := a + " ";
    JoinNoLineComment(a, " ");
    var c := b + t;
    JoinNoLineComment(b, t);
    var d := c + " ";
    JoinNoLineComment(c, " ");
    var f := d + r;
    JoinNoLineComment(d, r);
    JoinNoLineComment(f, ")");
    assert "(" + (l + " " + t + " " + r) + ")" == f + ")";
  }

  /** The rendering of a tree contains "--" only if the text of one of its
      non-operation operands does: the operator node never produces one. */
  lemma {:induction false} RenderingHasNoLineComment(e: Expr, lib: Lib)
    requires WfExpr(e)
    requires forall a :: a in Atoms(e) ==> NoLineComment(AtomInfo(a, lib).sql)
    ensures NoLineComment(ExprSql(e, lib))
    decreases e
  {
    match e
    case Op(n) =>
      assert Atoms(e) == Atoms(n.left) + (if n.right.Some? then Atoms(n.right.value) else []);
      RenderingHasNoLineComment(n.left, lib);
      if n.op == Negate {
        NegationTextNoLineComment(ExprSql(n.left, lib));
      } else {
        RenderingHasNoLineComment(n.right.value, lib);
        BinaryTextNoLineComment(ExprSql(n.left, lib), Token(n.op), ExprSql(n.right.value, lib));
      }
    case _ =>
      assert Atoms(e) == [e];
  }

  // ------------------------------------------------------------------- cost

  function Cost(e: Expr, lib: Lib): Int32
    decreases e, 1
  {
    match e
    case Op(n) => NodeCost(n, lib)
    case _ => AtomInfo(e, lib).cost
  }

  /** `getCost`: one more than the operands' costs, in Java `int` arithmetic. */
  function NodeCost(n: Node, lib: Lib): (c: Int32)
    ensures var total := Cost(n.left, lib) + 1 + (if n.right.Some? then Cost(n.right.value, lib) else 0);
      && (INT_MIN <= total <= INT_MAX ==> c == total)
      && Congruent(c, total)
    decreases n, 0
  {
    WrapInt(Cost(n.left, lib) + 1 + (if n.right.Some? then Cost(n.right.value, lib) else 0))
  }

  function OperationCount(e: Expr): nat
    decreases e, 1
  {
    match e
    case Op(n) => NodeOperationCount(n)
    case _ => 0
  }

  function NodeOperationCount(n: Node): nat
    decreases n, 0
  {
    1 + OperationCount(n.left) + (if n.right.Some? then OperationCount(n.right.value) else 0)
  }

  function CostSum(atoms: seq<Expr>, lib: Lib): int
    requires forall a :: a in atoms ==> !a.Op?
  {
    if atoms == [] then 0 else AtomInfo(atoms[0], lib).cost + CostSum(atoms[1..], lib)
  }

  lemma {:induction false} CostSumAppend(a: seq<Expr>, b: seq<Expr>, lib: Lib)
    requires forall x :: x in a + b ==> !x.Op?
    ensures CostSum(a + b, lib) == CostSum(a, lib) + CostSum(b, lib)
  {
    if a != [] {
      assert (a + b)[1..] == a[1..] + b;
      CostSumAppend(a[1..], b, lib);
    } else {
      assert a + b == b;
    }
  }

  lemma CongruentSum(a: int, b: int, c: int, d: int)
    requires Congruent(a, b) && Congruent(c, d)
    ensures Congruent(a + c, b + d)
  {
    var m := 0x1_0000_0000;
    var p, q := (a - b) / m, (c - d) / m;
    assert a - b == m * p;
    assert c - d == m * q;
    assert (a + c) - (b + d) == m * (p + q);
  }

  lemma CongruentTrans(a: int, b: int, c: int)
    requires Congruent(a, b) && Congruent(b, c)
    ensures Congruent(a, c)
  {
    var m := 0x1_0000_0000;
    var p, q := (a - b) / m, (b - c) / m;
    assert a - b == m * p;
    assert b - c == m * q;
    assert a - c == m * (p + q);
  }

  lemma CongruentInRange(a: Int32, b: int)
    requires Congruent(a, b) && INT_MIN <= b <= INT_MAX
    ensures a == b
  {
    var m := 0x1_0000_0000;
    var p := (a - b) / m;
    assert a - b == m * p;
  }

  /** The cost a tree would have in unbounded arithmetic: one per operation
      node plus the costs of its other operands. */
  function ExactCost(e: Expr, lib: Lib): int {
    CostSum(Atoms(e), lib) + OperationCount(e)
  }

  /** The exact cost of an operation node adds up like `getCost`. */
  lemma ExactCostOfNode(n: Node, lib: Lib)
    ensures ExactCost(Op(n), lib)
      == ExactCost(n.left, lib) + 1 + (if n.right.Some? then ExactCost(n.right.value, lib) else 0)
  {
    var e := Op(n);
    assert OperationCount(e) == 1 + OperationCount(n.left)
      + (if n.right.Some? then OperationCount(n.right.value) else 0);
    if n.right.Some? {
      assert Atoms(e) == Atoms(n.left) + Atoms(n.right.value);
      CostSumAppend(Atoms(n.left), Atoms(n.right.value), lib);
    } else {
      assert Atoms(e) == Atoms(n.left);
    }
  }

  lemma {:induction false} TreeCostCongruent(e: Expr, lib: Lib)
    ensures Congruent(Cost(e, lib), ExactCost(e, lib))
    decreases e
  {
    match e
    case Op(n) =>
      TreeCostCongruent(n.left, lib);
      var rCost := if n.right.Some? then Cost(n.right.value, lib) else 0;
      var rExact := if n.right.Some? then ExactCost(n.right.value, lib) else 0;
      if n.right.Some? {
        TreeCostCongruent(n.right.value, lib);
      }
      ExactCostOfNode(n, lib);
      CongruentSum(Cost(n.left, lib) + 1, ExactCost(n.left, lib) + 1, rCost, rExact);
      CongruentTrans(Cost(e, lib), Cost(n.left, lib) + 1 + rCost, ExactCost(e, lib));
    case _ =>
      assert Atoms(e) == [e];
      assert CostSum(Atoms(e), lib) == AtomInfo(e, lib).cost + CostSum([], lib);
  }

  /** The cost of a tree of operations is the number of operation nodes plus
      the costs of its other operands: exactly, when that fits in an `int`,
      and modulo 2^32 always. */
  lemma TreeCost(e: Expr, lib: Lib)
    ensures Congruent(Cost(e, lib), ExactCost(e, lib))
    ensures INT_MIN <= ExactCost(e, lib) <= INT_MAX ==> Cost(e, lib) == ExactCost(e, lib)
  {
    TreeCostCongruent(e, lib);
    if INT_MIN <= ExactCost(e, lib) <= INT_MAX {
      CongruentInRange(Cost(e, lib), ExactCost(e, lib));
    }
  }

  // ------------------------------------------------ precision, size, scale

  function Precision(e: Expr, lib: Lib): Int64
    decreases e, 1
  {
    match e
    case Op(n) => NodePrecision(n, lib)
    case _ => AtomInfo(e, lib).precision
  }

  /** `getPrecision`: the sum for a concatenation (in Java `long`
      arithmetic), the larger of the two otherwise, the operand's own when
      unary. */
  function NodePrecision(n: Node, lib: Lib): (p: Int64)
    ensures n.right.None? ==> p == Precision(n.left, lib)
    ensures n.right.Some? && n.op == Concat
      ==> var sum := Precision(n.left, lib) + Precision(n.right.value, lib);
          && (LONG_MIN <= sum <= LONG_MAX ==> p == sum)
          && (p - sum) % 0x1_0000_0000_0000_0000 == 0
    ensures n.right.Some? && n.op != Concat
      ==> p >= Precision(n.left, lib) && p >= Precision(n.right.value, lib)
          && (p == Precision(n.left, lib) || p == Precision(n.right.value, lib))
    decreases n, 0
  {
    if n.right.Some? then
      var l, r := Precision(n.left, lib), Precision(n.right.value, lib);
      if n.op == Concat then WrapLong(l + r) else Max64(l, r)
    else
      Precision(n.left, lib)
  }

  function Max64(a: Int64, b: Int64): Int64 {
    if a >= b then a else b
  }

  function Max32(a: Int32, b: Int32): Int32 {
    if a >= b then a else b
  }

  function DisplaySize(e: Expr, lib: Lib): Int32
    decreases e, 1
  {
    match e
    case Op(n) => NodeDisplaySize(n, lib)
    case _ => AtomInfo(e, lib).displaySize
  }

  /** `getDisplaySize`: for a concatenation the sum, saturated at the ends of
      the `int` range rather than wrapped; the larger of the two for the other
      binary operators; the operand's own when unary. */
  function NodeDisplaySize(n: Node, lib: Lib): (d: Int32)
    ensures n.right.None? ==> d == DisplaySize(n.left, lib)
    ensures n.right.Some? && n.op == Concat
      ==> var sum := DisplaySize(n.left, lib) + DisplaySize(n.right.value, lib);
          && (INT_MIN <= sum <= INT_MAX ==> d == sum)
          && (sum > INT_MAX ==> d == INT_MAX)
          && (sum < INT_MIN ==> d == INT_MIN)
    ensures n.right.Some? && n.op != Concat
      ==> d >= DisplaySize(n.left, lib) && d >= DisplaySize(n.right.value, lib)
          && (d == DisplaySize(n.left, lib) || d == DisplaySize(n.right.value, lib))
    decreases n, 0
  {
    if n.right.Some? then
      var l, r := DisplaySize(n.left, lib), DisplaySize(n.right.value, lib);
      if n.op == Concat then ClampToInt(l + r) else Max32(l, r)
    else
      DisplaySize(n.left, lib)
  }

  function Scale(e: Expr, lib: Lib): Int32
    decreases e, 1
  {
    match e
    case Op(n) => NodeScale(n, lib)
    case _ => AtomInfo(e, lib).scale
  }

  /** `getScale`: the larger operand scale; the operand's own when unary. */
  function NodeScale(n: Node, lib: Lib): (sc: Int32)
    ensures n.right.None? ==> sc == Scale(n.left, lib)
    ensures n.right.Some?
      ==> sc >= Scale(n.left, lib) && sc >= Scale(n.right.value, lib)
          && (sc == Scale(n.left, lib) || sc == Scale(n.right.value, lib))
    decreases n, 0
  {
    if n.right.Some? then Max32(Scale(n.left, lib), Scale(n.right.value, lib))
    else Scale(n.left, lib)
  }

  // -------------------------------------------------------- visitor check

  /** Whether a tree passes a visitor: exactly when every one of its
      non-operation operands does. */
  predicate Everything(e: Expr, lib: Lib, v: Visitor): (b: bool)
    ensures b <==> forall a :: a in Atoms(e) ==> v in AtomInfo(a, lib).accepts
    decreases e, 1
  {
    match e
    case Op(n) => NodeEverything(n, lib, v)
    case _ => v in AtomInfo(e, lib).accepts
  }

  /** `isEverything`: both operands pass the visitor (the right one only if
      present), that is, every non-operation operand below the node does. */
  predicate NodeEverything(n: Node, lib: Lib, v: Visitor): (b: bool)
    ensures b <==> forall a :: a in NodeAtoms(n) ==> v in AtomInfo(a, lib).accepts
    decreases n, 0
  {
    Everything(n.left, lib, v) && (n.right.None? || Everything(n.right.value, lib, v))
  }
}
