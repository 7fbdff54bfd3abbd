/** The expression tree around an operation node: operator tags, operands, the
    state of an operation node, and the external code the node calls. */
module Expressions {
  import opened Values

  /** The seven operator codes; NEGATE is the only unary one. */
  datatype OpType = Concat | Plus | Minus | Multiply | Divide | Negate | Modulus

  /** An expression visitor, identified opaquely. */
  type Visitor = int

  /** What an operand that is not an operation node reports about itself. */
  datatype Info = Info(
    dataType: TypeTag,
    constant: bool,
    cost: Int32,
    precision: Int64,
    displaySize: Int32,
    scale: Int32,
    accepts: set<Visitor>,  // the visitors for which isEverything holds
    sql: string)

  /** An operand. `Leaf` stands for every expression kind not modelled here
      (columns, parameters, aggregates, ...); `FuncCall` is a call of a
      built-in function, built by the date-arithmetic rewrites. */
  datatype Expr =
    | Const(v: Value)
    | Leaf(name: string, info: Info)
    | Op(node: Node)
    | FuncCall(name: string, args: seq<Expr>)

  /** The fields of an operation node. `right` is absent for NEGATE. */
  datatype Node = Node(
    op: OpType,
    left: Expr,
    right: Option<Expr>,
    dataType: TypeTag,
    convertRight: bool)

  datatype Option<T> = None | Some(value: T)

  /** The code the node calls but that is not part of this model: the value
      library and the metadata of constants and function calls. */
  datatype Lib = Lib(
    convertTo: (Value, TypeTag) -> Value,
    add: (Value, Value) -> Value,
    subtract: (Value, Value) -> Value,
    multiply: (Value, Value) -> Value,
    divide: (Value, Value) -> Value,
    modulus: (Value, Value) -> Value,
    negate: Value -> Value,
    getString: Value -> string,
    higherOrder: (TypeTag, TypeTag) -> TypeTag,
    isStringType: TypeTag -> bool,
    constInfo: Value -> Info,
    callInfo: (string, seq<Expr>) -> Info)

  /** The session: its mode flags, and the current values of the operands
      whose evaluation is not modelled. */
  datatype Session = Session(
    mode: Mode,
    column: string -> Value,
    call: (string, seq<Expr>) -> Value)

  /** What resolving a node gives back: an expression to use in its place, or
      the unsupported-operation error with both type codes and the token. */
  datatype Result = Ok(value: Expr) | Unsupported(lType: TypeTag, token: string, rType: TypeTag)

  /** A freshly constructed node: Java leaves `dataType` at 0, the value
      library's NULL code, and `convertRight` starts true. */
  function NewNode(op: OpType, left: Expr, right: Option<Expr>): (n: Node)
    ensures n.op == op && n.left == left && n.right == right && n.convertRight && n.dataType == Null
  {
    Node(op, left, right, Null, true)
  }

  /** Exactly the binary operators carry a right operand, throughout the tree. */
  predicate WfExpr(e: Expr)
    decreases e, 1
  {
    match e
    case Op(n) => WfNode(n)
    case _ => true
  }

  predicate WfNode(n: Node)
    decreases n, 0
  {
    && (n.op == Negate <==> n.right.None?)
    && WfExpr(n.left)
    && (n.right.Some? ==> WfExpr(n.right.value))
  }

  /** Metadata of an operand that is not an operation node. A literal is
      always constant and has its value's type. */
  function AtomInfo(e: Expr, lib: Lib): Info
    requires !e.Op?
  {
    match e
    case Const(v) => lib.constInfo(v).(dataType := TypeOfValue(v), constant := true)
    case Leaf(_, info) => info
    case FuncCall(f, args) => lib.callInfo(f, args)
  }

  /** `getType()`: an operation node reports its `dataType` field. */
  function TypeOf(e: Expr, lib: Lib): (t: TypeTag)
    ensures e.Op? ==> t == e.node.dataType
    ensures e.Const? ==> t == TypeOfValue(e.v)
  {
    if e.Op? then e.node.dataType else AtomInfo(e, lib).dataType
  }

  /** `isConstant()`: an operation node never is (the base-class default). */
  predicate IsConstant(e: Expr, lib: Lib) {
    !e.Op? && AtomInfo(e, lib).constant
  }
}
