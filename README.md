# Lealone `Operation`: the arithmetic and concatenation node, in Dafny

This project models `Operation`, the node of Lealone's SQL expression tree
(inherited from H2) that stands for `||`, `+`, `-`, `*`, `/`, `%` and unary
minus. It models the node's three jobs:

- **Resolution (`optimize`).** The pass:
  - resolves both operands;
  - picks the result type;
  - may turn `+` into `||`;
  - orders the operands of date arithmetic;
  - rewrites date arithmetic into `DATEADD` and `DATEDIFF` calls, or types it TIME or TIMESTAMP;
  - rejects the other date/time combinations;
  - replaces a node over constants by the literal of its value.
- **Evaluation (`getValue`).** The operands are converted to the node's type, the right one only when `convertRight` is set. Then the NULL rules apply, and the concatenation rule depends on the mode.
- **Metadata.** `getSQL`, the operator tokens, precision, display size, scale, cost and the visitor check.

Modules:

- `Values` (values.dfy): type codes, runtime values, the two mode flags, and Java's `int`/`long` wrap-around and the saturating narrowing of `MathUtils.convertLongToInt`.
- `Expressions` (expressions.dfy): operands, the node's fields as a value (`Node`), and well-formedness (NEGATE has no right operand and the binary operators have one).
  - Everything the node calls but does not define is passed in as a `Lib` record of functions: value arithmetic, conversion, `getString`, type promotion, `isStringType`, and the metadata of constants and function calls.
- `Evaluator` (evaluator.dfy): `getValue`.
- `Rendering` (rendering.dfy): `getSQL`, `getOperationToken`, `getCost`, `getPrecision`, `getDisplaySize`, `getScale` and `isEverything`, each over whole trees.
- `Resolver` (resolver.dfy): `optimize` as a function from the node's fields to its new fields and what it returns, the replacement expression or the unsupported-operation error.
  - Resolution recurses into new nodes it builds. It terminates because a weight of the tree (`Resolver.Weight`, in which MINUS counts three) never increases.
- `OperationNode` (operation.dfy): the node as a class whose fields `optimize` and `swap` reassign in place. The method `Optimize` is proved to leave exactly the fields, and return exactly the result, that `Resolver.Optimized` describes.
- `Resolution` (resolution.dfy): what resolution promises, proved about `Resolver.Optimized`.

The model follows the code where it is surprising:

- The arithmetic paths set the type to DECIMAL before the right operand is resolved, and again after the type decision (`Operation.java:203` and `:317`). So the promoted type, and the STRING chosen when `+` becomes `||`, never survive.
- PLUS over a DECIMAL, FLOAT or DOUBLE and a date wraps the number in an unresolved `86400 *` node. MINUS resolves the negation it builds, and with it the product inside.
- `getSQL` parenthesises the unary case too.
- Resolution is not idempotent on its own output, although a resolution pass is expected to be. When `allowPlusForStringConcat` holds, PLUS over two untyped operands becomes CONCAT typed DECIMAL, and resolving that node again types it STRING. (With the flag off it stays PLUS typed DECIMAL.) `Resolution.ReresolutionChangesType` proves this for a concrete tree.

## Model

| member | source | states |
|---|---|---|
| `Values.WrapInt` | lealone-sql/src/main/java/org/lealone/sql/expression/Operation.java:396 | Java `int` addition: the true sum when it fits, otherwise a value congruent to it modulo 2^32 and inside the `int` range |
| `Values.ClampToInt` | lealone-sql/src/main/java/org/lealone/sql/expression/Operation.java:365 | narrowing a `long` to an `int` saturates: the value itself when it fits, `Integer.MAX_VALUE` above the range and `Integer.MIN_VALUE` below it |
| `Expressions.NewNode` | lealone-sql/src/main/java/org/lealone/sql/expression/Operation.java:63-72 | a new node keeps its operator and operands as given, has type code 0 (NULL) and converts its right operand |
| `Expressions.TypeOf` | lealone-sql/src/main/java/org/lealone/sql/expression/Operation.java:342-345 | `getType` of an operation node is its `dataType` field; a literal reports its value's type |
| `OperationNode.Operation.constructor` | lealone-sql/src/main/java/org/lealone/sql/expression/Operation.java:68-72 | the object's fields are those of `NewNode`: type code 0 (NULL) and `convertRight` set; the object is valid exactly when its operands are well formed and only NEGATE lacks a right operand |
| `Evaluator.NodeValue` | lealone-sql/src/main/java/org/lealone/sql/expression/Operation.java:110-171 | NULL in either converted operand of `+ - * / %`, or under NEGATE, gives NULL; otherwise the matching value operation; for CONCAT NULL absorbs when `nullConcatIsNull` holds and is the identity otherwise, and two non-NULL operands give the concatenation of their strings |
| `Evaluator.NodeValueReadsOnlyOperands` | lealone-sql/src/main/java/org/lealone/sql/expression/Operation.java:110-171 | evaluation reads nothing of the session but the operands' values and the NULL-concatenation flag |
| `Rendering.OpOfToken` | lealone-sql/src/main/java/org/lealone/sql/expression/Operation.java:89-108 | a token read back gives an operator whose token it is, unary exactly for NEGATE |
| `Rendering.Token` | lealone-sql/src/main/java/org/lealone/sql/expression/Operation.java:89-108 | each operator has a one-symbol token, two for CONCAT, and `-` is the token of exactly MINUS and NEGATE |
| `Rendering.TokenRoundTrip` | lealone-sql/src/main/java/org/lealone/sql/expression/Operation.java:89-108 | every operator is recovered from its token and arity, so the token table is one-to-one apart from the shared `-` |
| `Rendering.NodeSql` | lealone-sql/src/main/java/org/lealone/sql/expression/Operation.java:74-87 | the SQL text is parenthesised, unary included, and a negation starts with `(- ` |
| `Rendering.SqlReadBack` | lealone-sql/src/main/java/org/lealone/sql/expression/Operation.java:74-87 | the text reads back: a negation is `(- ` + operand + `)`; a binary text has the left text after `(`, the right text before `)`, a single space after the left text and before the right text, and between those spaces the token, which gives back the operator |
| `Rendering.RenderingHasNoLineComment` | lealone-sql/src/main/java/org/lealone/sql/expression/Operation.java:77-85 | the text of a whole tree contains the line-comment marker `--` only if the text of one of its non-operation operands does |
| `Rendering.NodeCost` | lealone-sql/src/main/java/org/lealone/sql/expression/Operation.java:394-397 | the cost is one more than the operands' costs, in `int` arithmetic: exact when it fits, congruent modulo 2^32 always |
| `Rendering.TreeCost` | lealone-sql/src/main/java/org/lealone/sql/expression/Operation.java:394-397 | a tree's cost is the number of its operation nodes plus its other operands' costs: exactly when that fits in an `int`, modulo 2^32 always |
| `Rendering.NodePrecision` | lealone-sql/src/main/java/org/lealone/sql/expression/Operation.java:347-358 | the sum of the operands' precisions for CONCAT (in `long` arithmetic), the larger one for the other binary operators, the operand's own when unary |
| `Rendering.NodeDisplaySize` | lealone-sql/src/main/java/org/lealone/sql/expression/Operation.java:360-371 | the sum of the display sizes for CONCAT, saturated at the `int` range, the larger one for the other binary operators, the operand's own when unary |
| `Rendering.NodeScale` | lealone-sql/src/main/java/org/lealone/sql/expression/Operation.java:373-379 | the larger of the operands' scales, the operand's own when unary |
| `Rendering.NodeEverything` | lealone-sql/src/main/java/org/lealone/sql/expression/Operation.java:389-392 | a node passes a visitor exactly when every non-operation operand below it does |
| `Rendering.Everything` | lealone-sql/src/main/java/org/lealone/sql/expression/Operation.java:389-392 | a tree passes a visitor exactly when every one of its non-operation operands does, proved from the node case |
| `Resolver.NegationOf` | lealone-sql/src/main/java/org/lealone/sql/expression/Operation.java:255 | the negation node built for a date subtraction is well formed |
| `Resolver.DaysToSeconds` | lealone-sql/src/main/java/org/lealone/sql/expression/Operation.java:266-267 | the `86400 *` node built around a number of days is well formed |
| `Resolver.Fold` | lealone-sql/src/main/java/org/lealone/sql/expression/Operation.java:322-325 | the fields stay as they are; the result is the literal of the node's value exactly when every operand present is constant, and the node itself otherwise |
| `Resolver.ResolveOrdinary` | lealone-sql/src/main/java/org/lealone/sql/expression/Operation.java:203-317 | without date operands the type ends DECIMAL; the operator becomes CONCAT exactly when `allowPlusForStringConcat` holds and either PLUS has a NULL/NULL or UNKNOWN/UNKNOWN pair or the promoted type is a string type, and is unchanged otherwise; operands and `convertRight` are unchanged |
| `Resolver.TemporalRewrite` | lealone-sql/src/main/java/org/lealone/sql/expression/Operation.java:216-310 | the date/time rewrites that resolve nothing further leave a well-formed node and a well-formed replacement |
| `Resolver.Temporal` | lealone-sql/src/main/java/org/lealone/sql/expression/Operation.java:250-273 | the date subtractions that resolve a negation leave a well-formed node and replacement |
| `Resolver.Optimized` | lealone-sql/src/main/java/org/lealone/sql/expression/Operation.java:182-326 | resolution keeps the node well formed, and what it returns is well formed |
| `Resolver.OptimizeExpr` | lealone-sql/src/main/java/org/lealone/sql/expression/Operation.java:183 | resolving an operand gives a well-formed expression |
| `OperationNode.Operation.Swap` | lealone-sql/src/main/java/org/lealone/sql/expression/Operation.java:328-332 | the operands are exchanged and nothing else changes |
| `OperationNode.Operation.Optimize` | lealone-sql/src/main/java/org/lealone/sql/expression/Operation.java:182-326 | the in-place resolution leaves the node valid, with the fields, and returns the result, of `Resolver.Optimized` on its old fields |
| `OperationNode.Operation.OptimizeTemporal` | lealone-sql/src/main/java/org/lealone/sql/expression/Operation.java:216-310 | the in-place date/time resolution agrees with `Resolver.Temporal` |
| `OperationNode.Operation.OptimizeTemporalPlus` | lealone-sql/src/main/java/org/lealone/sql/expression/Operation.java:218-249 | the in-place date/time addition, with its swap, agrees with `Resolver.TemporalRewrite` |
| `OperationNode.Operation.OptimizeTemporalMinus` | lealone-sql/src/main/java/org/lealone/sql/expression/Operation.java:250-290 | the in-place date/time subtraction, which reassigns the right operand before resolving it, agrees with `Resolver.Temporal` |
| `Resolution.OperandErrorsPropagate` | lealone-sql/src/main/java/org/lealone/sql/expression/Operation.java:183-206 | an operand's resolution error is returned unchanged; a left error changes no field, a right error leaves only the new left operand (and, for arithmetic, the DECIMAL type) |
| `Resolution.NegateResolution` | lealone-sql/src/main/java/org/lealone/sql/expression/Operation.java:185-190 | NEGATE takes its operand's type, DECIMAL instead of UNKNOWN, and folds exactly when the operand is constant |
| `Resolution.ConcatResolution` | lealone-sql/src/main/java/org/lealone/sql/expression/Operation.java:191-197 | CONCAT is typed STRING and folds exactly when both operands are constant |
| `Resolution.OrdinaryResolution` | lealone-sql/src/main/java/org/lealone/sql/expression/Operation.java:203-318 | without date operands the type is DECIMAL; the operator becomes CONCAT iff `allowPlusForStringConcat` and either PLUS over a NULL/NULL or UNKNOWN/UNKNOWN pair or a promoted string type (any operator); otherwise it is unchanged; the node folds iff both operands are constant |
| `Resolution.ReresolutionChangesType` | lealone-sql/src/main/java/org/lealone/sql/expression/Operation.java:207-218 | with `allowPlusForStringConcat` set, resolving again a resolved PLUS over two non-constant NULL-typed operands (NULL + NULL, not the UNKNOWN-typed `? + ?` of parameters) changes its type from DECIMAL to STRING |
| `Resolution.TemporalOutcome` | lealone-sql/src/main/java/org/lealone/sql/expression/Operation.java:216-310 | with a date or time operand, a combination outside the supported table fails with both ordered type codes and the token; a supported one succeeds (the date subtractions up to their negation's resolution); nothing is folded; a kept node is TIME or TIMESTAMP |
| `Resolution.PlusAddsDays` | lealone-sql/src/main/java/org/lealone/sql/expression/Operation.java:218-242 | when `getHigherOrder` ranks the date's type above the number's in both argument orders, a date plus an INT, on either side, is `DATEADD('DAY', number, date)`, and plus a fraction it is `DATEADD('SECOND', 86400 * number, date)` with the product unresolved |
| `Resolution.PlusTime` | lealone-sql/src/main/java/org/lealone/sql/expression/Operation.java:218-248 | TIME + TIME is typed TIME and TIME + a higher type TIMESTAMP, with the higher-ordered operand moved to the right |
| `Resolution.MinusSubtractsDays` | lealone-sql/src/main/java/org/lealone/sql/expression/Operation.java:251-273 | a date minus a number adds the resolved negation (of `86400 *` the number for a fraction) with DATEADD; the right operand becomes the negation, and its error is passed on |
| `Resolution.DateMinusIntLiteral` | lealone-sql/src/main/java/org/lealone/sql/expression/Operation.java:251-260 | `date - k` for an INT literal is `DATEADD('DAY', -k, date)` with `-k` folded to a literal |
| `Resolution.MinusDates` | lealone-sql/src/main/java/org/lealone/sql/expression/Operation.java:274-290 | DATE/TIMESTAMP - TIME is typed TIMESTAMP, DATE/TIMESTAMP - DATE/TIMESTAMP is `DATEDIFF('DAY', right, left)`, TIME - TIME is typed TIME |
| `Resolution.ScaledTime` | lealone-sql/src/main/java/org/lealone/sql/expression/Operation.java:291-307 | TIME times a number (either order) or divided by one is typed TIME, with TIME moved to the left and the right operand no longer converted |
| `Resolution.ConvertRightClearedOnlyForTime` | lealone-sql/src/main/java/org/lealone/sql/expression/Operation.java:291-307 | resolution clears `convertRight` only on a kept TIME multiply or divide node, and always clears it on such a node it keeps |
| `Resolution.ResolvedOperandConversion` | lealone-sql/src/main/java/org/lealone/sql/expression/Operation.java:112-121 | in a node built with `convertRight` set (as the constructor leaves it) that resolution keeps, the left operand is always converted to the resolved type, and the right one is too except in a TIME multiply or divide, which uses it unconverted |
| `Resolution.FoldedOnlyOverConstants` | lealone-sql/src/main/java/org/lealone/sql/expression/Operation.java:322-324 | a literal is returned only when all resolved operands are constant, and it is the resolved node's value |
| `Resolution.FoldingPreservesValue` | lealone-sql/src/main/java/org/lealone/sql/expression/Operation.java:322-324 | the folded literal evaluates like the resolved node in every session that agrees on the operands' values and the NULL-concatenation flag |

## Left out

- Resolution of operands that are not operation nodes: `optimize` is called on arbitrary expressions and its result is used (`Operation.java:183` and `:204`), but here a literal, a leaf or a function call resolves to itself and never fails. Only nested operation nodes are resolved.
- The semantics of `DATEADD` and `DATEDIFF`, and `Function.getFunction`, `doneWithParameters` and `Function.optimize`. These live outside the node. A call is the value `FuncCall(name, arguments)`, and resolving it returns it unchanged.
- The value library and type promotion are parameters with no interpretation (`Lib`). This covers `Value` arithmetic, `convertTo`, `getString`, `Value.getHigherOrder`, `DataType.isStringType` and the metadata of literals and function calls. The library is assumed not to throw.
- The error message carries the two type codes and the token. It does not carry `DataType.getDataType(..).name`, which is not part of this model.
- `throwInternalError` for operator codes outside the seven: the operator is a closed datatype, so the case cannot arise.
- `mapColumns`, `setEvaluatable` and `updateAggregate`: they only forward to the operands.
- `getType` is the `dataType` field (`TypeOf`). `isConstant` of an operation node is false, the default of `Expression`, which is not part of this model.
- The `isDistributed` flag of `getSQL`: it is only passed on to the operands.
- Sessions, databases and modes: a `Session` value holds the two mode flags. It also holds the current values of columns and function calls, whose evaluation is not modelled.
- FLOAT and DOUBLE arithmetic: these appear only as type codes.
- Operands are values rather than shared objects. An operand that is itself an `Operation` is the value of its fields, and resolving it replaces it with what its resolution returns. Mutation of a nested operand object that then throws is not modelled (the field keeps the old operand), nor is aliasing between nodes.
