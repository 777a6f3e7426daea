/**
 * Query expression trees, as the LINQ provider receives them, and the library
 * behaviour the translator relies on but that is not part of this model.
 */
module Expressions {
  import opened Wrappers

  /** Operator kinds of binary nodes; `OtherBinary` stands for the remaining ones. */
  datatype BinaryOp =
    | Equal | NotEqual | GreaterThan | GreaterThanOrEqual | LessThan | LessThanOrEqual
    | AndAlso | OrElse | OtherBinary(name: string)

  /** Operator kinds of unary nodes; `OtherUnary` stands for the remaining ones. */
  datatype UnaryOp = Not | Convert | ConvertChecked | Quote | OtherUnary(name: string)

  /** The node type of an expression, as the translator switches on it. */
  datatype NodeType =
    | Binary(op: BinaryOp)
    | Unary(uop: UnaryOp)
    | Call | Constant | MemberAccess | Parameter | Invoke | New | NewArrayInit | Lambda | MemberInit

  /** A constant's runtime value. */
  datatype Value = NullValue | Str(text: string) | Int(n: int) | Obj(id: nat)

  datatype Expr =
    | BinaryExpr(op: BinaryOp, left: Expr, right: Expr)
    | UnaryExpr(uop: UnaryOp, operand: Expr)
    | MemberExpr(target: Option<Expr>, member: string)
    | ParameterExpr(name: string)
    | ConstantExpr(value: Value)
    | CallExpr(declaringType: string, methodName: string, target: Option<Expr>, args: seq<Expr>)
    | LambdaExpr(body: Expr)
    | NewExpr(args: seq<Expr>)
    | MemberInitExpr(newExpr: Expr, bindings: seq<Binding>)
    | NewArrayInitExpr(elements: seq<Expr>)
    | InvokeExpr(callee: Expr, args: seq<Expr>)

  /** A member assignment inside an object initialiser. */
  datatype Binding = Binding(member: string, value: Expr)

  /** The .NET exceptions the modelled code throws. */
  datatype Exception =
    | ArgumentException
    | ArgumentOutOfRangeException
    | NotSupportedException
    | InvalidCastException
    | InvalidDataException
    | InvalidOperationException
    | IndexOutOfRangeException
    | NullReferenceException
    | ArgumentNullException

  /** The type name of the LINQ operator class. */
  const QueryableType: string := "System.Linq.Queryable"

  function Kind(e: Expr): NodeType
  {
    match e
    case BinaryExpr(op, _, _) => Binary(op)
    case UnaryExpr(uop, _) => Unary(uop)
    case MemberExpr(_, _) => MemberAccess
    case ParameterExpr(_) => Parameter
    case ConstantExpr(_) => Constant
    case CallExpr(_, _, _, _) => Call
    case LambdaExpr(_) => Lambda
    case NewExpr(_) => New
    case MemberInitExpr(_, _) => MemberInit
    case NewArrayInitExpr(_) => NewArrayInit
    case InvokeExpr(_, _) => Invoke
  }

  /** Number of nodes; the termination measure of the visitors. */
  function Size(e: Expr): (n: nat)
    ensures n >= 1
  {
    match e
    case BinaryExpr(_, l, r) => 1 + Size(l) + Size(r)
    case UnaryExpr(_, o) => 1 + Size(o)
    case MemberExpr(t, _) => 1 + (if t.Some? then Size(t.value) else 0)
    case ParameterExpr(_) => 1
    case ConstantExpr(_) => 1
    case CallExpr(_, _, t, args) => 1 + (if t.Some? then Size(t.value) else 0) + SizeAll(args)
    case LambdaExpr(b) => 1 + Size(b)
    case NewExpr(args) => 1 + SizeAll(args)
    case MemberInitExpr(n, bs) => 1 + Size(n) + SizeBindings(bs)
    case NewArrayInitExpr(es) => 1 + SizeAll(es)
    case InvokeExpr(t, args) => 1 + Size(t) + SizeAll(args)
  }

  function SizeAll(es: seq<Expr>): nat
  {
    if es == [] then 0 else Size(es[0]) + SizeAll(es[1..])
  }

  function SizeBindings(bs: seq<Binding>): nat
  {
    if bs == [] then 0 else Size(bs[0].value) + SizeBindings(bs[1..])
  }

  /**
   * The children that the base expression visitor walks, in order, for the
   * node kinds the translator does not override.
   */
  function Children(e: Expr): seq<Expr>
  {
    match e
    case LambdaExpr(b) => [b]
    case NewExpr(args) => args
    case MemberInitExpr(n, bs) => [n] + BindingValues(bs)
    case NewArrayInitExpr(es) => es
    case InvokeExpr(t, args) => [t] + args
    case _ => []
  }

  function BindingValues(bs: seq<Binding>): (vs: seq<Expr>)
    ensures |vs| == |bs|
    ensures SizeAll(vs) == SizeBindings(bs)
  {
    if bs == [] then [] else [bs[0].value] + BindingValues(bs[1..])
  }

  lemma SizeAllAppend(a: seq<Expr>, b: seq<Expr>)
    ensures SizeAll(a + b) == SizeAll(a) + SizeAll(b)
  {
    if a != [] {
      assert (a + b)[1..] == a[1..] + b;
      SizeAllAppend(a[1..], b);
    } else {
      assert a + b == b;
    }
  }

  lemma ChildrenSmaller(e: Expr)
    ensures SizeAll(Children(e)) < Size(e)
  {
    match e
    case MemberInitExpr(n, bs) =>
      SizeAllAppend([n], BindingValues(bs));
      assert SizeAll([n]) == Size(n) by { assert [n][1..] == []; }
    case InvokeExpr(t, args) =>
      SizeAllAppend([t], args);
      assert SizeAll([t]) == Size(t) by { assert [t][1..] == []; }
    case LambdaExpr(b) =>
      assert SizeAll([b]) == Size(b) by { assert [b][1..] == []; }
    case _ =>
  }

  /**
   * Library behaviour the translator calls but that is not part of this model,
   * kept uninterpreted: the extension methods on node kinds and constants, the
   * constant evaluator, the `IEnumerable` view of a value, the printed form of
   * an expression and character classification.
   */
  datatype Runtime = Runtime(
    isSupported: NodeType -> bool,
    serializeType: NodeType -> string,
    serializeConstant: Value -> string,
    evaluate: Expr -> Expr,
    enumerate: Value -> Option<seq<Value>>,
    describe: Expr -> string,
    isWhiteSpace: char -> bool)
}
