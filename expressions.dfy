/**
 * The expression tree (`Op` in src/op.rs) and its evaluator. Leaves are numbers; every
 * other node applies one operator. Binary nodes keep the left operand in `x` and the right
 * operand in `y`; Root has only `x`.
 */
module Expressions {
  import opened Wrappers
  import R = Rationals
  import Ops

  datatype Expr =
    | Number(value: R.Rational)
    | Mul(x: Expr, y: Expr)
    | Div(x: Expr, y: Expr)
    | Add(x: Expr, y: Expr)
    | Sub(x: Expr, y: Expr)
    | Pow(x: Expr, y: Expr)
    | Root(x: Expr)
    | Log(x: Expr, y: Expr)
    | Mod(x: Expr, y: Expr)

  /** The operator at the root of the tree, None for a number. */
  function Kind(e: Expr): Option<Ops.OpType> {
    match e
    case Number(_) => None
    case Mul(_, _) => Some(Ops.Mul)
    case Div(_, _) => Some(Ops.Div)
    case Add(_, _) => Some(Ops.Add)
    case Sub(_, _) => Some(Ops.Sub)
    case Pow(_, _) => Some(Ops.Pow)
    case Root(_) => Some(Ops.Root)
    case Log(_, _) => Some(Ops.Log)
    case Mod(_, _) => Some(Ops.Mod)
  }

  /** Evaluation; a Log node's first child is the base. */
  function Apply(e: Expr, fl: R.FloatOps): (r: R.Rational)
    ensures e.Number? ==> r == e.value
    ensures !e.Number? ==> R.Reduce(r) == r
  {
    match e
    case Number(v) => v
    case Mul(x, y) => R.OperatorsReduced(Apply(x, fl), Apply(y, fl)); R.Mul(Apply(x, fl), Apply(y, fl))
    case Div(x, y) => R.OperatorsReduced(Apply(x, fl), Apply(y, fl)); R.Div(Apply(x, fl), Apply(y, fl))
    case Add(x, y) => R.OperatorsReduced(Apply(x, fl), Apply(y, fl)); R.Add(Apply(x, fl), Apply(y, fl))
    case Sub(x, y) => R.OperatorsReduced(Apply(x, fl), Apply(y, fl)); R.Sub(Apply(x, fl), Apply(y, fl))
    case Pow(x, y) => R.Pow(fl, Apply(x, fl), Apply(y, fl))
    case Root(x) => R.Sqrt(fl, Apply(x, fl))
    case Log(x, y) => R.Log(fl, Apply(y, fl), Apply(x, fl))
    case Mod(x, y) => R.Rem(fl, Apply(x, fl), Apply(y, fl))
  }

  /** Binding order of the tree's root node. */
  function GetOrder(e: Expr): (n: nat)
    ensures n <= 3
    ensures n == 0 <==> e.Number?
    ensures !e.Number? ==> n == Ops.Order(Kind(e).value)
  {
    match e
    case Pow(_, _) | Root(_) | Log(_, _) => 3
    case Mul(_, _) | Div(_, _) | Mod(_, _) => 2
    case Add(_, _) | Sub(_, _) => 1
    case Number(_) => 0
  }

  /** The right child of a binary node. */
  function GetY(e: Expr): (r: Option<Expr>)
    ensures r.Some? <==> !e.Number? && !e.Root?
    ensures r.Some? ==> r.value == e.y && r.value < e
  {
    if e.Number? || e.Root? then None else Some(e.y)
  }

  /** Replace the right child of a binary node; numbers and roots are left alone. */
  function ChangeY(e: Expr, n: Expr): (r: Expr)
    ensures GetY(e).Some? ==> GetY(r) == Some(n) && Kind(r) == Kind(e) && r.x == e.x && GetOrder(r) == GetOrder(e)
    ensures GetY(e).None? ==> r == e
  {
    match e
    case Pow(x, _) => Pow(x, n)
    case Log(x, _) => Log(x, n)
    case Mul(x, _) => Mul(x, n)
    case Div(x, _) => Div(x, n)
    case Add(x, _) => Add(x, n)
    case Sub(x, _) => Sub(x, n)
    case Mod(x, _) => Mod(x, n)
    case _ => e
  }

  /** The node a binary operator builds from its two operands (`Op::from_type`). */
  function Binary(op: Ops.OpType, a: Expr, b: Expr): (e: Expr)
    requires op != Ops.Root
    ensures Kind(e) == Some(op) && e.x == a && GetY(e) == Some(b) && GetOrder(e) == Ops.Order(op)
  {
    match op
    case Mul => Mul(a, b)
    case Div => Div(a, b)
    case Add => Add(a, b)
    case Sub => Sub(a, b)
    case Pow => Pow(a, b)
    case Log => Log(a, b)
    case Mod => Mod(a, b)
  }

  /** A binary node is determined by its kind and its two children. */
  lemma BinaryOfParts(e: Expr)
    requires GetY(e).Some?
    ensures Kind(e).value != Ops.Root && Binary(Kind(e).value, e.x, e.y) == e
  {
  }
  /** A tree built only from numbers and the four exact operators. */
  predicate Arithmetic(e: Expr) {
    match e
    case Number(_) => true
    case Mul(x, y) => Arithmetic(x) && Arithmetic(y)
    case Div(x, y) => Arithmetic(x) && Arithmetic(y)
    case Add(x, y) => Arithmetic(x) && Arithmetic(y)
    case Sub(x, y) => Arithmetic(x) && Arithmetic(y)
    case _ => false
  }

  /** An arithmetic tree's value does not depend on the floating-point library. */
  lemma {:induction false} ArithmeticExact(e: Expr, fl: R.FloatOps, fl': R.FloatOps)
    requires Arithmetic(e)
    ensures Apply(e, fl) == Apply(e, fl')
  {
    match e
    case Number(_) =>
    case Mul(x, y) => ArithmeticExact(x, fl, fl'); ArithmeticExact(y, fl, fl');
    case Div(x, y) => ArithmeticExact(x, fl, fl'); ArithmeticExact(y, fl, fl');
    case Add(x, y) => ArithmeticExact(x, fl, fl'); ArithmeticExact(y, fl, fl');
    case Sub(x, y) => ArithmeticExact(x, fl, fl'); ArithmeticExact(y, fl, fl');
  }

  /** A tree of sums, differences and products of defined numbers (nonzero denominators). */
  predicate Defined(e: Expr) {
    match e
    case Number(v) => v.q != 0
    case Mul(x, y) => Defined(x) && Defined(y)
    case Add(x, y) => Defined(x) && Defined(y)
    case Sub(x, y) => Defined(x) && Defined(y)
    case _ => false
  }

  /** Without division, defined numbers give a defined value, in lowest terms unless it is a leaf. */
  lemma {:induction false} DefinedValue(e: Expr, fl: R.FloatOps)
    requires Defined(e)
    ensures Apply(e, fl).q != 0
    ensures !e.Number? ==> R.IsReduced(Apply(e, fl))
  {
    match e
    case Number(_) =>
    case Mul(x, y) =>
      DefinedValue(x, fl); DefinedValue(y, fl);
      R.MulValue(Apply(x, fl), Apply(y, fl));
    case Add(x, y) =>
      DefinedValue(x, fl); DefinedValue(y, fl);
      var (a, b) := (Apply(x, fl), Apply(y, fl));
      R.AddValue(a, b);
      R.NonzeroProduct(a.q, b.q);
      R.ReduceNormal(R.Rational(a.p * b.q + b.p * a.q, a.q * b.q));
    case Sub(x, y) =>
      DefinedValue(x, fl); DefinedValue(y, fl);
      var (a, b) := (Apply(x, fl), Apply(y, fl));
      R.SubValue(a, b);
      R.NonzeroProduct(a.q, b.q);
      R.ReduceNormal(R.Rational(a.p * b.q - b.p * a.q, a.q * b.q));
  }
}
