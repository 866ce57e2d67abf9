/**
 * Operator kinds as the tokenizers and parsers use them (`OpType`): the binding order of
 * the node each builds, whether the operator precedes its operands, and how many of the
 * following tokens it consumes.
 */
module Ops {
  datatype OpType = Mul | Div | Add | Sub | Pow | Root | Log | Mod

  /** Operators written before their operands: `sqrt x`, `log b x`. */
  predicate IsForward(op: OpType) {
    op == Root || op == Log
  }

  /** The binding order of the node the operator builds (0 is reserved for numbers). */
  function Order(op: OpType): (n: nat)
    ensures 1 <= n <= 3
    ensures IsForward(op) ==> n == 3
  {
    match op
    case Pow | Root | Log => 3
    case Mul | Div | Mod => 2
    case Add | Sub => 1
  }

  /** Tokens the operator's node takes into `skip`; an infix operator gives one back. */
  function ConsumeCount(op: OpType): (n: nat)
    ensures (op == Root ==> n == 1) && (op == Log ==> n == 2) && (!IsForward(op) ==> n == 2)
  {
    match op
    case Root => 1
    case Log => 2
    case _ => 2
  }
}
