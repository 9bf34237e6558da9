/** The parsed SPDX license expression the segmenter walks. The parser that
    builds it is not part of this model: a tree is taken as given. */
module LicenseExpressions {

  datatype LogicalOperatorType = And | Or

  /** A license reference: its identifier and whether it carries the `+`
      ("or later") suffix. */
  datatype License = License(identifier: string, plus: bool)

  /** A closed form of the expression tree: a license leaf, an AND/OR node,
      or a WITH node, whose left side is always a single license. */
  datatype Expression =
    | LicenseNode(license: License)
    | LogicalOperator(operatorType: LogicalOperatorType, left: Expression, right: Expression)
    | WithOperator(license: License, exceptionId: string)

  /** The number of nodes of `e`, counting a WITH node's license as one. */
  function Size(e: Expression): nat
  {
    match e
    case LicenseNode(_) => 1
    case LogicalOperator(_, left, right) => 1 + Size(left) + Size(right)
    case WithOperator(_, _) => 2
  }

  /** The roots the segmenter accepts: operator nodes, not bare licenses. */
  predicate IsOperator(e: Expression)
  {
    !e.LicenseNode?
  }
}
