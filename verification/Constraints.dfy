/** Linear constraint relations shared by the solvers. */
module Constraints {

  datatype ConstraintRelation = LessOrEqual | Equal | GreaterOrEqual

  predicate HoldsReal(relation: ConstraintRelation, lhs: real, rhs: real) {
    match relation
    case LessOrEqual => lhs <= rhs
    case Equal => lhs == rhs
    case GreaterOrEqual => lhs >= rhs
  }

  predicate HoldsInt(relation: ConstraintRelation, lhs: int, rhs: int) {
    match relation
    case LessOrEqual => lhs <= rhs
    case Equal => lhs == rhs
    case GreaterOrEqual => lhs >= rhs
  }
}
