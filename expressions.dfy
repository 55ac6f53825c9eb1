/**
 * The fragment of Libra's expression language that the bias analyser builds by hand:
 * numeric literals and variables, compared with `<=` and `<`, combined with `and` and `or`
 * (BinaryComparisonOperation and BinaryBooleanOperation in the analyser).
 */
module Expressions {

  /** A numeric term: a literal or an input/output variable of the network. */
  datatype Term = Lit(value: real) | Var(name: string)

  /** A boolean condition over terms. */
  datatype Formula =
    | Le(left: Term, right: Term)
    | Lt(left: Term, right: Term)
    | And(lhs: Formula, rhs: Formula)
    | Or(lhs: Formula, rhs: Formula)

  /** A total assignment of real values to variable names. */
  type Assignment = string -> real

  function Value(t: Term, env: Assignment): real
  {
    match t
    case Lit(v) => v
    case Var(x) => env(x)
  }

  /** The meaning of a condition under an assignment. */
  predicate Holds(f: Formula, env: Assignment)
  {
    match f
    case Le(a, b) => Value(a, env) <= Value(b, env)
    case Lt(a, b) => Value(a, env) < Value(b, env)
    case And(p, q) => Holds(p, env) && Holds(q, env)
    case Or(p, q) => Holds(p, env) || Holds(q, env)
  }

  /** `lo <= x and x <= hi`, the shape every bound in the analyser takes. */
  function Between(lo: real, x: string, hi: real): (f: Formula)
    ensures forall env: Assignment :: Holds(f, env) <==> lo <= env(x) <= hi
  {
    And(Le(Lit(lo), Var(x)), Le(Var(x), Lit(hi)))
  }
}
