/** Three-valued logic of the configuration language: n = 0, m = 1, y = 2. */
module Tristates {

  datatype Option<+T> = None | Some(value: T)

  type Tristate = t: int | 0 <= t <= 2

  const NO: Tristate := 0
  const MOD: Tristate := 1
  const YES: Tristate := 2

  /** The two binary connectives; every pass treats them as duals of each other. */
  datatype Op = AndOp | OrOp {
    function Dual(): Op {
      if this == AndOp then OrOp else AndOp
    }
  }

  function Min(a: Tristate, b: Tristate): Tristate {
    if a < b then a else b
  }

  function Max(a: Tristate, b: Tristate): Tristate {
    if a > b then a else b
  }

  function Neg(a: Tristate): Tristate {
    2 - a
  }

  function Apply(op: Op, a: Tristate, b: Tristate): Tristate {
    match op
    case AndOp => Min(a, b)
    case OrOp => Max(a, b)
  }

  /** The value that leaves the other operand alone. */
  function NeutralValue(op: Op): Tristate {
    if op == AndOp then YES else NO
  }

  /** The value that decides the result on its own. */
  function AbsorbingValue(op: Op): Tristate {
    if op == AndOp then NO else YES
  }

  function FromBool(b: bool): Tristate {
    if b then YES else NO
  }

  /** Kleene information order: `b` keeps every definite value of `a`; only an m may become definite. */
  predicate Refines(a: Tristate, b: Tristate) {
    a == MOD || a == b
  }

  function TriString(t: Tristate): string {
    if t == NO then "n" else if t == MOD then "m" else "y"
  }

  lemma ApplyUnits(op: Op, v: Tristate)
    ensures Apply(op, NeutralValue(op), v) == v == Apply(op, v, NeutralValue(op))
    ensures Apply(op, AbsorbingValue(op), v) == AbsorbingValue(op) == Apply(op, v, AbsorbingValue(op))
  {}

  /** AND and OR are associative and commutative, so factors may be regrouped. */
  lemma ApplyAssoc(op: Op, a: Tristate, b: Tristate, c: Tristate)
    ensures Apply(op, a, Apply(op, b, c)) == Apply(op, Apply(op, a, b), c)
  {}

  lemma ApplyRegroup(op: Op, a: Tristate, x: Tristate, b: Tristate, y: Tristate)
    ensures Apply(op, Apply(op, a, x), Apply(op, b, y)) == Apply(op, Apply(op, a, b), Apply(op, x, y))
  {}
}
