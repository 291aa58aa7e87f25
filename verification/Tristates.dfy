/** The three-valued logic of configuration values: no < mod < yes. */
module Tristates {
  type Tristate = x: int | 0 <= x <= 2

  const NO: Tristate := 0
  const MOD: Tristate := 1
  const YES: Tristate := 2

  /** Conjunction is the minimum. */
  function AndTri(a: Tristate, b: Tristate): Tristate {
    if a < b then a else b
  }

  /** Disjunction is the maximum. */
  function OrTri(a: Tristate, b: Tristate): Tristate {
    if a > b then a else b
  }

  /** Complement, which fixes mod. */
  function NotTri(a: Tristate): Tristate {
    2 - a
  }

  /** The truth value of a comparison: never mod. */
  function FromBool(b: bool): Tristate {
    if b then YES else NO
  }

  /** The text a tristate value is written as. */
  function Render(t: Tristate): string {
    if t == NO then "n" else if t == MOD then "m" else "y"
  }

  datatype Option<+T> = None | Some(value: T)
}
