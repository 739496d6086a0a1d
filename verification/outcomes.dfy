/** Result wrappers shared by the stepper and the session.

    `Option` stands for the one-shot generator of the stepper: it either yields
    the next record or is exhausted. `Checked` stands for evaluating the
    source's floating-point expressions: either a value, or the
    division-by-zero error that Python raises when a denominator is exactly 0.
 */
module Outcomes {

  datatype Option<+T> = None | Some(value: T)

  datatype Checked<+T> = Ok(value: T) | DivisionByZero
}
