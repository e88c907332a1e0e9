/** The enumerations every other part of the solver relies on (headers/pjos/Core.h). */
module Core {

  /** Three-valued value of a variable: in the source Unassigned = -1, False = 0, True = 1. */
  datatype VariableAssignment = Unassigned | False | True

  /** Status of a solver: the result of the last solve, or Solving while it runs. */
  datatype SolverStatus = Unsatisfied | Satisfied | Unknown | Solving

  /**
   * The exceptions the modelled code can raise: SatError is the library's own
   * error type, OutOfRange the one thrown by a bounds-checked vector access.
   */
  datatype Error = SatError(message: string) | OutOfRange
}
