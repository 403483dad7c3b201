/**
 * The scenario records of the catalog. The catalog itself is static content
 * and enters the model as a parameter; only the fields the core reads are
 * kept.
 */
module Scenarios {
  import opened Wrappers

  /** One line of the canonical answer; a side the data leaves out is `None`. */
  datatype SolutionLine = SolutionLine(account: string, debit: Option<real>, credit: Option<real>)

  /** One entry of a scenario's `keyCalculations` object, in the object's key order. */
  datatype Calculation = Calculation(key: string, value: string)

  /**
   * A scenario: its id orders the catalog, `bondType` is "" when the data has
   * none, and `solution` is `None` when the data has none.
   */
  datatype Scenario = Scenario(
    id: int,
    bondType: string,
    solution: Option<seq<SolutionLine>>,
    keyCalculations: seq<Calculation>)
}
