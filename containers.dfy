/** The value types the evaluation scripts share with the profile creation. */
module Containers {

  /** The flood scenario of a run. Only `bf_2020` and `af_2020` are known members; any other
      member of the enumeration is `OtherScenario`. */
  datatype BeforeOrAfterFloodScenario = Bf2020 | Af2020 | OtherScenario(value: string)
}
