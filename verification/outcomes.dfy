/** How an operation of the embedding engine ends when it does not simply succeed. */
module Outcomes {

  /** The two ways the engine can stop short. */
  datatype Fault =
    | CapacityExceeded   // an encoder would write at or past the end of the carrier
    | IndexOutOfRange    // the bit decoder reads past the end of the carrier

  /** The result of an encoder: it either wrote everything or stopped at a fault. */
  datatype Outcome = Pass | Fail(fault: Fault)

  /** The result of a decoder that can fault. */
  datatype Result<T> = Ok(value: T) | Err(fault: Fault)
}
