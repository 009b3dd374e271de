/** Success and failure values shared by every component. */
module Results {
  datatype Option<+T> = None | Some(value: T)

  datatype Result<+T> = Ok(value: T) | Err(error: ValidationError)

  /** The rejected field and the broken rule; a candle failure also names the candle. */
  datatype ValidationError =
    | Invalid(field: string, rule: string)
    | InvalidCandle(index: nat, field: string, rule: string)
}
