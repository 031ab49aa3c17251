/** Result shapes shared by the whole model. */
module Results {

  /** A value that may be absent: a lookup that found nothing, an unset field. */
  datatype Option<T> = None | Some(value: T)

  /** The outcome of a guard chain: the value it lets through, or the message of the first guard that failed. */
  datatype Result<T> = Ok(value: T) | Err(message: string)

  /** What every server action hands back to its caller: exactly one of `{ success }` or `{ error }`. */
  datatype ActionResult = Success(message: string) | Error(message: string)
}
