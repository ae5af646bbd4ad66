/** Value wrappers shared by the attendance and leave services. */
module Common {

  datatype Option<+T> = None | Some(value: T)

  /** The ways a service call can fail. */
  datatype Failure =
    | NotFound                    // an id or (employee, day) lookup matched no row
    | MissingColumn(column: string) // an insert left a NOT NULL column without a value

  datatype Result<+T> = Ok(value: T) | Err(error: Failure)

  /** JavaScript truthiness of an optional string: present and not empty. */
  predicate Truthy(s: Option<string>) {
    s.Some? && s.value != ""
  }

  /**
   * How a service call that may fail leaves its table: `effect` is the new
   * table and the reply on success; on failure the table stays `before`.
   */
  ghost predicate Applied<S, T>(effect: Result<(S, T)>, before: S, after: S, reply: Result<T>) {
    match effect
    case Ok(v) => after == v.0 && reply == Ok(v.1)
    case Err(e) => after == before && reply == Err(e)
  }

  /** The same for a call whose success carries no value. */
  ghost predicate AppliedVoid<S>(effect: Result<S>, before: S, after: S, reply: Result<()>) {
    match effect
    case Ok(t) => after == t && reply == Ok(())
    case Err(e) => after == before && reply == Err(e)
  }
}
