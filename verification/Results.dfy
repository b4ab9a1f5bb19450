/** The result and option types shared by the models, and the error variants they can return. */
module Results {
  datatype Option<+T> = None | Some(value: T)

  datatype Result<+T> = Ok(value: T) | Err(error: EsError)

  /** The variants of the crate's error type that the modelled operations produce. */
  datatype EsError =
    | Migration
    | InvalidPartition
    | RotationOrdinalExhausted(max: nat)
    | IncorrectEventVersion(expected: int, actual: int)
    | InvalidVersion
    | InvalidReadLimit(limit: nat, max: nat)
    | Db
    | UniqueViolation
}
