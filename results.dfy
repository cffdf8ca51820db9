/** Error reporting shared by the whole engine.  The source raises one
    exception class for every failure; the model returns the failure as a
    value and keeps the cause apart so that contracts can say which check
    fired. */
module Results {

  /** The causes the engine reports. */
  datatype Error =
    | UnknownChar(ch: char)          // a character that is not in the alphabet
    | UnknownRotor(name: string)     // no catalogue rotor has this name
    | DuplicateRotor(name: string)   // the rotor is already in a slot
    | FirstNotReflector              // slot 0 must hold a reflector
    | WrongSettingCount              // the setting string has the wrong length

  /** A value, or the error that stopped its computation. */
  datatype Result<+T> = Ok(value: T) | Err(error: Error)

  /** Success or failure of an operation that returns nothing. */
  datatype Outcome = Pass | Fail(error: Error)

  /** An optional value; the source uses a null reference for None. */
  datatype Option<+T> = None | Some(value: T)
}
