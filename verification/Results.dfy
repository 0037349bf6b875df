/** Outcomes of fallible operations, and the errors that tell them apart. */
module Results {

  datatype Option<+T> = None | Some(value: T) {
    predicate IsFailure() { None? }

    function PropagateFailure<U>(): Option<U>
      requires None?
    {
      None
    }

    function Extract(): T
      requires Some?
    {
      value
    }

    function OkOr(error: VaultError): Result<T> {
      if None? then Err(error) else Ok(value)
    }
  }

  datatype Result<+T> = Ok(value: T) | Err(error: VaultError) {
    predicate IsFailure() { Err? }

    function PropagateFailure<U>(): Result<U>
      requires Err?
    {
      Err(error)
    }

    function Extract(): T
      requires Ok?
    {
      value
    }
  }

  /** Why a cryptographic step failed. The source keeps this in the message text. */
  datatype CryptoCause = Random | Kdf | Hkdf | Hmac | LockedMemory | Aead | CounterOverflow

  /** Which documented limit an argument broke. */
  datatype InputCause = PasswordTooShort | NameTooLong | DataTooLarge | IndexFull

  datatype VaultError =
    | InvalidPassword
    | InvalidInput(limit: InputCause)
    | CryptoError(cause: CryptoCause)
    | CorruptedData
    | SerializationError

  /** `?` on a check that yields nothing. */
  function Guard(condition: bool, error: VaultError): Result<()> {
    if condition then Ok(()) else Err(error)
  }
}
