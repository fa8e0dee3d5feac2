/**
 * Shared vocabulary of the model: bytes, filesystem paths, the exceptions the
 * Python code can raise, and the failure-compatible result types that carry them.
 */
module Common {

  /** One byte of file or archive content. */
  newtype Byte = b: int | 0 <= b < 256

  type Bytes = seq<Byte>

  /** A filesystem path as its sequence of components; `[]` is the root. */
  type Path = seq<string>

  /** The exceptions of the modelled code, one constructor per kind. */
  datatype Error =
    | AssertionFailed(message: string)      // a failed `assert` statement
    | NoExtractor(archiveName: string)      // no extractor pattern matched
    | TempExhausted(last: Path)             // 100 temp-name candidates all existed
    | FileExists(path: Path)                // FileExistsError
    | NotADirectory(path: Path)             // NotADirectoryError
    | NotFound(path: Path)                  // FileNotFoundError
    | IsADirectory(path: Path)              // IsADirectoryError
    | InvalidMove(source: Path, target: Path) // rename of a directory into itself
    | IndexError                            // subscript out of range
    | KeyError(key: string)                 // missing mapping key or archive member
    | AttributeError(message: string)       // missing attribute or method
    | NotImplemented                        // NotImplementedError of an abstract method
    | ImportFailed(moduleName: string)        // `__import__` raised
    | FetchFailed(message: string)          // network or decoding failure

  datatype Option<+T> = None | Some(value: T)

  /** Either a value or the exception that was raised instead. */
  datatype Result<+T> = Success(value: T) | Failure(error: Error) {
    predicate IsFailure() {
      Failure?
    }

    function PropagateFailure<U>(): Result<U>
      requires Failure?
    {
      Failure(error)
    }

    function Extract(): T
      requires Success?
    {
      value
    }
  }

  /** Completion of a statement that returns nothing: normal or by exception. */
  datatype Outcome = Ok | Fail(error: Error) {
    predicate IsFailure() {
      Fail?
    }

    function PropagateFailure(): Outcome
      requires Fail?
    {
      this
    }
  }
}
