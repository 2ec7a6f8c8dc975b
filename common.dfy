/** Values shared by every service: optional values, results carrying a Java
    exception, and the status a site row can be in. */
module Common {

  datatype Option<+T> = None | Some(value: T)

  /** The Java exception classes the core throws or catches. SocketTimeout is a
      subclass of IO, as java.net.SocketTimeoutException is of IOException. */
  datatype ExceptionKind =
    | IllegalArgument
    | Runtime
    | EntityNotFound
    | IO
    | SocketTimeout
    | PessimisticLockingFailure
    | NullPointer
    | DataIntegrityViolation
    | Other

  datatype Exception = Exception(kind: ExceptionKind, message: string)
  {
    /** `catch (IOException e)` also catches its subclass SocketTimeoutException. */
    predicate IsIOException() {
      kind == IO || kind == SocketTimeout
    }
  }

  /** A call that either returns a value or throws. */
  datatype Result<+T> = Ok(value: T) | Err(error: Exception)

  /** The parts of a java.net.URL the core reads. Parsing itself is a parameter
      of the operations that need it, `parse: string -> Option<Url>`, None where
      the constructor throws MalformedURLException. */
  datatype Url = Url(protocol: string, host: string, path: string, query: Option<string>)

  /** searchengine.model.Status */
  datatype Status = Indexing | Indexed | Failed
}
