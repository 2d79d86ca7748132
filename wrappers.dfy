/** Option and Result values, and the exception kinds the services raise. */
module Wrappers {

  datatype Option<+T> = None | Some(value: T)

  /** The Java exception an operation ends with, by kind. */
  datatype Error =
    | NoSuchElement      // java.util.NoSuchElementException: a missing row, user or OTP
    | Security           // java.lang.SecurityException: ownership or signature check failed
    | IllegalArgument    // java.lang.IllegalArgumentException: bad input, duplicate share, bad OTP, bad Base64
    | IllegalState       // java.lang.IllegalStateException: a user without key material
    | UsernameNotFound   // the security context names a user that is not in the users table
    | Crypto             // any other key-service failure: a bad tag, a bad key encoding, a short blob, a null key column
    | NullPointer        // java.lang.NullPointerException raised outside a try block
    | Runtime            // the RuntimeException that FileService wraps every other failure in

  datatype Result<+T> = Success(value: T) | Failure(error: Error) {
    predicate IsFailure() { Failure? }

    function PropagateFailure<U>(): Result<U>
      requires Failure?
    {
      Failure(error)
    }

    function Extract(): T
      requires Success?
    {
      value
    }
  }

  /** An optional lookup as a result: the value, or the given exception when it is absent. */
  function Require<T>(o: Option<T>, e: Error): (r: Result<T>)
    ensures r.Success? <==> o.Some?
    ensures r.Success? ==> r.value == o.value
    ensures r.Failure? ==> r.error == e
  {
    match o
    case Some(v) => Success(v)
    case None => Failure(e)
  }
}
