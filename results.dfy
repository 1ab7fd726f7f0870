/** Error kinds returned by the stores and the result type that carries them. */
module Results {

  /** The error values of the packages `post`, `comment` and `user`, plus the
      Go runtime's index-out-of-range panic, which two modelled operations can
      reach. */
  datatype Error =
    | ErrNoPost          // post package: no post with that id
    | ErrNoComm          // comment package: no comment with that id
    | ErrNoUser          // user package: unknown login
    | ErrWrongPassword   // user package: password mismatch
    | ErrAlreadyExist    // user package: login already taken
    | ErrIndexOutOfRange // runtime panic: slice or index out of range

  /** A Go `(value, error)` pair where exactly one side is meaningful. */
  datatype Result<T> = Ok(value: T) | Err(error: Error)
}
