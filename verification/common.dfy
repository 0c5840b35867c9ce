/**
 The failure vocabulary shared by the two bidirectional maps.

 The containers signal failure by throwing; here each throw site becomes an
 `Err` carrying one of two kinds, so that a caller's mistake (an absent key or
 value) stays distinct from a broken internal cross-reference.
 */
module Common {

  /** A lookup that may find nothing (the source returns `undefined`). */
  datatype Option<+T> = None | Some(value: T)

  /** `NotFound`: the key or value given to a delete is absent.
      `Inconsistent`: the two internal maps disagree (the source's "in-consistent data"). */
  datatype Error = NotFound | Inconsistent

  datatype Result<+T> = Ok(value: T) | Err(error: Error)

  /** What a mutating call leaves behind: the state after the call, which on a
      failure is whatever had already been written before the throw, and what
      the call returned or raised. */
  datatype Step<+S, +T> = Step(after: S, result: Result<T>)
}
