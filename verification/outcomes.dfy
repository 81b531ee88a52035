/** Optional values and operation outcomes shared by the models.
    `None` stands for a C# `null` reference; `Failure` for a thrown exception. */
module Outcomes {

  datatype Option<+T> = None | Some(value: T) {
    /** The value, or `default` when there is none (C#'s `??`). */
    function GetOr(default: T): T {
      match this
      case Some(v) => v
      case None => default
    }
  }

  /** The exceptions the modelled code throws itself. */
  datatype Error = ArgumentNull(paramName: string) | InvalidOperation

  datatype Result<+R> = Success(value: R) | Failure(error: Error)
}
