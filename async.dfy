/** Cooperative cancellation of asynchronous requests. */
module Async {

  /** A cancellation scope. The request it guards is handed its signal, identified here with the
      scope itself; `aborted` starts false and, once set by `Abort`, is never reset. */
  class Cancellation {
    var aborted: bool

    constructor ()
      ensures !aborted
    {
      aborted := false;
    }

    method Abort()
      modifies this
      ensures aborted
    {
      aborted := true;
    }
  }
}
