/** The one failure-carrying datatype the model uses: a step of the bundler either
    yields a value or aborts with an error, which is propagated and never recovered. */
module Wrappers {

  datatype Result<+T, +E> = Success(value: T) | Failure(error: E)
}
