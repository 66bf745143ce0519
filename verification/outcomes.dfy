/** What a handler call ends in, and the table it leaves behind. */
module Outcomes {
  import opened Repository

  /** `ArgNull` and `ArgInvalid` are the thrown `ArgumentNullException` and
      `ArgumentException`; `NotFound` is the `null` result of a key miss;
      `StoreRejected` is an exception Entity Framework or the database raises
      on a write. */
  datatype Outcome<+T> = ArgNull | ArgInvalid | NotFound | StoreRejected | Ok(value: T) {

    /** Caught by a `catch (ArgumentException)`: `ArgumentNullException` derives from it. */
    predicate IsArgumentError() {
      ArgNull? || ArgInvalid?
    }
  }

  datatype Handled<+T> = Handled(outcome: Outcome<T>, table: Table)
}
