/** Error values and call outcomes of the prompt library.

    The library reports failures as Go `error` values; here each kind is a
    constructor carrying the data the formatted message would show.  A Go
    runtime panic (an out-of-range index) is a third kind of outcome,
    distinct from an error return.
 */
module Outcomes {

  /** The error kinds the pure part of the library can return. */
  datatype Error =
    | NotFound                                           // no prompt has the requested name
    | CountMismatch(fields: seq<string>)                 // argument count is not twice the placeholder count
    | MissingField(field: string, fields: seq<string>)   // a placeholder has no argument of its name
    | EmptyLibrary                                       // Save called with no prompts

  /** Either a value, an error return, or a runtime panic. */
  datatype Result<+T> = Ok(value: T) | Err(error: Error) | Panic
}
