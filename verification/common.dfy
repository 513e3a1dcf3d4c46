/** Option and Result wrappers shared by the whole model, and the errors that
    escape the generator as uncaught Python exceptions. */
module Common {

  datatype Option<T> = None | Some(value: T)

  /** Every exception the modelled code lets propagate. */
  datatype Error =
    | BadDate(text: string)    // datetime.strptime raised ValueError on a `date` string
    | NotAMapping              // front matter loaded to a truthy value that is not a dict (TypeError)
    | YamlFailure              // yaml.safe_load raised outside a `try`, or a non-ValueError inside it
    | IncomparableDates        // list.sort compared a date with something that is not a date (TypeError)

  datatype Result<T> = Ok(value: T) | Err(error: Error)
}
