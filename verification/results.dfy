/** Optional values and the Python exceptions that the scraper raises and never catches. */
module Results {

  datatype Option<+T> = None | Some(value: T)

  /** The exceptions the modelled code can raise: an index past the end of a list
      (`url_split[-2]`, `parsed_date[0]`) and a date string `strptime` rejects. */
  datatype Exception = IndexError | ValueError

  /** The outcome of a call: a value, or an exception that propagates to the caller. */
  datatype Result<+T> = Ok(value: T) | Raised(error: Exception)
}
