/** The optional value used wherever the application reads something that may be absent:
    a store node that does not exist, a server time that could not be fetched, a regex
    execution that found nothing. */
module Wrappers {

  datatype Option<+T> = None | Some(value: T)
}
