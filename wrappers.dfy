/** The optional values the bot passes around: an unset configuration value,
    a reply that was or was not sent. */
module Wrappers {

  datatype Option<+T> = None | Some(value: T)
}
