/** The Option type used for values a script may lack: a missing file, an
    unparseable date, an unset environment variable, "no email found". */
module Wrappers {

  datatype Option<+T> = None | Some(value: T)
}
