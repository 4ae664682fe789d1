/** Failure-carrying values shared by every module of the model. */
module Wrappers {

  datatype Option<+T> = None | Some(value: T)

  datatype Result<+T, +E> = Success(value: T) | Failure(error: E)

  /** The Python exceptions the modelled code lets escape to its caller. */
  datatype Raised =
    | TypeError          // parse_date_input with no interpretation; None + str in parse_json_list
    | KeyError           // Radarr.run_command without a `name` argument
    | UnboundLocalError  // Radarr.delete_movie with neither flag given
}
