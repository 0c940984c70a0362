/** Error kinds of the board and turn logic, and the Result wrapper that carries them. */
module Errors {

  /** The conditions the source reports through its error types (only their kind matters here). */
  datatype Error =
    | InvalidLocation   // a location absent from the board or the labelling, or not an entry point
    | InvalidPlacement  // the spare at the requested rotation would open off the board edge
    | NoPath            // the labelling says the two cells are not connected
    | PlayerNotFound    // no tile reports the moving player
    | WrongPlayer       // a player that does not take part (start of game, or no next player)

  datatype Result<+T> = Ok(value: T) | Err(error: Error)

  datatype Option<+T> = None | Some(value: T)
}
