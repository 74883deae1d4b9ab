/** The optional value the game code returns where Python returns `None`. */
module Wrappers {

  datatype Option<+T> = None | Some(value: T)

}
