/** The optional value used for the script's optional `--remove` word. */
module Wrappers {

  datatype Option<+T> = None | Some(value: T)
}
