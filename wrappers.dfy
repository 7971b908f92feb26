/** The optional value that stands for a C# nullable reference. */
module Wrappers {

  datatype Option<+T> = None | Some(value: T)
}
