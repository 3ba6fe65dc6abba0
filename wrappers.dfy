/** The Option type the model uses for "the .NET call threw" and "the file is absent". */
module Wrappers {

  datatype Option<+T> = None | Some(value: T)
}
