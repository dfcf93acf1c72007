/**
 * C# object references that may be `null`, modelled as an optional value.
 */
module Options {

  datatype Option<T> = None | Some(value: T)

}
