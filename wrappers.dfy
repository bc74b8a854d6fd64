/**
 * Optional values stand for C pointers that may be NULL; C strings are
 * character sequences without their terminating NUL.
 */
module Wrappers {
  datatype Option<T> = None | Some(value: T)

  type String = seq<char>
}
