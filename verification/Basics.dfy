/** What both parts of the model use. */
module Basics {

  /** An `unsigned char`, or a `char` by its bits. Where the bound of 255 matters, it is asked for. */
  type byte = char

  datatype Option<+T> = None | Some(value: T)
}
