/** The optional result shared by the whole model: None stands for a thrown exception,
    a null result or a lookup that found nothing, as the using module says. */
module Wrappers {
  datatype Option<+T> = None | Some(value: T)
}
