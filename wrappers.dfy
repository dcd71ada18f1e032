/** The optional value shared by the deck (a slide's back target) and the
    highlighter (the alternative picked at a position). */
module Wrappers {

  datatype Option<T> = None | Some(value: T)
}
