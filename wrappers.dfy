/** The optional-value type used wherever the handler's Rust code returns an
    `Option` or a `Result` whose error carries no information the handler uses. */
module Wrappers {

  datatype Option<+T> = None | Some(value: T)

}
