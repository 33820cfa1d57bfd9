/** Small result types shared by the model. */
module Replies {

  /** The answer of a lookup: the value, or the application's only error kind,
      an unknown city key, route id or bus id (answered with HTTP 404). */
  datatype Reply<+T> = Found(value: T) | NotFound

  /** An optional query parameter, as `request.args.get(name, None)` returns it. */
  datatype Option<+T> = None | Some(value: T)
}
