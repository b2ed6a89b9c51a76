/** Values shared by the uploader's components: JavaScript values as the
    listeners and contexts see them, and what a Node-style callback is
    called with. */
module Values {

  datatype Option<+T> = None | Some(value: T)

  /** A JavaScript value, as far as the uploader distinguishes values.
      Objects (functions included) are told apart by identity only. */
  datatype JsValue =
    | Undefined
    | Null
    | Bool(b: bool)
    | Num(n: int)
    | Str(s: string)
    | Object(id: nat)

  /** What a callback `function (err)` observes: it is called with `null`
      (`Called(None)`), with an `Error` carrying a message
      (`Called(Some(msg))`), or it is never called. */
  datatype Reply = NoReply | Called(err: Option<string>)
  {
    predicate IsSuccess() { this == Called(None) }
    predicate IsError() { Called? && err.Some? }
  }
}
