/** The option and result wrappers and the HTTP reply shared by every module of the model. */
module Common {

  datatype Option<+T> = None | Some(value: T) {
    function GetOr(default: T): T {
      match this
      case Some(v) => v
      case None => default
    }
  }

  /** The outcome of a request handler: the value it answers with, or the error it reports. */
  datatype Result<+T, +E> = Ok(value: T) | Err(error: E)

  /** An HTTP answer as the handlers send it: a status code and the JSON body's key and text. */
  datatype Reply = Reply(status: int, key: string, text: string)
}
