/** Result and error values shared by the SOAP client model. */
module Outcomes {

  datatype Option<T> = None | Some(value: T)

  /** The errors the SOAP client returns, one constructor per distinct message. */
  datatype Error =
    | UnmarshalBody                 // "failed to unmarshal SOAP response body"
    | DecodeFailed                  // the decoder could not finish the chosen element
    | InvalidScheme(scheme: string) // "invalid scheme '<scheme>' for SOAP client"
    | OpenSocket                    // "failed to open unix socket: <timeout>"
    | ReadSocket                    // "failed to read from unix socket: <err>"
    | UnexpectedStatus(code: int)   // "unexpected http response status: <code>"
    | Passed(message: string)       // an error of a collaborator, returned as it is

  datatype Result<T> = Ok(value: T) | Err(error: Error)
}
