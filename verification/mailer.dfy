/** The error shape every provider reports through: a response that was
    received but not successful, or any other failure. */
module Mailer {

  /** An HTTP status code as Rust's `u16`. */
  type u16 = x: int | 0 <= x < 0x1_0000

  datatype MailerError =
    | UnexpectedResponse(status: u16, body: string)
    | UnexpectedError(cause: string)

  /** `StatusCode::is_success`: a status of class 2xx. */
  predicate IsSuccess(status: u16)
    ensures IsSuccess(status) <==> status / 100 == 2
  {
    200 <= status < 300
  }
}
