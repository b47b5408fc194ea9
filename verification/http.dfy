/** What a route handler sends back: a success status with a body, or an error status with a message. */
module Http {

  datatype Reply<+T> =
    | Ok(status: int, body: T)
    | Fail(status: int, message: string)
}
