// The gRPC status the server calls finish with and the access records carry.

module GrpcStatus {
  /** `grpc::StatusCode`, in the library's order. */
  datatype StatusCode =
    | Ok | Cancelled | Unknown | InvalidArgument | DeadlineExceeded | NotFound
    | AlreadyExists | PermissionDenied | ResourceExhausted | FailedPrecondition
    | Aborted | OutOfRange | Unimplemented | Internal | Unavailable | DataLoss
    | Unauthenticated

  /** `grpc::Status`: a code and an error message. */
  datatype Status = Status(code: StatusCode, message: string)

  /** `grpc::Status::OK`. */
  const OkStatus := Status(Ok, "")
}
