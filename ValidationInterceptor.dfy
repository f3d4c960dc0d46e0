/**
 * The server interceptor's unary handler: look up a validator for the request type, validate,
 * and either hand the untouched request to the continuation or fail the call with
 * INVALID_ARGUMENT, both as the call status and as the `grpc-status` response header.
 */
module ValidationInterceptor {
  import opened Wrappers
  import opened FluentValidation

  /** The gRPC status codes. */
  datatype StatusCode =
    | OK | Cancelled | Unknown | InvalidArgument | DeadlineExceeded | NotFound | AlreadyExists
    | PermissionDenied | ResourceExhausted | FailedPrecondition | Aborted | OutOfRange
    | Unimplemented | Internal | Unavailable | DataLoss | Unauthenticated

  /** The numeric value of each code, from the gRPC status-code table. */
  function CodeValue(code: StatusCode): nat
  {
    match code
    case OK => 0
    case Cancelled => 1
    case Unknown => 2
    case InvalidArgument => 3
    case DeadlineExceeded => 4
    case NotFound => 5
    case AlreadyExists => 6
    case PermissionDenied => 7
    case ResourceExhausted => 8
    case FailedPrecondition => 9
    case Aborted => 10
    case OutOfRange => 11
    case Unimplemented => 12
    case Internal => 13
    case Unavailable => 14
    case DataLoss => 15
    case Unauthenticated => 16
  }

  /** A call status: its code and its detail text. */
  datatype Status = Status(statusCode: StatusCode, detail: string)

  const StatusTrailerName: string := "grpc-status"
  const StatusTrailerInvalidArgument: string := "3"

  /** The part of the server call context the interceptor writes: the status and the HTTP
      response headers. */
  class ServerCallContext {
    var status: Status
    var responseHeaders: map<string, string>

    constructor (responseHeaders: map<string, string>)
      ensures status == Status(OK, "") && this.responseHeaders == responseHeaders
    {
      status := Status(OK, "");
      this.responseHeaders := responseHeaders;
    }
  }

  /** One invocation of the continuation: its arguments, and the status and response headers
      the context held when it was entered. */
  datatype Call<Req> = Call(request: Req, context: ServerCallContext, status: Status, responseHeaders: map<string, string>)

  /** The continuation: the next handler of the pipeline, which computes the response from the
      request and may write to the context it is given; `calls` records every invocation, and
      `exitStatus` and `exitHeaders` what the context held when the last one returned. */
  class UnaryServerMethod<Req, Resp> {
    const Handle: Req -> Resp
    var calls: seq<Call<Req>>
    ghost var exitStatus: Status
    ghost var exitHeaders: map<string, string>

    constructor (handle: Req -> Resp)
      ensures Handle == handle && calls == []
    {
      Handle := handle;
      calls := [];
    }

    method Invoke(request: Req, context: ServerCallContext) returns (response: Resp)
      modifies this, context
      ensures response == Handle(request)
      ensures calls == old(calls) + [Call(request, context, old(context.status), old(context.responseHeaders))]
      ensures exitStatus == context.status && exitHeaders == context.responseHeaders
    {
      response := Handle(request);
      calls := calls + [Call(request, context, context.status, context.responseHeaders)];
      exitStatus, exitHeaders := context.status, context.responseHeaders;
    }
  }

  /** The gate's verdict: let the call through, or fail it with the given status. */
  datatype Verdict = Proceed | Reject(status: Status)

  /** The decision rule, given the validation result (`None` when no validator is registered)
      and the error-message handler. */
  function Gate(result: Option<ValidationResult>, handler: seq<ValidationFailure> -> string): (v: Verdict)
    ensures v.Proceed? <==> result.None? || |result.value.errors| == 0
    ensures v.Reject? ==> v.status.statusCode == InvalidArgument && v.status.detail == handler(result.value.errors)
  {
    if result.Some? && !result.value.IsValid() then Reject(Status(InvalidArgument, handler(result.value.errors)))
    else Proceed
  }

  /** The validation result the gate sees: none without a validator, else the validator's rules
      applied to the request. */
  function ResultFor<Req>(validator: Option<Validator<Req>>, request: Req): Option<ValidationResult>
  {
    if validator.Some? then Some(validator.value.Rules(request)) else None
  }

  /** `UnaryServerHandler<TRequest, TResponse>`. `validator` is what the locator's
      `TryGetValidator<TRequest>` reports; `empty` is the default-constructed response.
      When the call proceeds, the continuation is entered with the status and headers the
      interceptor found, and leaves them as the call ends: the interceptor writes neither,
      before or after. */
  method UnaryServerHandler<Req, Resp>(validator: Option<Validator<Req>>, handler: seq<ValidationFailure> -> string,
                                       request: Req, context: ServerCallContext,
                                       continuation: UnaryServerMethod<Req, Resp>, empty: Resp)
    returns (response: Resp)
    modifies context, continuation, if validator.Some? then {validator.value} else {}
    ensures validator.Some? ==> validator.value.validated == old(validator.value.validated) + [request]
    ensures Gate(ResultFor(validator, request), handler).Proceed? ==>
      && continuation.calls ==
           old(continuation.calls) + [Call(request, context, old(context.status), old(context.responseHeaders))]
      && response == continuation.Handle(request)
      && context.status == continuation.exitStatus
      && context.responseHeaders == continuation.exitHeaders
    ensures Gate(ResultFor(validator, request), handler).Reject? ==>
      && continuation.calls == old(continuation.calls)
      && response == empty
      && context.status == Gate(ResultFor(validator, request), handler).status
      && context.responseHeaders == old(context.responseHeaders)[StatusTrailerName := StatusTrailerInvalidArgument]
      && CodeValue(context.status.statusCode) == 3
  {
    if validator.Some? {
      var results := validator.value.ValidateAsync(request);
      if !results.IsValid() {
        var message := handler(results.errors);
        context.status := Status(InvalidArgument, message);
        context.responseHeaders := context.responseHeaders[StatusTrailerName := StatusTrailerInvalidArgument];
        return empty;
      }
    }
    response := continuation.Invoke(request, context);
  }
}
