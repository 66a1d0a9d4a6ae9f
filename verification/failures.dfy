/** The failure taxonomy of the bots: the typed errors and their status
    codes, the classifier from an HTTP status (and the venue's error field) to
    a typed error, the wrapper every client call goes through, and the
    recovery the supervisor's run loop picks for each failure. */
module Failures {
  import opened Wrappers

  /** The closed set of typed errors. `ServiceUnavailabe` keeps the source's
      spelling. */
  datatype ErrorKind =
    | SocketConnection | BadGateway | ServiceUnavailabe | PlaceOrder | InsufficientMargin
    | LowerThanBankruptcy | LowOrderSize | ContractExpired | EditOrder | MarketDisrupted
    | InvalidOrder | BadRequest | TooManyRequests | InternalServer | Authentication
    | Forbidden | Nonce | Unknown

  /** The status code each kind carries. */
  function StatusCode(kind: ErrorKind): int
  {
    match kind
    case SocketConnection => 500
    case BadGateway => 502
    case ServiceUnavailabe => 503
    case InternalServer => 503
    case TooManyRequests => 429
    case Authentication => 401
    case Nonce => 401
    case Forbidden => 403
    case Unknown => 1000
    case _ => 400
  }

  /** The kinds that report a rejected order or request. */
  predicate IsRejection(kind: ErrorKind)
  {
    kind in {PlaceOrder, InsufficientMargin, LowerThanBankruptcy, LowOrderSize, ContractExpired,
             EditOrder, MarketDisrupted, InvalidOrder, BadRequest}
  }

  /** Which kinds share a code: every rejection and nothing else carries 400,
      the two credential kinds carry 401, the two overload kinds 503. */
  lemma StatusCodeGroups(kind: ErrorKind)
    ensures StatusCode(kind) == 400 <==> IsRejection(kind)
    ensures StatusCode(kind) == 401 <==> kind == Authentication || kind == Nonce
    ensures StatusCode(kind) == 503 <==> kind == ServiceUnavailabe || kind == InternalServer
    ensures StatusCode(kind) == 500 <==> kind == SocketConnection
    ensures StatusCode(kind) == 502 <==> kind == BadGateway
    ensures StatusCode(kind) == 429 <==> kind == TooManyRequests
    ensures StatusCode(kind) == 403 <==> kind == Forbidden
    ensures StatusCode(kind) == 1000 <==> kind == Unknown
  {
  }

  /** A raised typed error: its kind, the client it was raised for, and the
      status code it carries. */
  datatype TypedError = TypedError(kind: ErrorKind, client: string, statusCode: int)

  /** The constructor every kind shares. */
  function Raise(kind: ErrorKind, client: string): (e: TypedError)
    ensures e.kind == kind && e.client == client
    ensures e.statusCode == 400 <==> IsRejection(kind)
  {
    StatusCodeGroups(kind);
    TypedError(kind, client, StatusCode(kind))
  }

  /** `check_requests_error`: the typed error raised for an HTTP status and
      the venue's error field, when one could be read. It always raises, so
      the model returns the error raised. */
  function CheckRequestsError(client: string, status: int, errorMsg: Option<string>): TypedError
  {
    var kind :=
      if status == 401 then Authentication
      else if status == 400 then
        (if errorMsg == Some("InsufficientMargin") then InsufficientMargin
         else if errorMsg == Some("InvalidOrder") then InvalidOrder
         else if errorMsg == Some("MarketDisrupted") then MarketDisrupted
         else BadRequest)
      else if status == 422 then BadRequest
      else if status == 429 then TooManyRequests
      else if 500 <= status <= 504 then ServiceUnavailabe
      else Unknown;
    Raise(kind, client)
  }

  /** The classifier keeps the client, and the code of the error it raises
      matches the HTTP status only for 400, 401, 429, 503 and 1000: a 422
      becomes a 400, every other 5xx up to 504 (a 502 included) a 503, and
      anything else 1000. Only a 400 can give a message-specific kind. */
  lemma ClassifierCodes(client: string, status: int, errorMsg: Option<string>)
    ensures CheckRequestsError(client, status, errorMsg).client == client
    ensures var e := CheckRequestsError(client, status, errorMsg);
      && (e.statusCode == status <==> status in {400, 401, 429, 503, 1000})
      && (status == 422 ==> e.statusCode == 400)
      && (500 <= status <= 504 ==> e.kind == ServiceUnavailabe && e.statusCode == 503)
      && (!(status in {400, 401, 422, 429}) && !(500 <= status <= 504) ==> e.kind == Unknown && e.statusCode == 1000)
      && (e.kind in {InsufficientMargin, InvalidOrder, MarketDisrupted} ==> status == 400 && errorMsg == Some(KindName(e.kind)))
  {
  }

  /** The venue's name for the three message-specific kinds. */
  function KindName(kind: ErrorKind): string
  {
    match kind
    case InsufficientMargin => "InsufficientMargin"
    case InvalidOrder => "InvalidOrder"
    case MarketDisrupted => "MarketDisrupted"
    case _ => ""
  }

  /** What a client call can raise: a socket timeout, a typed error, or any
      other exception (described by its message). */
  datatype Raised = SocketTimeout | Typed(error: TypedError) | Other(message: string)

  /** How the wrapped call ended: a value, an HTTP error (with the error field
      of its body, when the body could be read), or another exception. */
  datatype Inner<T> = Ok(value: T) | HttpError(status: int, errorField: Option<string>) | Threw(raised: Raised)

  /** The caller's view of a wrapped call. */
  datatype Outer<T> = Returned(value: T) | Raises(raised: Raised)

  /** `handle_requests_exceptions` as written: the typed error raised from
      inside the inner `try` is caught by its own `except Exception` and the
      status is classified a second time, without the error field. */
  function Wrap<T>(client: string, inner: Inner<T>): Outer<T>
  {
    match inner
    case Ok(v) => Returned(v)
    case HttpError(status, _) => Raises(Typed(CheckRequestsError(client, status, None)))
    case Threw(r) => Raises(r)
  }

  /** The wrapper with the error field reaching the classifier. */
  function WrapIntended<T>(client: string, inner: Inner<T>): Outer<T>
  {
    match inner
    case Ok(v) => Returned(v)
    case HttpError(status, field) => Raises(Typed(CheckRequestsError(client, status, field)))
    case Threw(r) => Raises(r)
  }

  /** Through the wrapper as written, results and non-HTTP exceptions pass
      unchanged, and every HTTP 400 surfaces as `BadRequest`, whatever the
      venue said. */
  lemma WrapMeaning<T>(client: string, inner: Inner<T>)
    ensures inner.Ok? ==> Wrap(client, inner) == Returned(inner.value)
    ensures inner.Threw? ==> Wrap(client, inner) == Raises(inner.raised)
    ensures inner.HttpError? ==> Wrap(client, inner).Raises? && Wrap(client, inner).raised.Typed?
    ensures inner.HttpError? && inner.status == 400 ==> Wrap(client, inner).raised.error.kind == BadRequest
    ensures inner.HttpError? ==> !(Wrap(client, inner).raised.error.kind in {InsufficientMargin, InvalidOrder, MarketDisrupted})
  {
  }

  /** The intended wrapper agrees with the one as written except on a 400
      carrying one of the three recognised messages, where it raises the
      message's kind. */
  lemma WrapIntendedMeaning<T>(client: string, inner: Inner<T>)
    ensures !(inner.HttpError? && inner.status == 400) ==> WrapIntended(client, inner) == Wrap(client, inner)
    ensures inner.HttpError? && inner.status == 400 && inner.errorField.Some? ==>
      var k := WrapIntended(client, inner).raised.error.kind;
      (k != BadRequest <==> inner.errorField.value in {"InsufficientMargin", "InvalidOrder", "MarketDisrupted"})
      && (k != BadRequest ==> KindName(k) == inner.errorField.value)
  {
  }

  /** A 400 rejected for insufficient margin: as written it surfaces as a bad
      request, and the run loop pauses for 5 seconds instead of logging the
      margin failure. */
  lemma WrapLosesMessageExample()
    ensures Wrap<int>("Delta", HttpError(400, Some("InsufficientMargin"))).raised.error.kind == BadRequest
    ensures WrapIntended<int>("Delta", HttpError(400, Some("InsufficientMargin"))).raised.error.kind == InsufficientMargin
    ensures Wrap<int>("Delta", HttpError(400, Some("InvalidOrder"))).raised.error.kind == BadRequest
    ensures WrapIntended<int>("Delta", HttpError(400, Some("InvalidOrder"))).raised.error.kind == InvalidOrder
  {
  }

  /** The run loop's reaction: sleep (trading goes on), sleep the loop
      interval, pause trading (open orders are cancelled) for some seconds, or
      pause and repeat the pause until it succeeds. */
  datatype Recovery = Sleep(seconds: int) | SleepLoopInterval | Pause(seconds: int) | PauseUntilDone(seconds: int)

  /** The `except` chain of `run_loop`. */
  function Recover(r: Raised): Recovery
  {
    match r
    case SocketTimeout => Sleep(2)
    case Other(_) => PauseUntilDone(5)
    case Typed(e) =>
      match e.kind
      case InsufficientMargin => Pause(5)
      case LowerThanBankruptcy => SleepLoopInterval
      case LowOrderSize => SleepLoopInterval
      case InvalidOrder => SleepLoopInterval
      case EditOrder => SleepLoopInterval
      case Nonce => Pause(2)
      case Authentication => Pause(2)
      case ContractExpired => Pause(2)
      case TooManyRequests => Sleep(20)
      case BadGateway => Sleep(5)
      case ServiceUnavailabe => Sleep(5)
      case MarketDisrupted => Sleep(5)
      case InternalServer => Sleep(5)
      case BadRequest => Pause(5)
      case Unknown => Pause(5)
      case _ => PauseUntilDone(5)
  }

  /** Trading is paused exactly for credential failures, margin, bad-request
      and unknown errors, and for anything not named in the chain
      (`SocketConnection`, `PlaceOrder`, `Forbidden` and untyped errors). */
  lemma RecoverPauses(r: Raised)
    ensures (Recover(r).Pause? || Recover(r).PauseUntilDone?) <==>
      r.Other? || (r.Typed? && r.error.kind in {InsufficientMargin, Nonce, Authentication, ContractExpired,
                                                BadRequest, Unknown, SocketConnection, PlaceOrder, Forbidden})
    ensures Recover(r).PauseUntilDone? <==>
      r.Other? || (r.Typed? && r.error.kind in {SocketConnection, PlaceOrder, Forbidden})
  {
  }

  /** An HTTP error that reaches the run loop through the wrapper as written
      is handled by its status alone: 401 pauses 2 s, 400, 422 and any
      unclassified status pause 5 s, 429 sleeps 20 s and 500-504 sleep 5 s.
      The margin, invalid-order and disruption branches are never taken for
      an HTTP error. */
  lemma WrappedHttpRecovery<T>(client: string, status: int, field: Option<string>)
    ensures var rec := Recover(Wrap<T>(client, HttpError(status, field)).raised);
      && rec == (if status == 401 then Pause(2)
                 else if status == 429 then Sleep(20)
                 else if 500 <= status <= 504 then Sleep(5)
                 else Pause(5))
      && !rec.SleepLoopInterval? && !rec.PauseUntilDone?
  {
  }
}
