/** Status classification in the `req.end` callback of `heelloApi.prototype.request`
    (lib/heello.js:49-67). */
module Response {
  import opened Wrappers

  /** superagent's `res.error` for a non-2xx response. */
  datatype HttpError = HttpError(status: int, text: string)

  /** What `req.end` hands the callback: a transport error, or a response. */
  datatype Reply = TransportFailed(err: string) | Received(status: int, error: HttpError)

  /** Notifications emitted on the api's EventEmitter. */
  datatype Notification = ApiLimit(detail: HttpError) | ApiAuthError(detail: HttpError)

  /** Errors thrown from inside the callback. */
  datatype Thrown =
    | TransportError(err: string)
    | LimitReached            // the 'API limit reached' error
    | AuthorizationFailure    // the 'Authorization failure' error
    | Upstream(error: HttpError)

  /** `fn(null, res)` on success; otherwise the error the callback throws. The throw happens in the
      asynchronous callback, outside the `try` at lib/heello.js:34, so it does not reach `fn`. */
  datatype Outcome = Delivered(status: int) | Raised(thrown: Thrown)

  datatype Classified = Classified(outcome: Outcome, notice: Option<Notification>)

  /** superagent's `res.ok`: the status is in the 2xx class. */
  predicate IsOk(status: int) {
    200 <= status < 300
  }

  predicate IsLimitStatus(status: int) {
    status == 429 || status == 503
  }

  function Classify(reply: Reply): (r: Classified)
    ensures reply.TransportFailed? <==> r.outcome.Raised? && r.outcome.thrown.TransportError?
    ensures reply.TransportFailed? ==> r == Classified(Raised(TransportError(reply.err)), None)
    ensures r.outcome.Delivered? <==> reply.Received? && IsOk(reply.status)
    ensures r.outcome.Delivered? ==> r.outcome.status == reply.status && r.notice.None?
    ensures r.outcome == Raised(LimitReached) <==>
              reply.Received? && !IsOk(reply.status) && IsLimitStatus(reply.status)
    ensures r.outcome == Raised(AuthorizationFailure) <==>
              reply.Received? && !IsOk(reply.status) && reply.status == 401
    ensures (r.outcome.Raised? && r.outcome.thrown.Upstream?) <==>
              reply.Received? && !IsOk(reply.status) && !IsLimitStatus(reply.status) && reply.status != 401
    ensures r.outcome.Raised? && r.outcome.thrown.Upstream? ==> r.outcome.thrown.error == reply.error
    ensures r.notice == (if r.outcome == Raised(LimitReached) then Some(ApiLimit(reply.error))
                         else if r.outcome == Raised(AuthorizationFailure) then Some(ApiAuthError(reply.error))
                         else None)
  {
    match reply
    case TransportFailed(err) => Classified(Raised(TransportError(err)), None)
    case Received(status, error) =>
      if !IsOk(status) then
        if IsLimitStatus(status) then Classified(Raised(LimitReached), Some(ApiLimit(error)))
        else if status == 401 then Classified(Raised(AuthorizationFailure), Some(ApiAuthError(error)))
        else Classified(Raised(Upstream(error)), None)
      else Classified(Delivered(status), None)
  }

  /** A notification accompanies an outcome if and only if the call hit the api limit or was refused
      authorization; transport failures and other errors emit nothing. */
  lemma NoticeIffSevere(reply: Reply)
    ensures Classify(reply).notice.Some? <==>
              reply.Received? && !IsOk(reply.status) && (IsLimitStatus(reply.status) || reply.status == 401)
  {
  }
}
