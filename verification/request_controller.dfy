/**
 * The HTTP handlers for requests: creation and status change, with the
 * translation of outcomes and error messages into status codes.
 */
module RequestController {
  import opened Wrappers
  import opened Database
  import Text
  import RequestService

  /** A JSON response body: a request, or an object holding a message. */
  datatype Body = RequestJson(request: Request) | MessageJson(message: string)

  datatype Response = Response(status: int, body: Body)

  /** The parsed body of a creation call, or the message of the error reading it raised. */
  datatype CreateBody =
    | UnreadableCreate(message: string)
    | CreateFields(requestData: RequestData, recipientData: RecipientData)

  /** The parsed body of a status call: its `status` field when that is a string, or the parse error's message. */
  datatype StatusBody =
    | UnreadableStatus(message: string)
    | StatusField(status: Option<string>)

  /** The status code for a caught error: 400 for stock and lookup failures, 500 otherwise. */
  function ErrorStatus(message: string): (code: int)
    ensures code == 400 <==>
              (exists i :: Text.OccursAt(message, "Insufficient", i)) || (exists i :: Text.OccursAt(message, "not found", i))
    ensures code == 400 || code == 500
  {
    Text.ContainsIffOccurs(message, "Insufficient");
    Text.ContainsIffOccurs(message, "not found");
    if Text.Contains(message, "Insufficient") || Text.Contains(message, "not found") then 400 else 500
  }

  /** Submits a request with its recipient: 201 with the new request, or 400 with the error's message. */
  function Create(db: State, body: CreateBody, date: int): (r: (State, Response))
    requires WellFormed(db)
    ensures r.1.status == 201 <==> body.CreateFields?
    ensures r.1.status == 201 || r.1.status == 400
    ensures r.1.status == 400 ==> r.0 == db
    ensures body.UnreadableCreate? ==> r == (db, Response(400, MessageJson(body.message)))
    ensures body.CreateFields? ==>
              var (db', req) := RequestService.SubmitRequest(db, body.requestData, body.recipientData, date);
              r == (db', Response(201, RequestJson(req)))
  {
    match body
    case UnreadableCreate(message) => (db, Response(400, MessageJson(message)))
    case CreateFields(requestData, recipientData) =>
      var (db', req) := RequestService.SubmitRequest(db, requestData, recipientData, date);
      (db', Response(201, RequestJson(req)))
  }

  /** The status a call names, if it is one the service accepts. */
  function ParseStatus(status: Option<string>): (r: Option<RequestService.NewStatus>)
    ensures r.Some? <==> status == Some(FULFILLED) || status == Some(REJECTED)
    ensures r.Some? ==> status == Some(r.value.Text())
  {
    if status == Some(FULFILLED) then Some(RequestService.Fulfilled)
    else if status == Some(REJECTED) then Some(RequestService.Rejected)
    else None
  }

  /**
   * Changes a request's status. `id` is the path parameter as parsed (None
   * when it is not a number). A bad id or status is answered with 400
   * before the service is called; the service's result is answered with
   * 200, and its errors are classified by message.
   */
  function UpdateStatus(db: State, id: Option<int>, body: StatusBody): (r: (State, Response))
    requires WellFormed(db)
    ensures id.None? ==> r == (db, Response(400, MessageJson("Invalid ID")))
    ensures id.Some? && body.UnreadableStatus? ==>
              r == (db, Response(ErrorStatus(body.message), MessageJson(body.message)))
    ensures id.Some? && body.StatusField? && ParseStatus(body.status).None? ==>
              r == (db, Response(400, MessageJson("Invalid status provided.")))
    ensures id.Some? && body.StatusField? && ParseStatus(body.status).Some? ==>
              match RequestService.UpdateRequestStatus(db, id.value, ParseStatus(body.status).value)
              case Success((db', req)) => r == (db', Response(200, RequestJson(req)))
              case Failure(e) => r == (db, Response(ErrorStatus(e.Message()), MessageJson(e.Message())))
    ensures r.1.status != 200 ==> r.0 == db
  {
    match id
    case None => (db, Response(400, MessageJson("Invalid ID")))
    case Some(requestId) =>
      match body
      case UnreadableStatus(message) => (db, Response(ErrorStatus(message), MessageJson(message)))
      case StatusField(status) =>
        match ParseStatus(status)
        case None => (db, Response(400, MessageJson("Invalid status provided.")))
        case Some(newStatus) =>
          match RequestService.UpdateRequestStatus(db, requestId, newStatus)
          case Success((db', req)) => (db', Response(200, RequestJson(req)))
          case Failure(e) => (db, Response(ErrorStatus(e.Message()), MessageJson(e.Message())))
  }

  /** Every error the status service can raise is a client error (400), never a 500. */
  lemma ServiceErrorsAreClientErrors(e: Error)
    requires e == RequestNotFound || e == InsufficientStock || e == RecordToUpdateNotFound
    ensures ErrorStatus(e.Message()) == 400
  {
    match e {
      case RequestNotFound =>
        assert Text.OccursAt(e.Message(), "not found", 8);
      case InsufficientStock =>
        assert Text.OccursAt(e.Message(), "Insufficient", 0);
      case RecordToUpdateNotFound =>
        assert Text.OccursAt(e.Message(), "not found", 17);
    }
  }

  /**
   * With a numeric id and a valid status, the call never ends in a server
   * error: it answers 200 with the updated request, or 400.
   */
  lemma WellFormedCallsNeverFailWith500(db: State, id: int, status: string)
    requires WellFormed(db)
    requires status == FULFILLED || status == REJECTED
    ensures var (db', resp) := UpdateStatus(db, Some(id), StatusField(Some(status)));
            resp.status == 200 || (resp.status == 400 && db' == db)
  {
    var newStatus := ParseStatus(Some(status)).value;
    match RequestService.UpdateRequestStatus(db, id, newStatus)
    case Success(_) =>
    case Failure(e) => ServiceErrorsAreClientErrors(e);
  }
}
