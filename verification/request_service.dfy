/**
 * The request service: submission, listing, and the status change that
 * either rejects a request or fulfils it against the stock ledger.
 */
module RequestService {
  import opened Wrappers
  import opened Database
  import RequestRepository

  /** The two statuses a caller may ask for. */
  datatype NewStatus = Fulfilled | Rejected {
    function Text(): string {
      match this
      case Fulfilled => FULFILLED
      case Rejected => REJECTED
    }
  }

  function SubmitRequest(db: State, requestData: RequestData, recipientData: RecipientData, date: int)
    : (r: (State, Request))
    requires WellFormed(db)
    ensures r == RequestRepository.CreateRequestWithRecipient(db, requestData, recipientData, date)
  {
    RequestRepository.CreateRequestWithRecipient(db, requestData, recipientData, date)
  }

  function ListAllRequests(db: State): (rows: seq<RequestWithRecipient>)
    requires WellFormed(db)
    ensures rows == RequestRepository.GetAllRequests(db)
  {
    RequestRepository.GetAllRequests(db)
  }

  /** The stock row for the request's blood type exists and holds at least its volume. */
  ghost predicate StockCovers(db: State, request: Request) {
    request.bloodType in db.stock && db.stock[request.bloodType] >= request.volume
  }

  /**
   * The body of the fulfilment transaction: check the stock row, decrement
   * it, mark the request fulfilled. A failure leaves no trace, since the
   * new state only exists on success.
   */
  function FulfilTransaction(db: State, requestId: int, request: Request): (r: Result<(State, Request), Error>)
    requires requestId in db.requests && db.requests[requestId] == request
    ensures r.Success? <==> StockCovers(db, request)
    ensures r.Failure? ==> r.error == InsufficientStock
  {
    if request.bloodType !in db.stock || db.stock[request.bloodType] < request.volume then
      Failure(InsufficientStock)
    else
      var bt := request.bloodType;
      var decremented := db.(stock := db.stock[bt := db.stock[bt] - request.volume]);
      RequestRepository.UpdateRequestStatus(decremented, requestId, FULFILLED)
  }

  /**
   * Rejects or fulfils a request. Rejection only rewrites the status.
   * Fulfilment needs the request to exist and enough stock of its blood
   * type; it then takes the request's volume out of that stock and marks
   * the request fulfilled, all at once. The current status is never
   * consulted.
   */
  function UpdateRequestStatus(db: State, requestId: int, newStatus: NewStatus): (r: Result<(State, Request), Error>)
    requires WellFormed(db)
    // rejection
    ensures newStatus == Rejected ==> r == RequestRepository.UpdateRequestStatus(db, requestId, REJECTED)
    ensures newStatus == Rejected && r.Success? ==>
              r.value.0.stock == db.stock && r.value.1.status == REJECTED
    // fulfilment: the error cases
    ensures newStatus == Fulfilled && requestId !in db.requests ==> r == Failure(RequestNotFound)
    ensures newStatus == Fulfilled && requestId in db.requests && !StockCovers(db, db.requests[requestId]) ==>
              r == Failure(InsufficientStock)
    ensures newStatus == Fulfilled ==>
              (r.Success? <==> requestId in db.requests && StockCovers(db, db.requests[requestId]))
    // fulfilment: the effect
    ensures newStatus == Fulfilled && r.Success? ==>
              var (db', updated) := r.value;
              var request := db.requests[requestId];
              var bt := request.bloodType;
              && updated == request.(status := FULFILLED)
              && db'.stock.Keys == db.stock.Keys
              && db'.stock[bt] + request.volume == db.stock[bt]
              && (forall b :: b in db.stock && b != bt ==> db'.stock[b] == db.stock[b])
              && db'.requests.Keys == db.requests.Keys
              && db'.requests[requestId] == updated
              && (forall k :: k in db.requests && k != requestId ==> db'.requests[k] == db.requests[k])
              && db' == db.(stock := db'.stock, requests := db'.requests)
  {
    match newStatus
    case Rejected =>
      RequestRepository.UpdateRequestStatus(db, requestId, REJECTED)
    case Fulfilled =>
      match RequestRepository.GetRequestById(db, requestId)
      case None => Failure(RequestNotFound)
      case Some(request) => FulfilTransaction(db, requestId, request)
  }

  /** Both outcomes of a status change keep every invariant of the database, non-negative stock included. */
  lemma UpdateRequestStatusPreservesValid(db: State, requestId: int, newStatus: NewStatus)
    requires Valid(db)
    ensures var r := UpdateRequestStatus(db, requestId, newStatus);
            r.Success? ==> Valid(r.value.0)
  {
    var r := UpdateRequestStatus(db, requestId, newStatus);
    if r.Success? {
      var db' := r.value.0;
      assert forall k :: k in db'.requests ==>
        db'.requests[k].id == db.requests[k].id && db'.requests[k].recipientId == db.requests[k].recipientId;
      if newStatus == Fulfilled {
        var bt := db.requests[requestId].bloodType;
        assert db'.stock[bt] >= 0;
      }
    }
  }

  /**
   * Nothing stops a second fulfilment: once a request is fulfilled, asking
   * again with enough stock left takes its volume out a second time.
   */
  lemma FulfilTwiceDecrementsTwice(db: State, requestId: int)
    requires WellFormed(db)
    requires requestId in db.requests
    requires var request := db.requests[requestId];
             request.bloodType in db.stock
             && db.stock[request.bloodType] - request.volume >= request.volume
             && db.stock[request.bloodType] >= request.volume
    ensures var request := db.requests[requestId];
            var first := UpdateRequestStatus(db, requestId, Fulfilled);
            && first.Success?
            && first.value.0.requests[requestId].status == FULFILLED
            && WellFormed(first.value.0)
            && var second := UpdateRequestStatus(first.value.0, requestId, Fulfilled);
               && second.Success?
               && second.value.0.stock[request.bloodType] == db.stock[request.bloodType] - 2 * request.volume
  {
    var request := db.requests[requestId];
    var first := UpdateRequestStatus(db, requestId, Fulfilled);
    var db1 := first.value.0;
    assert db1.requests[requestId] == request.(status := FULFILLED);
    assert WellFormed(db1) by {
      assert forall k :: k in db1.requests ==>
        db1.requests[k].id == db.requests[k].id && db1.requests[k].recipientId == db.requests[k].recipientId;
    }
    assert StockCovers(db1, db1.requests[requestId]);
  }

  /**
   * Fulfilment does not look at the request's current status: whatever the
   * stored status, it succeeds or fails alike and leaves the same stock.
   */
  lemma FulfilIgnoresStatus(db: State, requestId: int, status: string)
    requires WellFormed(db)
    requires requestId in db.requests
    ensures var db2 := db.(requests := db.requests[requestId := db.requests[requestId].(status := status)]);
            var r1 := UpdateRequestStatus(db, requestId, Fulfilled);
            var r2 := UpdateRequestStatus(db2, requestId, Fulfilled);
            && WellFormed(db2)
            && r1.Success? == r2.Success?
            && (r1.Success? ==> r1.value.0 == r2.value.0 && r1.value.1 == r2.value.1)
            && (r1.Failure? ==> r1.error == r2.error)
  {
    var request := db.requests[requestId];
    var db2 := db.(requests := db.requests[requestId := request.(status := status)]);
    assert WellFormed(db2);
    var r1 := UpdateRequestStatus(db, requestId, Fulfilled);
    var r2 := UpdateRequestStatus(db2, requestId, Fulfilled);
    if r1.Success? {
      var (a, _) := r1.value;
      var (b, _) := r2.value;
      assert a.stock == b.stock;
      assert a.requests == b.requests;
    }
  }
}
