/**
 * The application as a whole: any sequence of calls to the stock, donor
 * and request operations, applied one after another to the database.
 */
module Application {
  import opened Wrappers
  import opened Database
  import BloodStockService
  import RequestService
  import RequestController
  import DonorRepository
  import DonorService

  /** One call into the application. A call that fails leaves the database as it was. */
  datatype Call =
    | SetStock(bloodType: string, volume: int)
    | SubmitRequest(createBody: RequestController.CreateBody, date: int)
    | SetRequestStatus(id: Option<int>, statusBody: RequestController.StatusBody)
    | RegisterDonor(data: DonorData)
    | UpdateDonor(donorId: int, patch: DonorRepository.DonorPatch)
    | RemoveDonor(donorId: int)

  /** The database after one call. */
  function Step(db: State, call: Call): (db': State)
    requires Valid(db)
    ensures Valid(db')
  {
    match call
    case SetStock(bloodType, volume) =>
      BloodStockService.UpdateStockLevelPreservesValid(db, bloodType, volume);
      (match BloodStockService.UpdateStockLevel(db, bloodType, volume)
       case Success((db', _)) => db'
       case Failure(_) => db)
    case SubmitRequest(body, date) =>
      RequestController.Create(db, body, date).0
    case SetRequestStatus(id, body) =>
      if id.Some? && body.StatusField? && RequestController.ParseStatus(body.status).Some? then
        RequestService.UpdateRequestStatusPreservesValid(db, id.value, RequestController.ParseStatus(body.status).value);
        RequestController.UpdateStatus(db, id, body).0
      else
        RequestController.UpdateStatus(db, id, body).0
    case RegisterDonor(data) =>
      DonorService.RegisterDonorPreservesValid(db, data);
      (match DonorService.RegisterDonor(db, data)
       case Success((db', _)) => db'
       case Failure(_) => db)
    case UpdateDonor(donorId, patch) =>
      DonorService.UpdateDonorDetailsPreservesValid(db, donorId, patch);
      (match DonorService.UpdateDonorDetails(db, donorId, patch)
       case Success((db', _)) => db'
       case Failure(_) => db)
    case RemoveDonor(donorId) =>
      DonorService.RemoveDonorPreservesValid(db, donorId);
      (match DonorService.RemoveDonor(db, donorId)
       case Success((db', _)) => db'
       case Failure(_) => db)
  }

  /**
   * The database after a whole sequence of calls. Whatever the calls, no
   * blood type is ever held in negative volume and no two donors share an
   * email: `Valid` includes `StockNonNegative` and `UniqueEmails`.
   */
  function Run(db: State, calls: seq<Call>): (db': State)
    requires Valid(db)
    ensures Valid(db')
    decreases |calls|
  {
    if calls == [] then db
    else Run(Step(db, calls[0]), calls[1..])
  }

  lemma EmptyIsValid()
    ensures Valid(Empty)
  {
  }

  const SampleRecipient: RecipientData := RecipientData("Ada", "ada@example.org", "555-0100", "A+")

  /**
   * Stock {A+: 5}; a request for 3 units of A+ is created pending;
   * fulfilling it leaves {A+: 2} and the request fulfilled.
   */
  lemma FulfilScenario()
    ensures var stocked := BloodStockService.UpdateStockLevel(Empty, "A+", 5);
            && stocked.Success?
            && WellFormed(stocked.value.0)
            && var (db1, req) := RequestService.SubmitRequest(stocked.value.0, RequestData("A+", 3), SampleRecipient, 0);
               && req.status == PENDING
               && WellFormed(db1)
               && var r := RequestService.UpdateRequestStatus(db1, req.id, RequestService.Fulfilled);
                  && r.Success?
                  && r.value.0.stock == map["A+" := 2]
                  && r.value.1.status == FULFILLED
  {
  }

  /**
   * Stock {O-: 1}; a request for 2 units of O- cannot be fulfilled: the
   * call is answered 400 with the stock message, and neither the stock
   * nor the request's pending status changes.
   */
  lemma InsufficientStockScenario()
    ensures var stocked := BloodStockService.UpdateStockLevel(Empty, "O-", 1);
            && stocked.Success?
            && WellFormed(stocked.value.0)
            && var (db1, req) := RequestService.SubmitRequest(stocked.value.0, RequestData("O-", 2), SampleRecipient, 0);
               && WellFormed(db1)
               && var (db2, resp) := RequestController.UpdateStatus(db1, Some(req.id), RequestController.StatusField(Some(FULFILLED)));
                  && resp == RequestController.Response(400, RequestController.MessageJson("Insufficient blood stock"))
                  && db2 == db1
                  && db2.stock == map["O-" := 1]
                  && db2.requests[req.id].status == PENDING
  {
    RequestController.ServiceErrorsAreClientErrors(InsufficientStock);
  }
}
