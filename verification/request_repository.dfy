/** The Request and Recipient tables. */
module RequestRepository {
  import opened Wrappers
  import opened Database

  /** Newest request first. */
  ghost predicate NewestFirst(rows: seq<RequestWithRecipient>) {
    forall i, j :: 0 <= i < j < |rows| ==> rows[i].request.date >= rows[j].request.date
  }

  /** A row no older than every row of a newest-first listing can head it. */
  lemma PrependNewest(y: RequestWithRecipient, rows: seq<RequestWithRecipient>)
    requires NewestFirst(rows)
    requires forall k :: 0 <= k < |rows| ==> y.request.date >= rows[k].request.date
    ensures NewestFirst([y] + rows)
  {
  }

  /** Places `x` before the first row that is not newer than it. */
  function InsertByDate(x: RequestWithRecipient, rows: seq<RequestWithRecipient>): (r: seq<RequestWithRecipient>)
    requires NewestFirst(rows)
    ensures NewestFirst(r)
    ensures multiset(r) == multiset(rows) + multiset{x}
    ensures forall k :: 0 <= k < |r| ==> r[k] == x || r[k] in rows
  {
    if rows == [] || x.request.date >= rows[0].request.date then
      PrependNewest(x, rows);
      [x] + rows
    else
      var rest := InsertByDate(x, rows[1..]);
      assert rows == [rows[0]] + rows[1..];
      HeadBoundsInsertion(x, rows, rest);
      PrependNewest(rows[0], rest);
      [rows[0]] + rest
  }

  /** The head of a newest-first listing is no older than anything inserted behind it. */
  lemma HeadBoundsInsertion(x: RequestWithRecipient, rows: seq<RequestWithRecipient>, rest: seq<RequestWithRecipient>)
    requires NewestFirst(rows) && |rows| > 0
    requires rows[0].request.date >= x.request.date
    requires forall k :: 0 <= k < |rest| ==> rest[k] == x || rest[k] in rows[1..]
    ensures forall k :: 0 <= k < |rest| ==> rows[0].request.date >= rest[k].request.date
  {
    forall k | 0 <= k < |rest|
      ensures rows[0].request.date >= rest[k].request.date
    {
      if rest[k] != x {
        var m :| 0 <= m < |rows[1..]| && rows[1..][m] == rest[k];
        assert rows[m + 1] == rest[k];
      }
    }
  }

  /** A stable insertion sort by date, newest first. */
  function SortNewestFirst(rows: seq<RequestWithRecipient>): (r: seq<RequestWithRecipient>)
    ensures NewestFirst(r)
    ensures multiset(r) == multiset(rows)
  {
    if rows == [] then []
    else
      assert rows == [rows[0]] + rows[1..];
      InsertByDate(rows[0], SortNewestFirst(rows[1..]))
  }

  /** The row a listing holds for a stored request: the request and its own recipient. */
  ghost predicate IsStoredRow(db: State, row: RequestWithRecipient) {
    && row.request.id in db.requests
    && db.requests[row.request.id] == row.request
    && row.request.recipientId in db.recipients
    && row.recipient == db.recipients[row.request.recipientId]
  }

  /** The request stored under each of `ids`, joined with its recipient. */
  function JoinAll(db: State, ids: seq<int>): (rows: seq<RequestWithRecipient>)
    requires WellFormed(db)
    requires forall i :: 0 <= i < |ids| ==> ids[i] in db.requests
    ensures |rows| == |ids|
    ensures forall i :: 0 <= i < |rows| ==> rows[i].request == db.requests[ids[i]] && IsStoredRow(db, rows[i])
  {
    if ids == [] then []
    else
      var id := ids[0];
      assert id in db.requests;
      var req := db.requests[id];
      [RequestWithRecipient(req, db.recipients[req.recipientId])] + JoinAll(db, ids[1..])
  }

  /** Every request, each with its recipient, newest first. */
  function GetAllRequests(db: State): (rows: seq<RequestWithRecipient>)
    requires WellFormed(db)
    ensures NewestFirst(rows)
    ensures |rows| == |db.requests|
    ensures forall i :: 0 <= i < |rows| ==> IsStoredRow(db, rows[i])
    ensures forall id :: id in db.requests ==> exists i :: 0 <= i < |rows| && rows[i].request.id == id
  {
    var ids := AscendingIds(db.requests, 1, db.nextRequestId);
    var joined := JoinAll(db, ids);
    var rows := SortNewestFirst(joined);
    AllIdsListed(db.requests, db.nextRequestId);
    assert |rows| == |multiset(rows)| == |multiset(joined)| == |joined|;
    ListedRows(db, ids, joined, rows);
    rows
  }

  lemma ListedRows(db: State, ids: seq<int>, joined: seq<RequestWithRecipient>, rows: seq<RequestWithRecipient>)
    requires WellFormed(db)
    requires forall i :: 0 <= i < |ids| ==> ids[i] in db.requests
    requires forall k :: k in db.requests && 1 <= k < db.nextRequestId ==> k in ids
    requires joined == JoinAll(db, ids)
    requires multiset(rows) == multiset(joined)
    ensures forall i :: 0 <= i < |rows| ==> IsStoredRow(db, rows[i])
    ensures forall id :: id in db.requests ==> exists i :: 0 <= i < |rows| && rows[i].request.id == id
  {
    forall i | 0 <= i < |rows|
      ensures IsStoredRow(db, rows[i])
    {
      assert rows[i] in multiset(joined);
      var k :| 0 <= k < |joined| && joined[k] == rows[i];
    }
    forall id | id in db.requests
      ensures exists i :: 0 <= i < |rows| && rows[i].request.id == id
    {
      var k :| 0 <= k < |ids| && ids[k] == id;
      assert joined[k] in multiset(rows);
      var i :| 0 <= i < |rows| && rows[i] == joined[k];
    }
  }

  /** The request with the given id, or nothing. */
  function GetRequestById(db: State, id: int): (r: Option<Request>)
    ensures r.Some? <==> id in db.requests
    ensures r.Some? ==> r.value == db.requests[id]
  {
    if id in db.requests then Some(db.requests[id]) else None
  }

  /**
   * Creates a recipient and a request that points at it, in one write.
   * The store assigns both ids, the date and the initial status.
   */
  function CreateRequestWithRecipient(db: State, requestData: RequestData, recipientData: RecipientData, date: int)
    : (r: (State, Request))
    requires WellFormed(db)
    ensures var (db', req) := r;
            && req.id !in db.requests && req.recipientId !in db.recipients
            && db'.requests.Keys == db.requests.Keys + {req.id}
            && db'.recipients.Keys == db.recipients.Keys + {req.recipientId}
            && db'.requests[req.id] == req
            && db'.recipients[req.recipientId] == Recipient(req.recipientId, recipientData.name, recipientData.email,
                                                           recipientData.contact, recipientData.bloodType)
            && req.bloodType == requestData.bloodType && req.volume == requestData.volume
            && req.date == date && req.status == PENDING
            && (forall k :: k in db.requests ==> db'.requests[k] == db.requests[k])
            && (forall k :: k in db.recipients ==> db'.recipients[k] == db.recipients[k])
            && db'.stock == db.stock && db'.donors == db.donors
            && WellFormed(db')
  {
    var recipientId := db.nextRecipientId;
    var recipient := Recipient(recipientId, recipientData.name, recipientData.email,
                               recipientData.contact, recipientData.bloodType);
    var req := Request(db.nextRequestId, recipientId, date, requestData.bloodType, requestData.volume, PENDING);
    (db.(requests := db.requests[req.id := req],
         recipients := db.recipients[recipientId := recipient],
         nextRequestId := db.nextRequestId + 1,
         nextRecipientId := db.nextRecipientId + 1),
     req)
  }

  /** A request just created can be looked up by its id, and the lookup returns it unchanged. */
  lemma CreatedRequestIsFound(db: State, requestData: RequestData, recipientData: RecipientData, date: int)
    requires WellFormed(db)
    ensures var (db', req) := CreateRequestWithRecipient(db, requestData, recipientData, date);
            && GetRequestById(db', req.id) == Some(req)
            && req.id !in db.requests
  {
  }

  /** Overwrites the status of one request; the store refuses a missing id. */
  function UpdateRequestStatus(db: State, id: int, status: string): (r: Result<(State, Request), Error>)
    ensures r.Failure? <==> id !in db.requests
    ensures r.Failure? ==> r.error == RecordToUpdateNotFound
    ensures r.Success? ==>
              var (db', req) := r.value;
              && req == db.requests[id].(status := status)
              && db'.requests.Keys == db.requests.Keys
              && db'.requests[id] == req
              && (forall k :: k in db.requests && k != id ==> db'.requests[k] == db.requests[k])
              && db' == db.(requests := db'.requests)
  {
    if id !in db.requests then Failure(RecordToUpdateNotFound)
    else
      var req := db.requests[id].(status := status);
      Success((db.(requests := db.requests[id := req]), req))
  }
}
