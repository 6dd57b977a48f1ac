/**
 * The persistent store behind the application, as an immutable value:
 * the BloodStock, Request, Recipient and Donor tables, plus the
 * autoincrement counter of each table that has an integer id.
 */
module Database {
  import opened Wrappers

  /** A BloodStock row; `bloodType` is the table's unique key. */
  datatype BloodStock = BloodStock(bloodType: string, volume: int)

  datatype Donor = Donor(id: int, name: string, email: string, bloodType: string, contact: string)

  /** The fields a caller supplies to create a donor (a Donor without its id). */
  datatype DonorData = DonorData(name: string, email: string, bloodType: string, contact: string)

  datatype Recipient = Recipient(id: int, name: string, email: string, contact: string, bloodType: string)

  /** The fields a caller supplies to create a recipient (a Recipient without its id). */
  datatype RecipientData = RecipientData(name: string, email: string, contact: string, bloodType: string)

  /** A blood request; `status` is free text in the store. */
  datatype Request = Request(id: int, recipientId: int, date: int, bloodType: string, volume: int, status: string)

  /** The fields a caller may supply for a request: neither id, recipientId, date nor status. */
  datatype RequestData = RequestData(bloodType: string, volume: int)

  /** A request with its recipient embedded, as a listing returns it. */
  datatype RequestWithRecipient = RequestWithRecipient(request: Request, recipient: Recipient)

  /** The status the store gives a new request. */
  const PENDING: string := "pending"
  const FULFILLED: string := "fulfilled"
  const REJECTED: string := "rejected"

  /** Every error an operation can throw, each with the message it carries. */
  datatype Error =
    | RequestNotFound
    | InsufficientStock
    | EmptyBloodType
    | NegativeVolume
    | DuplicateEmail
      // raised by the store itself; its messages are longer, and only their last sentence is kept
    | RecordToUpdateNotFound
    | RecordToDeleteNotFound
    | UniqueConstraintFailed
  {
    function Message(): string {
      match this
      case RequestNotFound => "Request not found"
      case InsufficientStock => "Insufficient blood stock"
      case EmptyBloodType => "Blood type cannot be empty."
      case NegativeVolume => "Volume cannot be negative."
      case DuplicateEmail => "A donor with this email already exists."
      case RecordToUpdateNotFound => "Record to update not found."
      case RecordToDeleteNotFound => "Record to delete does not exist."
      case UniqueConstraintFailed => "Unique constraint failed on the fields: (`email`)"
    }
  }

  datatype State = State(
    stock: map<string, int>,
    requests: map<int, Request>,
    recipients: map<int, Recipient>,
    donors: map<int, Donor>,
    nextRequestId: int,
    nextRecipientId: int,
    nextDonorId: int)

  /** The empty database: no rows, every counter at its first id. */
  const Empty: State := State(map[], map[], map[], map[], 1, 1, 1)

  /**
   * What the schema guarantees of every state: each row is stored under
   * its own id, ids are below their table's counter, and every request's
   * recipient exists.
   */
  ghost predicate WellFormed(db: State) {
    && db.nextRequestId >= 1 && db.nextRecipientId >= 1 && db.nextDonorId >= 1
    && (forall k :: k in db.requests ==>
          db.requests[k].id == k && 1 <= k < db.nextRequestId && db.requests[k].recipientId in db.recipients)
    && (forall k :: k in db.recipients ==> db.recipients[k].id == k && 1 <= k < db.nextRecipientId)
    && (forall k :: k in db.donors ==> db.donors[k].id == k && 1 <= k < db.nextDonorId)
  }

  /** The stock invariant: no blood type is ever held in negative volume. */
  ghost predicate StockNonNegative(db: State) {
    forall bt :: bt in db.stock ==> db.stock[bt] >= 0
  }

  /** No two donors share an email. */
  ghost predicate UniqueEmails(db: State) {
    forall a, b :: a in db.donors && b in db.donors && db.donors[a].email == db.donors[b].email ==> a == b
  }

  ghost predicate Valid(db: State) {
    WellFormed(db) && StockNonNegative(db) && UniqueEmails(db)
  }

  /** Some donor holds `email`. */
  predicate EmailTaken(donors: map<int, Donor>, email: string) {
    exists k | k in donors :: donors[k].email == email
  }

  lemma HolderTakesEmail(donors: map<int, Donor>, k: int)
    ensures k in donors ==> EmailTaken(donors, donors[k].email)
  {
  }

  /** The keys of `m` within `[lo, hi)`, ascending: a table scanned in id order. */
  function AscendingIds<V>(m: map<int, V>, lo: int, hi: int): (ids: seq<int>)
    ensures forall i :: 0 <= i < |ids| ==> ids[i] in m && lo <= ids[i] < hi
    ensures forall k :: k in m && lo <= k < hi ==> k in ids
    ensures forall i, j :: 0 <= i < j < |ids| ==> ids[i] < ids[j]
    decreases hi - lo
  {
    if hi <= lo then []
    else
      var rest := AscendingIds(m, lo + 1, hi);
      if lo in m then [lo] + rest else rest
  }

  /** A strictly increasing sequence has as many distinct elements as entries. */
  lemma {:induction false} IncreasingCard(s: seq<int>)
    requires forall i, j :: 0 <= i < j < |s| ==> s[i] < s[j]
    ensures |set x | x in s| == |s|
  {
    if |s| > 0 {
      IncreasingCard(s[1..]);
      assert (set x | x in s) == {s[0]} + (set x | x in s[1..]);
      assert s[0] !in (set x | x in s[1..]);
    }
  }

  /** Scanning a well-formed table over its whole id range lists every row once. */
  lemma AllIdsListed<V>(m: map<int, V>, next: int)
    requires forall k :: k in m ==> 1 <= k < next
    ensures |AscendingIds(m, 1, next)| == |m|
  {
    var ids := AscendingIds(m, 1, next);
    IncreasingCard(ids);
    assert (set x | x in ids) == m.Keys;
  }
}
