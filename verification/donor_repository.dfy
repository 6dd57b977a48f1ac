/** The Donor table, whose `email` column carries a unique index. */
module DonorRepository {
  import opened Wrappers
  import opened Database

  /** A partial donor: the fields an update supplies; absent ones keep their value. */
  datatype DonorPatch = DonorPatch(name: Option<string>, email: Option<string>,
                                   bloodType: Option<string>, contact: Option<string>)

  function Merge(d: Donor, patch: DonorPatch): Donor {
    Donor(d.id,
          if patch.name.Some? then patch.name.value else d.name,
          if patch.email.Some? then patch.email.value else d.email,
          if patch.bloodType.Some? then patch.bloodType.value else d.bloodType,
          if patch.contact.Some? then patch.contact.value else d.contact)
  }

  /**
   * Inserts a donor under the next id. The unique index on `email`
   * refuses a second donor with the same address.
   */
  function CreateDonor(db: State, data: DonorData): (r: Result<(State, Donor), Error>)
    requires WellFormed(db)
    ensures r.Failure? <==> EmailTaken(db.donors, data.email)
    ensures r.Failure? ==> r.error == UniqueConstraintFailed
    ensures r.Success? ==>
              var (db', d) := r.value;
              && d.id !in db.donors
              && d == Donor(d.id, data.name, data.email, data.bloodType, data.contact)
              && db'.donors.Keys == db.donors.Keys + {d.id}
              && db'.donors[d.id] == d
              && (forall k :: k in db.donors ==> db'.donors[k] == db.donors[k])
              && db'.stock == db.stock && db'.requests == db.requests && db'.recipients == db.recipients
              && WellFormed(db')
              && (UniqueEmails(db) ==> UniqueEmails(db'))
  {
    if EmailTaken(db.donors, data.email) then Failure(UniqueConstraintFailed)
    else
      var d := Donor(db.nextDonorId, data.name, data.email, data.bloodType, data.contact);
      Success((db.(donors := db.donors[d.id := d], nextDonorId := db.nextDonorId + 1), d))
  }

  function GetDonorById(db: State, id: int): (r: Option<Donor>)
    ensures r.Some? <==> id in db.donors
    ensures r.Some? ==> r.value == db.donors[id]
  {
    if id in db.donors then Some(db.donors[id]) else None
  }

  /** The first of `ids` whose donor holds `email`. */
  function FirstWithEmail(donors: map<int, Donor>, ids: seq<int>, email: string): (r: Option<int>)
    requires forall i :: 0 <= i < |ids| ==> ids[i] in donors
    ensures r.Some? ==> r.value in ids && donors[r.value].email == email
    ensures r.None? ==> forall i :: 0 <= i < |ids| ==> donors[ids[i]].email != email
  {
    if ids == [] then None
    else if donors[ids[0]].email == email then Some(ids[0])
    else FirstWithEmail(donors, ids[1..], email)
  }

  /** The donor holding `email`, or nothing. */
  function GetDonorByEmail(db: State, email: string): (r: Option<Donor>)
    requires WellFormed(db)
    ensures r.Some? <==> EmailTaken(db.donors, email)
    ensures r.Some? ==> r.value.id in db.donors && db.donors[r.value.id] == r.value && r.value.email == email
  {
    var ids := AscendingIds(db.donors, 1, db.nextDonorId);
    match FirstWithEmail(db.donors, ids, email)
    case Some(id) => Some(db.donors[id])
    case None => None
  }

  /** Under the unique index the donor found by email is the only holder of that email. */
  lemma GetDonorByEmailIsTheHolder(db: State, email: string, id: int)
    requires Valid(db)
    requires id in db.donors && db.donors[id].email == email
    ensures GetDonorByEmail(db, email) == Some(db.donors[id])
  {
  }

  /** The donor stored under each of `ids`, in the same order. */
  function DonorsOf(donors: map<int, Donor>, ids: seq<int>): (rows: seq<Donor>)
    requires forall i :: 0 <= i < |ids| ==> ids[i] in donors
    ensures |rows| == |ids|
    ensures forall i :: 0 <= i < |rows| ==> rows[i] == donors[ids[i]]
  {
    if ids == [] then [] else [donors[ids[0]]] + DonorsOf(donors, ids[1..])
  }

  /** Every donor, in ascending id order: the table read without an ordering. */
  function AllDonors(db: State): (all: seq<Donor>)
    requires WellFormed(db)
    ensures |all| == |db.donors|
    ensures forall i :: 0 <= i < |all| ==> all[i].id in db.donors && db.donors[all[i].id] == all[i]
    ensures forall i, j :: 0 <= i < j < |all| ==> all[i].id < all[j].id
    ensures forall id :: id in db.donors ==> exists i :: 0 <= i < |all| && all[i].id == id
  {
    var ids := AscendingIds(db.donors, 1, db.nextDonorId);
    AllIdsListed(db.donors, db.nextDonorId);
    ListedDonors(db, ids);
    DonorsOf(db.donors, ids)
  }

  lemma ListedDonors(db: State, ids: seq<int>)
    requires WellFormed(db)
    requires forall i :: 0 <= i < |ids| ==> ids[i] in db.donors
    requires forall id :: id in db.donors ==> id in ids
    requires forall i, j :: 0 <= i < j < |ids| ==> ids[i] < ids[j]
    ensures var all := DonorsOf(db.donors, ids);
            && (forall i :: 0 <= i < |all| ==> all[i].id == ids[i] && all[i].id in db.donors && db.donors[all[i].id] == all[i])
            && (forall id :: id in db.donors ==> exists i :: 0 <= i < |all| && all[i].id == id)
  {
    var all := DonorsOf(db.donors, ids);
    forall i | 0 <= i < |all|
      ensures all[i].id == ids[i]
    {
      assert ids[i] in db.donors;
    }
    forall id | id in db.donors
      ensures exists i :: 0 <= i < |all| && all[i].id == id
    {
      var i :| 0 <= i < |ids| && ids[i] == id;
      assert all[i].id == id;
    }
  }

  /** At most `take` elements of `s`, starting at position `skip`. */
  function Window<T>(s: seq<T>, skip: int, take: int): (r: seq<T>)
    requires skip >= 0 && take >= 0
    ensures |r| <= take
    ensures forall i :: 0 <= i < |r| ==> skip + i < |s| && r[i] == s[skip + i]
    ensures skip + take <= |s| ==> |r| == take
    ensures skip < |s| && skip + take > |s| ==> skip + |r| == |s|
  {
    if skip >= |s| then []
    else if skip + take <= |s| then s[skip..skip + take]
    else s[skip..]
  }

  lemma OffsetNonNegative(a: int, b: int)
    requires a >= 0 && b >= 0
    ensures a * b >= 0
  {
  }

  /**
   * One page of donors: skips `(page - 1) * limit` donors and takes at
   * most `limit`. Page 1 of 10 donors by default.
   */
  function GetAllDonors(db: State, page: int := 1, limit: int := 10): (rows: seq<Donor>)
    requires WellFormed(db)
    requires page >= 1 && limit >= 0
    ensures |rows| <= limit
    ensures var skip := (page - 1) * limit;
            var all := AllDonors(db);
            && (forall i :: 0 <= i < |rows| ==> 0 <= skip + i < |all| && rows[i] == all[skip + i])
            && (skip + limit <= |all| ==> |rows| == limit)
            && (skip < |all| && skip + limit > |all| ==> skip + |rows| == |all|)
  {
    var skip := (page - 1) * limit;
    OffsetNonNegative(page - 1, limit);
    Window(AllDonors(db), skip, limit)
  }

  /** Windows of width `take` cover a sequence: position `i` is in window number `i / take`. */
  lemma WindowCovers<T>(s: seq<T>, take: int, i: int)
    requires take >= 1 && 0 <= i < |s|
    ensures var q := i / take;
            q >= 0 && q * take >= 0
            && i % take < |Window(s, q * take, take)|
            && Window(s, q * take, take)[i % take] == s[i]
  {
    var q := i / take;
    var m := i % take;
    assert i == q * take + m && 0 <= m < take;
    assert q >= 0;
    OffsetNonNegative(q, take);
    var w := Window(s, q * take, take);
    if q * take + take <= |s| {
      assert |w| == take;
    } else {
      assert q * take + |w| == |s|;
    }
  }

  /** Paging covers the listing: the donor at position `i` sits on page `i / limit + 1`. */
  lemma DonorOnItsPage(db: State, limit: int, i: int)
    requires WellFormed(db)
    requires limit >= 1 && 0 <= i < |AllDonors(db)|
    ensures i / limit + 1 >= 1
    ensures i % limit < |GetAllDonors(db, i / limit + 1, limit)|
    ensures GetAllDonors(db, i / limit + 1, limit)[i % limit] == AllDonors(db)[i]
  {
    WindowCovers(AllDonors(db), limit, i);
    var q := i / limit;
    assert (q + 1 - 1) * limit == q * limit;
  }

  /**
   * Overwrites the supplied fields of one donor. The store refuses a
   * missing id, and its unique index refuses an email held by another
   * donor.
   */
  function UpdateDonor(db: State, id: int, patch: DonorPatch): (r: Result<(State, Donor), Error>)
    requires WellFormed(db)
    ensures id !in db.donors ==> r == Failure(RecordToUpdateNotFound)
    ensures id in db.donors && patch.email.Some? && EmailTaken(db.donors - {id}, patch.email.value) ==>
              r == Failure(UniqueConstraintFailed)
    ensures r.Success? <==>
              id in db.donors && !(patch.email.Some? && EmailTaken(db.donors - {id}, patch.email.value))
    ensures r.Success? ==>
              var (db', d) := r.value;
              var prev := db.donors[id];
              && d.id == id
              && (patch.name.Some? ==> d.name == patch.name.value) && (patch.name.None? ==> d.name == prev.name)
              && (patch.email.Some? ==> d.email == patch.email.value) && (patch.email.None? ==> d.email == prev.email)
              && (patch.bloodType.Some? ==> d.bloodType == patch.bloodType.value)
              && (patch.bloodType.None? ==> d.bloodType == prev.bloodType)
              && (patch.contact.Some? ==> d.contact == patch.contact.value)
              && (patch.contact.None? ==> d.contact == prev.contact)
              && db'.donors.Keys == db.donors.Keys
              && db'.donors[id] == d
              && (forall k :: k in db.donors && k != id ==> db'.donors[k] == db.donors[k])
              && db' == db.(donors := db'.donors)
  {
    if id !in db.donors then Failure(RecordToUpdateNotFound)
    else if patch.email.Some? && EmailTaken(db.donors - {id}, patch.email.value) then Failure(UniqueConstraintFailed)
    else
      var d := Merge(db.donors[id], patch);
      Success((db.(donors := db.donors[id := d]), d))
  }

  /** Removes one donor and returns the removed row; the store refuses a missing id. */
  function DeleteDonor(db: State, id: int): (r: Result<(State, Donor), Error>)
    requires WellFormed(db)
    ensures r.Failure? <==> id !in db.donors
    ensures r.Failure? ==> r.error == RecordToDeleteNotFound
    ensures r.Success? ==>
              var (db', d) := r.value;
              && d == db.donors[id]
              && db'.donors.Keys == db.donors.Keys - {id}
              && (forall k :: k in db'.donors ==> db'.donors[k] == db.donors[k])
              && db' == db.(donors := db'.donors)
  {
    if id !in db.donors then Failure(RecordToDeleteNotFound)
    else Success((db.(donors := db.donors - {id}), db.donors[id]))
  }
}
