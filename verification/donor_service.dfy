/** The donor service: registration with a duplicate-email guard, lookup, paging, update and removal. */
module DonorService {
  import opened Wrappers
  import opened Database
  import DonorRepository

  /**
   * Registers a donor unless some donor already holds the email. The
   * store's own unique index is therefore never what refuses a
   * registration.
   */
  function RegisterDonor(db: State, data: DonorData): (r: Result<(State, Donor), Error>)
    requires WellFormed(db)
    ensures EmailTaken(db.donors, data.email) ==> r == Failure(DuplicateEmail)
    ensures !EmailTaken(db.donors, data.email) ==> r.Success? && r == DonorRepository.CreateDonor(db, data)
  {
    if DonorRepository.GetDonorByEmail(db, data.email).Some? then Failure(DuplicateEmail)
    else DonorRepository.CreateDonor(db, data)
  }

  /** Registration keeps every invariant; in particular no two donors ever share an email. */
  lemma RegisterDonorPreservesValid(db: State, data: DonorData)
    requires Valid(db)
    ensures var r := RegisterDonor(db, data);
            r.Success? ==> Valid(r.value.0)
  {
  }

  /** A registered donor is found again by its id and by its email. */
  lemma RegisteredDonorIsFound(db: State, data: DonorData)
    requires Valid(db)
    ensures var r := RegisterDonor(db, data);
            r.Success? ==> var (db', d) := r.value;
                           && FindDonorById(db', d.id) == Some(d)
                           && DonorRepository.GetDonorByEmail(db', d.email) == Some(d)
  {
    var r := RegisterDonor(db, data);
    if r.Success? {
      var (db', d) := r.value;
      RegisterDonorPreservesValid(db, data);
      DonorRepository.GetDonorByEmailIsTheHolder(db', d.email, d.id);
    }
  }

  /** A second registration with the same email fails and leaves the first donor as it was. */
  lemma RegisterSameEmailTwice(db: State, first: DonorData, second: DonorData)
    requires Valid(db)
    requires !EmailTaken(db.donors, first.email)
    requires second.email == first.email
    ensures var r1 := RegisterDonor(db, first);
            && r1.Success?
            && var (db1, d) := r1.value;
               && WellFormed(db1)
               && RegisterDonor(db1, second) == Failure(DuplicateEmail)
               && db1.donors[d.id] == Donor(d.id, first.name, first.email, first.bloodType, first.contact)
  {
    var r1 := RegisterDonor(db, first);
    var (db1, d) := r1.value;
    assert db1.donors[d.id].email == second.email;
  }

  function FindDonorById(db: State, id: int): (r: Option<Donor>)
    ensures r.None? <==> id !in db.donors
    ensures r.Some? ==> r.value == db.donors[id]
  {
    DonorRepository.GetDonorById(db, id)
  }

  /** The repository's default page: the first ten donors by id. */
  function ListDonors(db: State): (rows: seq<Donor>)
    requires WellFormed(db)
    ensures |rows| <= 10
    ensures |rows| == if |db.donors| < 10 then |db.donors| else 10
    ensures forall i :: 0 <= i < |rows| ==> rows[i] == DonorRepository.AllDonors(db)[i]
  {
    DonorRepository.GetAllDonors(db)
  }

  /** Passes the update straight to the repository: the service does not re-check the email. */
  function UpdateDonorDetails(db: State, id: int, patch: DonorRepository.DonorPatch): (r: Result<(State, Donor), Error>)
    requires WellFormed(db)
    ensures r == DonorRepository.UpdateDonor(db, id, patch)
    ensures r.Failure? ==> r.error != DuplicateEmail
  {
    DonorRepository.UpdateDonor(db, id, patch)
  }

  /**
   * Taking another donor's email through an update is refused only by the
   * store's unique index, with the store's error rather than the
   * service's duplicate-email message.
   */
  lemma UpdateToTakenEmail(db: State, id: int, other: int, patch: DonorRepository.DonorPatch)
    requires WellFormed(db)
    requires id in db.donors && other in db.donors && other != id
    requires patch.email == Some(db.donors[other].email)
    ensures UpdateDonorDetails(db, id, patch) == Failure(UniqueConstraintFailed)
  {
    assert other in db.donors - {id};
  }

  /** An update that succeeds keeps every invariant, unique emails included. */
  lemma UpdateDonorDetailsPreservesValid(db: State, id: int, patch: DonorRepository.DonorPatch)
    requires Valid(db)
    ensures var r := UpdateDonorDetails(db, id, patch);
            r.Success? ==> Valid(r.value.0)
  {
    var r := UpdateDonorDetails(db, id, patch);
    if r.Success? {
      var db' := r.value.0;
      forall a, b | a in db'.donors && b in db'.donors && db'.donors[a].email == db'.donors[b].email
        ensures a == b
      {
        if a != b && a == id {
          HolderTakesEmail(db.donors - {id}, b);
          assert false;
        }
        if a != b && b == id {
          HolderTakesEmail(db.donors - {id}, a);
          assert false;
        }
      }
    }
  }

  function RemoveDonor(db: State, id: int): (r: Result<(State, Donor), Error>)
    requires WellFormed(db)
    ensures r == DonorRepository.DeleteDonor(db, id)
    ensures r.Success? ==> r.value.1.id == id && id !in r.value.0.donors
  {
    DonorRepository.DeleteDonor(db, id)
  }

  /** A removal keeps every invariant; the freed id is never handed out again. */
  lemma RemoveDonorPreservesValid(db: State, id: int)
    requires Valid(db)
    ensures var r := RemoveDonor(db, id);
            r.Success? ==> Valid(r.value.0) && r.value.0.nextDonorId > id
  {
  }

  /** After a removal the id finds nobody, and every other donor is still found as before. */
  lemma RemovedDonorIsGone(db: State, id: int, other: int)
    requires WellFormed(db)
    requires other != id
    ensures var r := RemoveDonor(db, id);
            r.Success? ==> && FindDonorById(r.value.0, id) == None
                           && FindDonorById(r.value.0, other) == FindDonorById(db, other)
  {
  }
}
