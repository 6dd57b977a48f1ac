/** The stock service: listing and guarded stock updates. */
module BloodStockService {
  import opened Wrappers
  import opened Database
  import BloodStockRepository

  function ListStock(db: State): (rows: seq<BloodStock>)
    ensures rows == BloodStockRepository.GetAllStock(db)
  {
    BloodStockRepository.GetAllStock(db)
  }

  /**
   * Sets the volume held for a blood type. An empty blood type is refused
   * first, then a negative volume; otherwise the row is upserted.
   */
  function UpdateStockLevel(db: State, bloodType: string, volume: int): (r: Result<(State, BloodStock), Error>)
    ensures bloodType == [] ==> r == Failure(EmptyBloodType)
    ensures bloodType != [] && volume < 0 ==> r == Failure(NegativeVolume)
    ensures r.Success? <==> bloodType != [] && volume >= 0
    ensures r.Success? ==> r.value == BloodStockRepository.UpdateStock(db, bloodType, volume)
  {
    if bloodType == [] then Failure(EmptyBloodType)
    else if volume < 0 then Failure(NegativeVolume)
    else Success(BloodStockRepository.UpdateStock(db, bloodType, volume))
  }

  /** A stock update that succeeds keeps every invariant of the database. */
  lemma UpdateStockLevelPreservesValid(db: State, bloodType: string, volume: int)
    requires Valid(db)
    ensures var r := UpdateStockLevel(db, bloodType, volume);
            r.Success? ==> Valid(r.value.0)
  {
  }
}
