/** The `cars` table row and its mapping to the domain model
    (internal/repository/gorm/car/car.go). */
module CarEntity {
  import opened Wrappers
  import Model
  import PeopleEntity

  /** A row of `cars` together with the `Owner` association that gorm fills in
      on `Preload("Owner")` (the zero value when it is not loaded). The year
      column holds 0 for "no year". `regNum` carries a unique constraint. */
  datatype Car = Car(
    id: nat, regNum: string, mark: string, model: string, year: int,
    owner: PeopleEntity.People, ownerId: nat)

  /** Row to model: ID, RegNum and OwnerID copied; mark and model go to the
      embedded car info; year 0 becomes absent; an unloaded owner (ID 0)
      becomes no owner, any other is mapped by the people mapping. */
  function ToModel(e: Car): (m: Model.Car)
    ensures m.id == e.id && m.regNum == e.regNum && m.ownerId == e.ownerId
    ensures m.info.mark == e.mark && m.info.model == e.model && m.info.owner.None?
    ensures m.info.year.None? <==> e.year == 0
    ensures m.info.year.Some? ==> m.info.year.value == e.year
    ensures m.owner.None? <==> e.owner.id == 0
    ensures m.owner.Some? ==> m.owner.value == PeopleEntity.ToModel(e.owner)
  {
    var info := Model.CarInfo(e.mark, e.model, if e.year != 0 then Some(e.year) else None, None);
    var owner := if e.owner.id != 0 then Some(PeopleEntity.ToModel(e.owner)) else None;
    Model.Car(e.id, e.regNum, e.ownerId, info, owner)
  }
}
