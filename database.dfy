/** The relational store behind the two gorm repositories: the `cars` and
    `peoples` tables with their auto-increment id sequences and the constraints
    that gorm's AutoMigrate declares for the row types (a unique `reg_num`, and
    a foreign key from `cars.owner_id` to `peoples.id` for the `Owner`
    association). Rows are kept in ascending id order, which is insertion
    order because ids come from an increasing sequence. */
module Storage {
  import opened Wrappers
  import PeopleEntity
  import CarEntity

  datatype State = State(
    cars: seq<CarEntity.Car>, peoples: seq<PeopleEntity.People>,
    nextCarId: nat, nextPeopleId: nat)

  /** A freshly migrated database. */
  const Empty: State := State([], [], 1, 1)

  ghost predicate CarsOrdered(cars: seq<CarEntity.Car>) {
    forall i, j :: 0 <= i < j < |cars| ==> cars[i].id < cars[j].id
  }

  ghost predicate PeoplesOrdered(ps: seq<PeopleEntity.People>) {
    forall i, j :: 0 <= i < j < |ps| ==> ps[i].id < ps[j].id
  }

  ghost predicate UniqueRegNums(cars: seq<CarEntity.Car>) {
    forall i, j :: 0 <= i < j < |cars| ==> cars[i].regNum != cars[j].regNum
  }

  /** The table invariant: ids ordered, positive and below the next id, no
      association stored in `cars`, unique registration numbers, and every
      car's owner present in `peoples`. */
  ghost predicate Valid(s: State) {
    s.nextCarId >= 1 && s.nextPeopleId >= 1
    && CarsOrdered(s.cars) && PeoplesOrdered(s.peoples) && UniqueRegNums(s.cars)
    && (forall i :: 0 <= i < |s.cars| ==> 1 <= s.cars[i].id < s.nextCarId)
    && (forall i :: 0 <= i < |s.peoples| ==> 1 <= s.peoples[i].id < s.nextPeopleId)
    && (forall i :: 0 <= i < |s.cars| ==> s.cars[i].owner == PeopleEntity.Zero)
    && (forall i :: 0 <= i < |s.cars| ==> FindPeople(s.peoples, s.cars[i].ownerId).Some?)
  }

  /** Position of the car row with primary key `id`. */
  function FindCar(cars: seq<CarEntity.Car>, id: int): (r: Option<nat>)
    ensures r.Some? ==> r.value < |cars| && cars[r.value].id == id
    ensures r.None? ==> forall i :: 0 <= i < |cars| ==> cars[i].id != id
  {
    if cars == [] then None
    else if cars[0].id == id then Some(0)
    else match FindCar(cars[1..], id)
      case Some(k) => Some(k + 1)
      case None => None
  }

  /** The people row with primary key `id` (an inner join / preload lookup). */
  function FindPeople(ps: seq<PeopleEntity.People>, id: nat): (r: Option<PeopleEntity.People>)
    ensures r.Some? ==> r.value in ps && r.value.id == id
    ensures r.None? ==> forall p :: p in ps ==> p.id != id
  {
    if ps == [] then None
    else if ps[0].id == id then Some(ps[0])
    else FindPeople(ps[1..], id)
  }

  /** Is the registration number used by some row other than position `except`
      (pass |cars| to consider every row)? The unique constraint refuses a write
      that would make it so. */
  predicate RegNumTaken(cars: seq<CarEntity.Car>, regNum: string, except: nat) {
    exists i | 0 <= i < |cars| :: i != except && cars[i].regNum == regNum
  }

  /** `Preload("Owner")`: the row with its owner attached, or with the zero
      owner when no people row has its owner id. */
  function Preload(s: State, c: CarEntity.Car): (r: CarEntity.Car)
    ensures r == c.(owner := r.owner)
    ensures FindPeople(s.peoples, c.ownerId).Some? ==> r.owner == FindPeople(s.peoples, c.ownerId).value
  {
    c.(owner := FindPeople(s.peoples, c.ownerId).GetOr(PeopleEntity.Zero))
  }

  /** In an id-ordered table the lookup finds exactly the row that carries the id. */
  lemma {:induction false} FindPeopleExact(ps: seq<PeopleEntity.People>, k: nat)
    requires PeoplesOrdered(ps) && k < |ps|
    ensures FindPeople(ps, ps[k].id) == Some(ps[k])
  {
    if k > 0 {
      assert ps[0].id < ps[k].id;
      assert PeoplesOrdered(ps[1..]);
      FindPeopleExact(ps[1..], k - 1);
    }
  }

  /** Appending a row never hides an existing row from the lookup. */
  lemma {:induction false} FindPeopleAppend(ps: seq<PeopleEntity.People>, p: PeopleEntity.People, id: nat)
    ensures FindPeople(ps + [p], id) ==
      if FindPeople(ps, id).Some? then FindPeople(ps, id)
      else if p.id == id then Some(p) else None
  {
    if ps != [] {
      assert (ps + [p])[1..] == ps[1..] + [p];
      FindPeopleAppend(ps[1..], p, id);
    }
  }

  /** Rows appended after the one found never change what the lookup finds. */
  lemma {:induction false} FindPeopleExtend(ps: seq<PeopleEntity.People>, more: seq<PeopleEntity.People>, id: nat)
    requires FindPeople(ps, id).Some?
    ensures FindPeople(ps + more, id) == FindPeople(ps, id)
  {
    if ps[0].id != id {
      assert (ps + more)[1..] == ps[1..] + more;
      FindPeopleExtend(ps[1..], more, id);
    }
  }

  lemma FindCarExact(cars: seq<CarEntity.Car>, k: nat)
    requires CarsOrdered(cars) && k < |cars|
    ensures FindCar(cars, cars[k].id) == Some(k)
  {
  }

  /** The shared `*gorm.DB` handle both repositories hold. */
  class Db {
    var cars: seq<CarEntity.Car>
    var peoples: seq<PeopleEntity.People>
    var nextCarId: nat
    var nextPeopleId: nat

    function Snapshot(): State
      reads this
    {
      State(cars, peoples, nextCarId, nextPeopleId)
    }

    constructor ()
      ensures Snapshot() == Empty && Valid(Snapshot())
    {
      cars, peoples := [], [];
      nextCarId, nextPeopleId := 1, 1;
    }
  }
}
