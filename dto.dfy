/** Domain values returned to callers (internal/dto/model). The final shape of
    `model.Car` follows the mapping in internal/repository/gorm/car/car.go: the
    descriptive fields sit in an embedded `CarInfo`, the owner beside it. */
module Model {
  import opened Wrappers

  datatype People = People(id: nat, name: string, surname: string, patronymic: Option<string>)

  /** What the car info service says about a registration number. */
  datatype CarInfo = CarInfo(mark: string, model: string, year: Option<int>, owner: Option<People>)

  datatype Car = Car(id: nat, regNum: string, ownerId: nat, info: CarInfo, owner: Option<People>)

  /** Go's zero value `model.Car{}`, which `make` puts in every slot of a new slice. */
  const ZeroCar: Car := Car(0, "", 0, CarInfo("", "", None, None), None)
}

/** Persistence-shaped requests with defaults already resolved (internal/dto/query). */
module Query {
  import opened Wrappers

  datatype CarList = CarList(
    regNum: Option<string>, mark: Option<string>, model: Option<string>, year: Option<int>,
    ownerName: Option<string>, ownerSurname: Option<string>,
    order: string, page: int, count: int)

  datatype CarCreate = CarCreate(regNum: string, mark: string, model: string, year: Option<int>, ownerId: nat)

  datatype CarUpdate = CarUpdate(id: int, regNum: Option<string>, mark: Option<string>, model: Option<string>, year: Option<int>)

  datatype CarDelete = CarDelete(id: int)

  datatype PeopleCreate = PeopleCreate(name: string, surname: string, patronymic: Option<string>)

  datatype CarInfo = CarInfo(regNum: string)
}

/** Transport-shaped requests as the service receives them (internal/dto/command,
    with the fields the service reads). */
module Command {
  import opened Wrappers

  datatype CarIndex = CarIndex(
    regNum: Option<string>, mark: Option<string>, model: Option<string>, year: Option<int>,
    ownerName: Option<string>, ownerSurname: Option<string>,
    order: Option<string>, page: Option<int>, count: Option<int>)

  datatype CarStore = CarStore(regNums: seq<string>)

  datatype CarUpdate = CarUpdate(id: int, regNum: Option<string>, mark: Option<string>, model: Option<string>, year: Option<int>)

  datatype CarDelete = CarDelete(id: int)
}
