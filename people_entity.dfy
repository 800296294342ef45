/** The `peoples` table row and its mapping to the domain model
    (internal/repository/gorm/people/people.go). */
module PeopleEntity {
  import opened Wrappers
  import Model

  /** A row of `peoples`. The patronymic column is nullable; a NULL reads back
      into the Go string field as "", so the model keeps "" for it. */
  datatype People = People(id: nat, name: string, surname: string, patronymic: string)

  /** Go's zero value `people.People{}`: what an unloaded association holds. */
  const Zero: People := People(0, "", "", "")

  /** Row to model: identity and names copied, an empty patronymic collapsed to absent. */
  function ToModel(e: People): (m: Model.People)
    ensures m.id == e.id && m.name == e.name && m.surname == e.surname
    ensures m.patronymic.None? <==> e.patronymic == ""
    ensures m.patronymic.Some? ==> m.patronymic.value == e.patronymic
    ensures m.patronymic != Some("")
  {
    Model.People(e.id, e.name, e.surname, if e.patronymic != "" then Some(e.patronymic) else None)
  }
}
