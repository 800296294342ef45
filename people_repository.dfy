/** Owner creation (internal/repository/gorm/people/repository.go): an
    unconditional INSERT into `peoples`, with no lookup for an existing person. */
module PeopleRepository {
  import opened Wrappers
  import opened Errors
  import Model
  import Query
  import PeopleEntity
  import Storage

  /** The column value written for an optional patronymic: absent is stored as "". */
  function StoredPatronymic(p: Option<string>): string {
    p.GetOr("")
  }

  /** How an optional patronymic reads back: absent and empty both come back absent. */
  function Normalized(p: Option<string>): Option<string> {
    if p == Some("") then None else p
  }

  /** The effect and result of `Create` on the tables. `fault` is the error the
      database reports for the INSERT, if it reports one. */
  function CreateSpec(s: Storage.State, q: Query.PeopleCreate, fault: Option<string>): (res: (Storage.State, Result<Model.People>))
    ensures res.0.cars == s.cars && res.0.nextCarId == s.nextCarId
    ensures res.1.Ok? <==> fault.None?
    ensures res.1.Fail? ==> res.0 == s
    ensures res.1.Ok? ==> |res.0.peoples| == |s.peoples| + 1 && res.0.peoples[..|s.peoples|] == s.peoples && res.1.value.id == s.nextPeopleId
  {
    if fault.Some? then (s, Fail(Caused(Database, fault.value)))
    else
      var row := PeopleEntity.People(s.nextPeopleId, q.name, q.surname, StoredPatronymic(q.patronymic));
      (s.(peoples := s.peoples + [row], nextPeopleId := s.nextPeopleId + 1), Ok(PeopleEntity.ToModel(row)))
  }

  /** A successful create appends exactly one row with a fresh id (greater than
      every id in the table) carrying the given name and surname and the given
      patronymic (an absent one stored as ""), uses up that id, leaves `cars`
      alone, and returns that row with the patronymic normalised. */
  lemma CreateInserts(s: Storage.State, q: Query.PeopleCreate)
    requires Storage.Valid(s)
    ensures var (s', r) := CreateSpec(s, q, None);
      r.Ok? && s'.cars == s.cars && s'.nextCarId == s.nextCarId && s'.nextPeopleId == s.nextPeopleId + 1
      && |s'.peoples| == |s.peoples| + 1 && s'.peoples[..|s.peoples|] == s.peoples
      && var row := s'.peoples[|s.peoples|];
         row.name == q.name && row.surname == q.surname
         && row.patronymic == (if q.patronymic.Some? then q.patronymic.value else "")
         && (forall p :: p in s.peoples ==> p.id < row.id)
         && r.value == Model.People(row.id, q.name, q.surname, Normalized(q.patronymic))
  {
  }

  /** A failing INSERT changes nothing and reports a Database error. */
  lemma CreateFailure(s: Storage.State, q: Query.PeopleCreate, cause: string)
    ensures var (s', r) := CreateSpec(s, q, Some(cause));
      s' == s && r.Fail? && Is(r.error, Database) && !Is(r.error, NotFound)
  {
  }

  /** No deduplication: creating the same person twice yields two rows with
      different ids. */
  lemma {:induction false} CreateNoDedup(s: Storage.State, q: Query.PeopleCreate)
    requires Storage.Valid(s)
    ensures var (s1, r1) := CreateSpec(s, q, None);
      var (s2, r2) := CreateSpec(s1, q, None);
      r1.Ok? && r2.Ok? && r1.value.id != r2.value.id
      && |s2.peoples| == |s.peoples| + 2
      && s2.peoples[|s.peoples|].id != s2.peoples[|s.peoples| + 1].id
      && r1.value.name == r2.value.name && r1.value.surname == r2.value.surname
  {
  }

  /** Create keeps the table invariant. */
  lemma {:induction false} CreatePreservesValid(s: Storage.State, q: Query.PeopleCreate, fault: Option<string>)
    requires Storage.Valid(s)
    ensures Storage.Valid(CreateSpec(s, q, fault).0)
  {
    if fault.None? {
      var s' := CreateSpec(s, q, fault).0;
      var row := s'.peoples[|s.peoples|];
      forall i | 0 <= i < |s'.cars|
        ensures Storage.FindPeople(s'.peoples, s'.cars[i].ownerId).Some?
      {
        Storage.FindPeopleAppend(s.peoples, row, s'.cars[i].ownerId);
      }
    }
  }

  class Repository {
    const db: Storage.Db

    constructor (db: Storage.Db)
      ensures this.db == db
    {
      this.db := db;
    }

    /** Inserts a new owner row and returns it as a model value. */
    method Create(q: Query.PeopleCreate, fault: Option<string>) returns (r: Result<Model.People>)
      modifies db
      ensures (db.Snapshot(), r) == CreateSpec(old(db.Snapshot()), q, fault)
    {
      var entity := PeopleEntity.People(0, q.name, q.surname, "");
      if q.patronymic.Some? {
        entity := entity.(patronymic := q.patronymic.value);
      }
      if fault.Some? {
        return Fail(Caused(Database, fault.value));
      }
      entity := entity.(id := db.nextPeopleId);
      db.peoples := db.peoples + [entity];
      db.nextPeopleId := db.nextPeopleId + 1;
      r := Ok(PeopleEntity.ToModel(entity));
    }
  }
}
