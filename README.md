# Car catalogue service — a Dafny model

This project models the core of a small Go web service that keeps a catalogue of cars
and their owners in PostgreSQL through gorm. The service does four things:

- **Index** lists cars with optional filters, paging and ordering. It uses defaults
  page 1, count 10 and order "desc".
- **Store** onboards a batch of registration numbers. For each one, in order, it asks a
  remote car-info service for the car, inserts the owner into `peoples`, then inserts the
  car into `cars`. The first error ends the batch, and rows already written stay.
- **Update** overwrites the fields that are present in the command.
- **Delete** removes a car by id.

Errors are the Go sentinels `ErrNotFound`, `ErrDatabase` and `ErrHTTPRequestFailed`,
wrapped with `%w`. The HTTP layer turns an error into 404, 400 or 500 with a JSON
`{"message": ...}` body.

The modules follow the program's packages:

| module | Go package |
|---|---|
| `Errors` | `app_error`, plus Go's `errors.Is`/`errors.As`/`Error()` |
| `Model`, `Query`, `Command` | `dto/...` |
| `PeopleEntity`, `CarEntity` | the gorm row types and their `ToModel` |
| `Storage` | the two tables, their id sequences and the constraints AutoMigrate declares |
| `PeopleRepository`, `CarRepository` | the gorm repositories |
| `CarInfoClient` | the car-info HTTP client |
| `Response` | `Bad`/`Ok` of the HTTP layer |
| `CarService` | the service |

Every repository operation has a pure specification function. Examples are
`CarRepository.CreateSpec`, which maps the old tables to the new tables and the result,
and `CarService.StoreSpec`. Each class method is proved equal to its specification
function, and the properties the code promises are proved about those functions as
lemmas.

Things outside the process are inputs to the model:

- the reply of the car-info service (a `Reply`);
- the error the database driver reports for a statement (`Option<string>` "faults").

`Store` collects its cars into a preallocated array in a `for` loop, as the Go code does.
The loop is proved against `Loop`, a recursive function over the batch. `Loop`'s
properties are proved once, for any iteration that only appends rows, keeps the table
invariant and builds its car from its own lookup. They are then instantiated for
`Store`'s iterations.

Behaviour that follows the code where a plain reading of the design would differ:

- **Duplicate registration number.** There is no conflict error kind. A duplicate is
  refused by the unique constraint on `reg_num` and surfaces as a Database error (500).
- **Delete.** `RowsAffected == 0` is checked before the statement's error. So a delete
  whose statement fails (and affects no row) reports NotFound, not a Database error.
- **Owner surname filter.** It compares with `=` against the literal `"%" + surname + "%"`,
  not with `LIKE`. It only matches surnames that literally start and end with `%`.
- **Both owner filters.** Giving both adds two identical `JOIN peoples` clauses. The
  database refuses that as an ambiguous table, and the list fails with a Database error.
- **Builder calls whose result is dropped.** The registration-number filter, the two
  owner joins and `Preload` are called without reassigning the builder. gorm builders
  share their statement, so these still take effect and are modelled as applied.
- **Re-read failure after insert.** When the re-read after an INSERT fails, the error is
  returned but the inserted row stays (there is no transaction).
- **Refused insert.** A car row refused by the unique or the foreign-key constraint has
  already drawn its id from the `cars` sequence, so the next car gets a larger id.

## Model

| member | source | states |
|---|---|---|
| Errors.Tagged | internal/repository/gorm/car/repository.go:120 | an error built as "sentinel: detail" matches `errors.Is` for exactly its sentinel, holds no validator error, and its text is the sentinel's text, ": ", then the detail |
| Errors.Caused | internal/repository/gorm/car/repository.go:58 | an error built as "%w: %w" from a sentinel and a driver error matches exactly that sentinel, and its text is the sentinel's text, ": ", then the cause's text |
| Errors.KindOf | internal/app_error/app_error.go:5-9 | every error the repositories and the client return matches exactly one sentinel, the one at its head |
| Errors.Text | internal/handler/http/dto/response/response.go:25 | the text `Error()` gives: a sentinel's own text, and for a wrapped error the inner text, ": ", then the detail or cause |
| Errors.Is | internal/handler/http/dto/response/response.go:23 | `errors.Is` finds a sentinel anywhere in the wrap tree |
| Errors.AsInvalid | internal/handler/http/dto/response/response.go:26-28 | `errors.As` finds the first validator error in a depth-first walk of the wrap tree |
| Errors.FormatInt | internal/repository/gorm/car/repository.go:120 | `%d`: the decimal text of an integer, with '-' in front of a negative one |
| Errors.FormatIntShape | internal/repository/api/car_info/repository.go:54 | the text of `%d` is one or more decimal digits, with a leading '-' exactly when the number is negative |
| Errors.DigitsAreDigits | internal/repository/gorm/car/repository.go:164 | the unsigned decimal text is non-empty and made only of the digits 0-9 |
| PeopleEntity.ToModel | internal/repository/gorm/people/people.go:12-24 | id and names copied; the patronymic is absent exactly when the column is empty, and never `Some("")` |
| CarEntity.ToModel | internal/repository/gorm/car/car.go:18-37 | id, registration number and owner id copied; mark and model go to the car info; year 0 becomes absent; an owner with id 0 (not loaded) becomes no owner, any other is mapped by the people mapping |
| Storage.FindCar | internal/repository/gorm/car/repository.go:116 | a primary-key lookup returns a position holding that id, or none exactly when no row has it |
| Storage.FindPeople | internal/repository/gorm/car/car.go:14 | the owner lookup behind the foreign key and the preload returns a row of `peoples` with that id, or none exactly when no row has it |
| Storage.Preload | internal/repository/gorm/car/repository.go:51 | preloading changes only the owner, which becomes the people row with the car's owner id |
| Storage.FindPeopleExact | internal/repository/gorm/people/people.go:6 | in an id-ordered table the lookup of a row's id finds that row |
| Storage.FindPeopleAppend | internal/repository/gorm/people/repository.go:38 | inserting a people row never hides an existing owner from the lookup |
| Storage.Db.constructor | internal/database/database.go:32-43 | a freshly migrated database has empty tables, both id sequences start at 1, and the table invariant holds |
| Storage.Valid | internal/repository/gorm/car/car.go:9-15 | the table invariant the schema keeps: ids positive, increasing and below their sequence's next value, registration numbers unique (`unique;not null`), and every car's owner id present in `peoples` (`foreignKey:OwnerID`) |
| Storage.RegNumTaken | internal/repository/gorm/car/car.go:10 | the unique constraint's test: some row other than the one being written already holds the registration number |
| Storage.FindPeopleExtend | internal/repository/gorm/car/repository.go:51 | rows appended to `peoples` never change the owner a car's preload finds |
| PeopleRepository.CreateInserts | internal/repository/gorm/people/repository.go:31-43 | a successful create appends one row with a fresh id greater than every existing id, carrying the given name, surname and patronymic (absent stored as ""), uses up that id, leaves `cars` alone, and returns that row with the patronymic normalised |
| PeopleRepository.CreateSpec | internal/repository/gorm/people/repository.go:22-48 | the create leaves `cars` alone; it succeeds exactly when the INSERT reports no error; a failure changes nothing; a success appends one row and returns the next people id |
| PeopleRepository.CreateFailure | internal/repository/gorm/people/repository.go:38-42 | a failed INSERT changes nothing and returns a Database error, never NotFound |
| PeopleRepository.CreateNoDedup | internal/repository/gorm/people/repository.go:22-48 | creating the same person twice makes two rows with different ids |
| PeopleRepository.CreatePreservesValid | internal/repository/gorm/people/repository.go:38 | create keeps the table invariant |
| PeopleRepository.Repository.Create | internal/repository/gorm/people/repository.go:22-48 | the method's new tables and result are those of the create specification |
| PeopleRepository.Normalized | internal/repository/gorm/people/people.go:12-24 | how a patronymic reads back after being stored: `Some("")` and absent both come back absent, any other value unchanged |
| PeopleRepository.Repository.constructor | internal/repository/gorm/people/repository.go:18-20 | the repository holds the database handle it was given |
| CarRepository.LikeAnything | internal/repository/gorm/car/repository.go:37 | the pattern "%" matches every text |
| CarRepository.Like | internal/repository/gorm/car/repository.go:37-46 | PostgreSQL `LIKE` with `%` for any run of characters and `_` for one character |
| CarRepository.LikePrefix | internal/repository/gorm/car/repository.go:37 | for a filter without wildcards, `LIKE v%` holds exactly when v is a prefix |
| CarRepository.LikeIsContains | internal/repository/gorm/car/repository.go:37-40 | for a filter without wildcards, the bound pattern `%v%` matches exactly the texts that contain v |
| CarRepository.PatternStartsWithWildcard | internal/repository/gorm/car/repository.go:49 | the value the surname filter compares against always starts with a literal "%" |
| CarRepository.Reverse | internal/repository/gorm/car/repository.go:52 | `ORDER BY id desc` over id-ascending rows: the same rows, as many, back to front |
| CarRepository.ReverseAt | internal/repository/gorm/car/repository.go:52 | descending order reads the ascending rows from the end |
| CarRepository.Window | internal/repository/gorm/car/repository.go:53 | LIMIT/OFFSET returns at most `limit` rows |
| CarRepository.WindowAt | internal/repository/gorm/car/repository.go:53 | row k of the window is row offset + k of the ordered rows |
| CarRepository.WindowSize | internal/repository/gorm/car/repository.go:53 | the window holds `min(limit, rows - offset)` rows, or none past the end |
| CarRepository.Offset | internal/repository/gorm/car/repository.go:53 | the OFFSET of page `page`: (page - 1) * count rows are skipped, never a negative number for a resolved query |
| CarRepository.Page | internal/repository/gorm/car/repository.go:52-53 | the rows of a listing: the matching rows in the requested id order, cut by LIMIT count and OFFSET (page - 1) * count |
| CarRepository.AllHoldAppend | internal/repository/gorm/car/repository.go:32-50 | the WHERE conditions of a chain are AND-ed: a list of conditions holds exactly when each part holds |
| CarRepository.AllHoldOne | internal/repository/gorm/car/repository.go:33-50 | a single condition holds exactly when its WHERE clause does |
| CarRepository.ClausesMatch | internal/repository/gorm/car/repository.go:32-50 | the assembled statement selects a row exactly when it satisfies every present filter of the query |
| CarRepository.SelectIsMatching | internal/repository/gorm/car/repository.go:32-55 | running the statement's WHERE over the table gives exactly the matching rows, in table order |
| CarRepository.MatchingSound | internal/repository/gorm/car/repository.go:32-50 | every selected row is a table row that satisfies the filters |
| CarRepository.MatchingComplete | internal/repository/gorm/car/repository.go:32-50 | every table row that satisfies the filters is selected |
| CarRepository.Matches | internal/repository/gorm/car/repository.go:33-50 | a row satisfies the query when each present filter holds: registration number equal, mark and model `LIKE %v%`, year equal, owner's name `LIKE %v%`, owner's surname equal to the literal `%v%` |
| CarRepository.UniqueRegNumIn | internal/repository/gorm/car/car.go:10 | under the unique constraint two rows with the same registration number are the same row |
| CarRepository.MatchingByRegNum | internal/repository/gorm/car/repository.go:33-35 | filtering by the registration number of a stored row, and by nothing else, selects that row alone |
| CarRepository.ListByRegNum | internal/repository/gorm/car/repository.go:23-68 | listing by the registration number of a stored row, and by nothing else, returns that one car with its owner attached |
| CarRepository.Matching | internal/repository/gorm/car/repository.go:32-50 | the selection keeps rows of the table only, so it is never longer than the table |
| CarRepository.Select | internal/repository/gorm/car/repository.go:32-55 | the rows that the WHERE clause and the joins keep are never more than the table's |
| CarRepository.Find | internal/repository/gorm/car/repository.go:51-55 | a driver error is returned as such; two joins of `peoples` are refused; otherwise at most LIMIT rows come back |
| CarRepository.ListSpec | internal/repository/gorm/car/repository.go:23-68 | a driver error is a Database error; a listing holds at most `count` cars |
| CarRepository.ListComplete | internal/repository/gorm/car/repository.go:32-63 | when the first page can hold every match, every matching row is listed with its owner attached |
| CarRepository.ListFault | internal/repository/gorm/car/repository.go:55-59 | a driver error on the SELECT is a Database error whose text is "database error: " and the driver's text |
| CarRepository.MatchingOrdered | internal/repository/gorm/car/repository.go:52 | the selected rows keep the table's ascending id order |
| CarRepository.MatchingEmpty | internal/repository/gorm/car/repository.go:32-50 | when no row satisfies the filters nothing is selected |
| CarRepository.ReverseIn | internal/repository/gorm/car/repository.go:52 | the descending listing holds only rows of the ascending one |
| CarRepository.ReverseDescending | internal/repository/gorm/car/repository.go:52 | reversing id-ascending rows gives id-descending rows |
| CarRepository.Preloaded | internal/repository/gorm/car/repository.go:51 | each fetched row gets its owner attached, position by position |
| CarRepository.ToModels | internal/repository/gorm/car/repository.go:60-63 | the models are the fetched rows converted one by one, same length and order |
| CarRepository.Models | internal/repository/gorm/car/repository.go:51-63 | each model is the row at the same position, with its owner preloaded and converted |
| CarRepository.ModelsAreToModels | internal/repository/gorm/car/repository.go:51-63 | preloading then converting is the conversion of the preloaded rows |
| CarRepository.PageRows | internal/repository/gorm/car/repository.go:53-63 | every car of the page is built from a matching row of the table |
| CarRepository.RowFiltersHold | internal/repository/gorm/car/repository.go:33-51 | a model built from a matching row has its owner, the equal registration number and year, mark, model and owner name containing the filter (filters without wildcards), and the owner surname equal to "%" + filter + "%" |
| CarRepository.ListFiltersHold | internal/repository/gorm/car/repository.go:23-68 | every car listed comes from a table row, carries its owner, and satisfies each present filter as the row predicate states |
| CarRepository.ListPageIsSlice | internal/repository/gorm/car/repository.go:52-63 | the page is the slice of the ordered matching rows starting at (page - 1) * count, holding min(count, remaining) cars |
| CarRepository.WindowModels | internal/repository/gorm/car/repository.go:53-63 | the models of a window are at most `limit`, each built from the row offset + k |
| CarRepository.ListOrderedById | internal/repository/gorm/car/repository.go:52 | listed cars are in ascending id order for "asc" and descending id order for "desc" |
| CarRepository.WindowModelsAscending | internal/repository/gorm/car/repository.go:52-53 | a page cut from id-ascending rows is id-ascending |
| CarRepository.WindowModelsDescending | internal/repository/gorm/car/repository.go:52-53 | a page cut from id-descending rows is id-descending |
| CarRepository.BothOwnerFiltersFail | internal/repository/gorm/car/repository.go:45-50 | with both owner filters the duplicate JOIN makes the list fail with a Database error |
| CarRepository.SurnameFilterIsLiteral | internal/repository/gorm/car/repository.go:48-50 | when no owner surname starts with "%", a surname filter lists nothing |
| CarRepository.FindIsList | internal/repository/gorm/car/repository.go:52-67 | a statement built for the query has a valid order and a non-negative page; a driver error becomes a Database error wrapping it, and rows become the converted models |
| CarRepository.OrderText | internal/repository/gorm/car/repository.go:52 | the ORDER BY text "id " + order names ascending exactly for "asc" and descending exactly for "desc" |
| CarRepository.ConvertAll | internal/repository/gorm/car/repository.go:60-63 | filling a preallocated slice row by row yields the conversion of every fetched row, in order |
| CarRepository.Repository.Build | internal/repository/gorm/car/repository.go:32-53 | the statement holds one condition per present filter in builder order, one JOIN per owner filter, ORDER BY "id " + order, LIMIT count and OFFSET (page - 1) * count |
| CarRepository.Repository.List | internal/repository/gorm/car/repository.go:23-68 | the method's answer is the list specification on the current tables, error included |
| CarRepository.CreateInserts | internal/repository/gorm/car/repository.go:79-103 | a create that passes the constraints appends one row with a fresh id and the given fields (absent year stored as 0); the re-read finds it; the result carries the owner, and its year is present exactly when a non-zero year was given |
| CarRepository.StoredYear | internal/repository/gorm/car/repository.go:85-87 | the year column written for an optional year: the year when given, 0 when absent |
| CarRepository.CreateDuplicate | internal/repository/gorm/car/repository.go:88-92 | a registration number already in the table is refused as a Database error; the tables are unchanged and only the drawn id is used up |
| CarRepository.CreateUnknownOwner | internal/repository/gorm/car/repository.go:88-92 | an owner id no people row has is refused by the foreign key as a Database error; the tables are unchanged and only the drawn id is used up |
| CarRepository.CreateInsertFault | internal/repository/gorm/car/repository.go:88-92 | a driver error on the INSERT is a Database error carrying its text, and nothing changes |
| CarRepository.CreateSpec | internal/repository/gorm/car/repository.go:70-104 | a create leaves `peoples` alone and appends at most one car row; on success it appends exactly one, the row of the returned car; every failure is a Database error |
| CarRepository.CreateReloadFailureKeepsRow | internal/repository/gorm/car/repository.go:94-98 | when only the re-read fails, a Database error is returned and the new row stays |
| CarRepository.CreatePreservesValid | internal/repository/gorm/car/repository.go:88 | create keeps the table invariant (ordered ids, unique registration numbers, every owner present) |
| CarRepository.AppendKeepsValid | internal/repository/gorm/car/car.go:8-16 | a row with the next id, a new registration number and an existing owner can be appended without breaking the invariant |
| CarRepository.Repository.Create | internal/repository/gorm/car/repository.go:70-104 | the method's new tables and result are those of the create specification |
| CarRepository.UpdateMissing | internal/repository/gorm/car/repository.go:116-121 | updating an id no row has reports NotFound and changes nothing |
| CarRepository.UpdateFault | internal/repository/gorm/car/repository.go:116-144 | a driver error on the fetch or on the save is a Database error carrying its text, and nothing is written |
| CarRepository.UpdateRegNumClash | internal/repository/gorm/car/repository.go:128-144 | a new registration number that another row holds is refused on save as a Database error, and nothing is written |
| CarRepository.Edited | internal/repository/gorm/car/repository.go:128-139 | overwriting the present fields keeps the id, the owner id and the loaded owner; with no field present the entity is unchanged |
| CarRepository.UpdateSpec | internal/repository/gorm/car/repository.go:106-150 | an update never adds or removes rows and leaves `peoples` and both id sequences alone; a failure writes nothing; a success returns the car with the requested id |
| CarRepository.UpdateOnlyPresentFields | internal/repository/gorm/car/repository.go:128-145 | a successful update rewrites only that row, and in it only the fields present; id, owner id, other rows, `peoples` and both id sequences keep their values; the result is the row with its owner |
| CarRepository.UpdateNothingIsIdentity | internal/repository/gorm/car/repository.go:128-140 | an update with no field present leaves the tables as they were and returns the stored car |
| CarRepository.UpdatePreservesValid | internal/repository/gorm/car/repository.go:140 | update keeps the table invariant |
| CarRepository.ReplaceKeepsValid | internal/repository/gorm/car/car.go:8-16 | overwriting a row with one that keeps id and owner and holds a free registration number keeps the invariant |
| CarRepository.Repository.Update | internal/repository/gorm/car/repository.go:106-150 | the method's new tables and result are those of the update specification |
| CarRepository.DeleteVerdict | internal/repository/gorm/car/repository.go:162-173 | zero rows affected is NotFound even when the statement failed; an error with rows affected is a Database error; otherwise no error |
| CarRepository.DeleteRemovesRow | internal/repository/gorm/car/repository.go:161-173 | deleting an existing id removes that row and no other, and no row keeps the id; `peoples` and both id sequences are unchanged |
| CarRepository.DeleteNotFound | internal/repository/gorm/car/repository.go:161-165 | deleting a missing id, or a delete whose statement fails, reports NotFound and changes nothing |
| CarRepository.DeleteSpec | internal/repository/gorm/car/repository.go:152-174 | a delete leaves `peoples` and both id sequences alone; every error it reports is NotFound and comes with no change; without error exactly one row is gone |
| CarRepository.DeletePreservesValid | internal/repository/gorm/car/repository.go:161 | delete keeps the table invariant |
| CarRepository.RemoveAtKeepsValid | internal/repository/gorm/car/repository.go:161 | removing one car row keeps the invariant |
| CarRepository.Repository.Delete | internal/repository/gorm/car/repository.go:152-174 | the method's new tables and error are those of the delete specification |
| CarRepository.Repository.constructor | internal/repository/gorm/car/repository.go:19-21 | the repository holds the database handle it was given |
| CarInfoClient.TrimRight | internal/repository/api/car_info/repository.go:22 | the trimmed text is a prefix of the input, does not end in the cut character, and only that character was cut |
| CarInfoClient.TrimRightIdempotent | internal/repository/api/car_info/repository.go:22 | trimming twice trims nothing more |
| CarInfoClient.TrimRightIgnoresTrailing | internal/repository/api/car_info/repository.go:22 | URLs that differ only in trailing slashes give the same client |
| CarInfoClient.New | internal/repository/api/car_info/repository.go:21-23 | the stored base URL is the given one without trailing slashes |
| CarInfoClient.NewIdempotent | internal/repository/api/car_info/repository.go:21-23 | building a client from a client's URL gives the same client |
| CarInfoClient.RequestUrl | internal/repository/api/car_info/repository.go:34 | the GET URL: the base URL, "/info?regNum=", then the registration number as given, unescaped |
| CarInfoClient.RequestUrlRoundTrip | internal/repository/api/car_info/repository.go:34 | the request URL is base, "/info?regNum=" and the registration number in that order, and the registration number reads back unchanged |
| CarInfoClient.RequestUrlInjective | internal/repository/api/car_info/repository.go:34 | different registration numbers never share a request URL |
| CarInfoClient.GetCarInfo | internal/repository/api/car_info/repository.go:25-72 | every error returned is a sentinel-headed (classified) error |
| CarInfoClient.GetCarInfoSucceeds | internal/repository/api/car_info/repository.go:49-71 | success exactly for a 200 answer whose body reads and decodes, and the result is the decoded info |
| CarInfoClient.NotFoundStatus | internal/repository/api/car_info/repository.go:51-53 | a 404 is a NotFound error whose text names the registration number |
| CarInfoClient.OtherStatus | internal/repository/api/car_info/repository.go:49-55 | any other non-200 status is an HTTPRequestFailed error whose text carries the status in decimal |
| CarInfoClient.ExchangeFailures | internal/repository/api/car_info/repository.go:34-67 | request-building, transport, read and decode failures are HTTPRequestFailed errors carrying the cause's text |
| CarInfoClient.NotFoundOnlyFor404 | internal/repository/api/car_info/repository.go:49-55 | a failure is NotFound exactly for a 404 answer, and HTTPRequestFailed otherwise |
| Response.Bad | internal/handler/http/dto/response/response.go:18-44 | status 404 exactly when the chain holds NotFound; 400 exactly for validator errors or a bare EOF otherwise; 500 for everything else; the message is the error's text for 404 and 500, "'field': must be tag" of the first failed field for validator errors, and "body is empty" for the bare EOF |
| Response.Ok | internal/handler/http/dto/response/response.go:46-49 | status 200 with the data unchanged |
| Response.NotFoundWins | internal/handler/http/dto/response/response.go:22-25 | NotFound anywhere in a joined chain wins over everything, validator errors included, with the error's text as message |
| Response.ValidationMessage | internal/handler/http/dto/response/response.go:26-33 | validator errors answer 400 with "'field': must be tag" for the first failed field |
| Response.EofOnlyUnwrapped | internal/handler/http/dto/response/response.go:34-39 | only the bare EOF is "body is empty"; a wrapped EOF is a 500 with its text |
| Response.ClassifiedAnswer | internal/handler/http/dto/response/response.go:18-44 | a repository or client error answers 404 for NotFound and 500 for Database and HTTPRequestFailed, with the error's text |
| CarService.Resolve | internal/service/car/service.go:39-61 | filters copied; page and count taken when given and positive, else 1 and 10; order "asc" exactly when "asc" was given, else "desc"; the query is always a valid list query |
| CarService.ResolveIdempotent | internal/service/car/service.go:47-61 | resolving a resolved query again changes nothing, and its page offset is never negative |
| CarService.Service.Index | internal/service/car/service.go:30-71 | the answer is the list specification of the resolved query on the current tables, error included |
| CarService.Loop | internal/service/car/service.go:83-113 | after n rounds at most n lookups; without failure one car per round; after a failure one car fewer than lookups |
| CarService.Urls | internal/service/car/service.go:84-85 | one request URL per registration number |
| CarService.Onboard | internal/service/car/service.go:84-112 | a car created by one iteration carries the registration number it was given |
| CarService.StoreSpec | internal/service/car/service.go:73-118 | at most one lookup per registration number; success returns one car per number after one lookup each; a failure comes after at least one lookup |
| CarService.RunNext | internal/service/car/service.go:83-112 | a batch that has not failed onboards the next registration number with the current tables and requests its URL |
| CarService.StoreStep | internal/service/car/service.go:84-112 | a round after unfailed rounds moves the batch on by its own outcome, and a failed round ends the batch |
| CarService.OnboardSucceeds | internal/service/car/service.go:84-112 | a successful iteration creates a fresh owner whose id the new car carries, builds the car from the lookup, only appends rows, and appends exactly one car row, the row of the car it returns |
| CarService.OnboardEffect | internal/service/car/service.go:84-111 | an iteration keeps the table invariant, only appends rows, and fails only with a classified error |
| CarService.OwnerStep | internal/service/car/service.go:90-99 | creating the owner keeps the invariant, only appends, and fails with a classified error |
| CarService.CarStep | internal/service/car/service.go:100-111 | creating the car keeps the invariant, only appends, and fails with a classified error |
| CarService.ExtendsTransitive | internal/service/car/service.go:83-113 | rows appended over two stretches of the batch are appended over both |
| CarService.LoopAbsorbing | internal/service/car/service.go:86-89 | after the first error later rounds change nothing: the batch returns |
| CarService.LoopRequests | internal/service/car/service.go:83-85 | the URLs requested are the first ones of the batch, in order |
| CarService.LoopFirstFailure | internal/service/car/service.go:86-111 | the round that failed is the last one that made a request, the rounds before it succeeded, and the loop ends with that round's tables and error |
| CarService.LoopGrows | internal/service/car/service.go:83-113 | rows written by earlier rounds stay, whatever happens later |
| CarService.LoopKeeps | internal/service/car/service.go:83-113 | the loop keeps the table invariant, and the error that stops it is classified |
| CarService.LoopBuilt | internal/service/car/service.go:83-112 | car i is built from lookup i, with owner ids fresh and strictly increasing |
| CarService.LoopAppends | internal/service/car/service.go:83-112 | until the loop fails, the cars it made are the car rows appended to the table, one per car, in the same order |
| CarService.IterationsAppend | internal/service/car/service.go:100-112 | a successful iteration of the batch appends exactly one car row, the row of the car it returns |
| CarService.BuiltAppend | internal/service/car/service.go:112 | a car from the next lookup with the next owner id extends the built prefix |
| CarService.IterationsTotal | internal/service/car/service.go:83-113 | every iteration of a batch whose lookups name an owner can run |
| CarService.IterationsGrow | internal/service/car/service.go:83-113 | the batch's iterations only append rows |
| CarService.IterationsKeep | internal/service/car/service.go:83-113 | the batch's iterations keep the invariant and fail with classified errors |
| CarService.IterationsBuild | internal/service/car/service.go:100-112 | a successful iteration i builds its car from lookup i, with the next owner id |
| CarService.StoreSucceeds | internal/service/car/service.go:73-118 | on success there is one car per registration number, in input order, each built from its own lookup with an owner of its own created by this call (ids from the people sequence's position before the call on); every number was looked up once, in order; the tables only grew, and each returned car is the car row appended for it, in order, read back with its owner: same id, registration number, mark, model, year and owner id, and the owner row it names; the tables stay consistent |
| CarService.StoreThenIndex | internal/service/car/service.go:30-118 | after a successful Store, listing by the registration number of any stored car, with nothing else given, returns exactly that returned car, field for field, owner included |
| CarService.StoreFails | internal/service/car/service.go:83-111 | on failure the lookups stop at the failing number k; the error and the final tables are those of iteration k run on the tables the earlier iterations left; the error is classified; the rows of earlier iterations stay; the tables stay consistent |
| CarService.StoreKeepsValid | internal/service/car/service.go:73-118 | Store leaves the tables consistent whether it succeeds or not |
| CarService.Service.StoreOne | internal/service/car/service.go:84-112 | one pass of the loop body does exactly what the iteration specification does |
| CarService.Service.Store | internal/service/car/service.go:73-118 | the tables, the result and the URLs requested are those of the store specification, and the invariant is kept |
| CarService.UpdateQuery | internal/service/car/service.go:129-135 | the update query carries the command's id and fields unchanged |
| CarService.Service.Update | internal/service/car/service.go:120-145 | the tables and the answer are those of the repository's update specification for the command's query; the invariant is kept |
| CarService.DeleteQuery | internal/service/car/service.go:156 | the delete query carries the command's id |
| CarService.Service.Delete | internal/service/car/service.go:147-166 | the tables and the error are those of the repository's delete specification for the command's id; the invariant is kept |
| CarService.Service.constructor | internal/service/car/service.go:18-28 | the service holds the three repositories it was given |

## Left out

- SQL text and gorm itself. Statements are modelled by their effect on two in-memory tables kept in id order. `LIKE` is modelled with its two wildcards `%` and `_`, and escapes are not.
- Integer widths. Ids are unbounded naturals rather than `uint`, and year, page and count are unbounded integers rather than Go `int`, so overflow of `(page - 1) * count` is not modelled.
- The texts of driver errors. The unique- and foreign-key violations carry placeholder texts, and every other driver error is an input string.
- The HTTP exchange and JSON decoding. `GetCarInfo` receives the outcome of the exchange as a `Reply`. `Response.Bad`/`Ok` give the status and body rather than writing them to a connection.
- The HTTP handlers and request validation, routing, configuration, logging, the `main` program and the mock car-info client. None of them is part of this model.
- The nil owner in a successful car-info answer. The service dereferences `carInfo.Owner` unchecked, so the model requires every successful lookup to name an owner (`CarService.Oracle`, `CarInfoClient.OwnerPresent`) instead of modelling the panic.
- Concurrency. Requests run one at a time against the tables, and there are no transactions in the source.
- A driver error on an INSERT is taken to fail before the row reaches the table, so it draws no id from the sequence. A real connection failure may or may not have used one up.
- The gorm `poople` package, an unused duplicate of the people row type.
