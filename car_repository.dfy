/** The car repository (internal/repository/gorm/car/repository.go) over the
    in-memory tables of module Storage. Each operation has a specification
    function giving its effect and result; the methods of class `Repository`
    follow the source step by step and are proved equal to them. */
module CarRepository {
  import opened Wrappers
  import opened Errors
  import Model
  import Query
  import PeopleEntity
  import CarEntity
  import Storage

  // ---------------------------------------------------------------------------
  // SQL pattern matching

  /** PostgreSQL `t LIKE p` with its two wildcards: `%` matches any run of
      characters, `_` any one character. */
  predicate Like(t: string, p: string)
    decreases |t| + |p|
  {
    if p == [] then t == []
    else if p[0] == '%' then Like(t, p[1..]) || (t != [] && Like(t[1..], p))
    else t != [] && (p[0] == '_' || p[0] == t[0]) && Like(t[1..], p[1..])
  }

  /** `v` occurs in `t` at some position. */
  predicate Contains(t: string, v: string)
    decreases |t|
  {
    v <= t || (t != [] && Contains(t[1..], v))
  }

  predicate NoWildcards(v: string) {
    forall i :: 0 <= i < |v| ==> v[i] != '%' && v[i] != '_'
  }

  /** The LIKE pattern the builder binds for a "contains" filter. */
  function Pattern(v: string): string {
    "%" + v + "%"
  }

  lemma {:induction false} LikeAnything(t: string)
    ensures Like(t, "%")
  {
    assert "%"[1..] == [];
    if t != [] {
      LikeAnything(t[1..]);
    }
  }

  lemma {:induction false} LikePrefix(t: string, v: string)
    requires NoWildcards(v)
    ensures Like(t, v + "%") <==> v <= t
  {
    if v == [] {
      assert v + "%" == "%";
      LikeAnything(t);
    } else {
      var p := v + "%";
      assert p[0] == v[0] && p[1..] == v[1..] + "%";
      if t != [] {
        LikePrefix(t[1..], v[1..]);
        assert v <= t <==> v[0] == t[0] && v[1..] <= t[1..];
      }
    }
  }

  /** The pattern "%" + v + "%" that the builder binds is a substring test,
      provided the filter itself holds no wildcard. */
  lemma {:induction false} LikeIsContains(t: string, v: string)
    requires NoWildcards(v)
    ensures Like(t, Pattern(v)) <==> Contains(t, v)
  {
    var p := Pattern(v);
    assert p[0] == '%' && p[1..] == v + "%";
    LikePrefix(t, v);
    if t != [] {
      LikeIsContains(t[1..], v);
    }
  }

  // ---------------------------------------------------------------------------
  // Sequences in id order

  function Reverse<T>(s: seq<T>): (r: seq<T>)
    ensures |r| == |s|
  {
    if s == [] then [] else Reverse(s[1..]) + [s[0]]
  }

  lemma {:induction false} ReverseAt<T>(s: seq<T>, k: nat)
    requires k < |s|
    ensures Reverse(s)[k] == s[|s| - 1 - k]
  {
    if k < |s| - 1 {
      ReverseAt(s[1..], k);
    }
  }

  /** `LIMIT limit OFFSET offset` over an ordered result. */
  function Window<T>(s: seq<T>, offset: nat, limit: nat): (r: seq<T>)
    ensures |r| <= limit
  {
    var lo := if offset < |s| then offset else |s|;
    var hi := if offset + limit < |s| then offset + limit else |s|;
    s[lo..hi]
  }

  // ---------------------------------------------------------------------------
  // List: the statement the builder assembles, and how the database runs it

  /** One WHERE condition the builder adds. */
  datatype Clause =
    | RegNumIs(regNum: string)        // reg_num = ?
    | MarkLike(pattern: string)       // mark LIKE ?
    | ModelLike(pattern: string)      // model LIKE ?
    | YearIs(year: int)               // year = ?
    | OwnerNameLike(pattern: string)  // peoples.name LIKE ?
    | OwnerSurnameIs(surname: string) // peoples.surname = ?

  /** The SELECT the builder assembles: AND-ed conditions, the number of
      `JOIN peoples` clauses, the ORDER BY text, LIMIT and OFFSET. */
  datatype Statement = Statement(where: seq<Clause>, joins: nat, order: string, limit: int, offset: int)

  /** What the database answers to a SELECT: rows, or an error. */
  datatype Rows = Rows(rows: seq<CarEntity.Car>) | DbError(cause: string)

  const DuplicateJoin: string := "table name \"peoples\" specified more than once"
  const UniqueViolation: string := "duplicate key value violates unique constraint on cars.reg_num"
  const ForeignKeyViolation: string := "insert on table cars violates foreign key constraint on owner_id"

  predicate Holds(s: Storage.State, c: CarEntity.Car, cl: Clause) {
    var owner := Storage.FindPeople(s.peoples, c.ownerId);
    match cl
    case RegNumIs(v) => c.regNum == v
    case MarkLike(p) => Like(c.mark, p)
    case ModelLike(p) => Like(c.model, p)
    case YearIs(y) => c.year == y
    case OwnerNameLike(p) => owner.Some? && Like(owner.value.name, p)
    case OwnerSurnameIs(v) => owner.Some? && owner.value.surname == v
  }

  /** Every condition of the list holds of the row (the conditions are AND-ed). */
  predicate AllHold(s: Storage.State, c: CarEntity.Car, where: seq<Clause>)
    decreases |where|
  {
    where == [] || (Holds(s, c, where[0]) && AllHold(s, c, where[1..]))
  }

  lemma {:induction false} AllHoldAppend(s: Storage.State, c: CarEntity.Car, a: seq<Clause>, b: seq<Clause>)
    ensures AllHold(s, c, a + b) <==> AllHold(s, c, a) && AllHold(s, c, b)
  {
    if a != [] {
      assert (a + b)[1..] == a[1..] + b;
      AllHoldAppend(s, c, a[1..], b);
    } else {
      assert a + b == b;
    }
  }

  /** A row is selected when the inner join finds its owner (if there is a
      join) and every condition holds. */
  predicate Selected(s: Storage.State, c: CarEntity.Car, st: Statement) {
    (st.joins > 0 ==> Storage.FindPeople(s.peoples, c.ownerId).Some?) && AllHold(s, c, st.where)
  }

  /** The rows the WHERE clause and the joins keep, in table order. */
  function Select(s: Storage.State, rows: seq<CarEntity.Car>, st: Statement): (r: seq<CarEntity.Car>)
    ensures |r| <= |rows|
  {
    if rows == [] then []
    else (if Selected(s, rows[0], st) then [rows[0]] else []) + Select(s, rows[1..], st)
  }

  function Preloaded(s: Storage.State, rows: seq<CarEntity.Car>): (r: seq<CarEntity.Car>)
    ensures |r| == |rows| && forall i :: 0 <= i < |rows| ==> r[i] == Storage.Preload(s, rows[i])
  {
    seq(|rows|, i requires 0 <= i < |rows| => Storage.Preload(s, rows[i]))
  }

  /** `builder.Find(&entities)`: a driver failure, the refusal of a query
      joining `peoples` twice, or the selected rows ordered by id, windowed and
      with owners preloaded. */
  function Find(s: Storage.State, st: Statement, fault: Option<string>): (r: Rows)
    requires st.order == "id asc" || st.order == "id desc"
    requires st.offset >= 0 && st.limit >= 0
    ensures fault.Some? ==> r == DbError(fault.value)
    ensures st.joins > 1 ==> r.DbError?
    ensures r.Rows? ==> |r.rows| <= st.limit
  {
    if fault.Some? then DbError(fault.value)
    else if st.joins > 1 then DbError(DuplicateJoin)
    else
      var hits := Select(s, s.cars, st);
      var ordered := if st.order == "id asc" then hits else Reverse(hits);
      Rows(Preloaded(s, Window(ordered, st.offset, st.limit)))
  }

  // ---------------------------------------------------------------------------
  // List: what it means for a query

  /** A resolved query as the service hands it over. */
  predicate ListQuery(q: Query.CarList) {
    q.page >= 1 && q.count >= 1 && (q.order == "asc" || q.order == "desc")
  }

  /** A car row satisfies every filter of the query that is present. */
  predicate Matches(s: Storage.State, c: CarEntity.Car, q: Query.CarList) {
    var owner := Storage.FindPeople(s.peoples, c.ownerId);
    (q.regNum.Some? ==> c.regNum == q.regNum.value)
    && (q.mark.Some? ==> Like(c.mark, Pattern(q.mark.value)))
    && (q.model.Some? ==> Like(c.model, Pattern(q.model.value)))
    && (q.year.Some? ==> c.year == q.year.value)
    && (q.ownerName.Some? ==> owner.Some? && Like(owner.value.name, Pattern(q.ownerName.value)))
    && (q.ownerSurname.Some? ==> owner.Some? && owner.value.surname == Pattern(q.ownerSurname.value))
  }

  function Matching(s: Storage.State, rows: seq<CarEntity.Car>, q: Query.CarList): (r: seq<CarEntity.Car>)
    ensures |r| <= |rows|
  {
    if rows == [] then []
    else (if Matches(s, rows[0], q) then [rows[0]] else []) + Matching(s, rows[1..], q)
  }

  function ToModels(rows: seq<CarEntity.Car>): (r: seq<Model.Car>)
    ensures |r| == |rows| && forall i :: 0 <= i < |rows| ==> r[i] == CarEntity.ToModel(rows[i])
  {
    seq(|rows|, i requires 0 <= i < |rows| => CarEntity.ToModel(rows[i]))
  }

  function Models(s: Storage.State, rows: seq<CarEntity.Car>): (r: seq<Model.Car>)
    ensures |r| == |rows| && forall i :: 0 <= i < |rows| ==> r[i] == CarEntity.ToModel(Storage.Preload(s, rows[i]))
  {
    seq(|rows|, i requires 0 <= i < |rows| => CarEntity.ToModel(Storage.Preload(s, rows[i])))
  }

  /** The result of `List`: the matching rows in id order (reversed for
      "desc"), page `page` of size `count`, each with its owner attached. */
  function ListSpec(s: Storage.State, q: Query.CarList, fault: Option<string>): (r: Result<seq<Model.Car>>)
    requires ListQuery(q)
    ensures fault.Some? ==> r.Fail? && Is(r.error, Database)
    ensures r.Ok? ==> |r.value| <= q.count
  {
    if fault.Some? then Fail(Caused(Database, fault.value))
    else if q.ownerName.Some? && q.ownerSurname.Some? then Fail(Caused(Database, DuplicateJoin))
    else Ok(Models(s, Page(s, q)))
  }

  /** The matching rows in the query's order. */
  function Ordered(s: Storage.State, q: Query.CarList): seq<CarEntity.Car> {
    var hits := Matching(s, s.cars, q);
    if q.order == "asc" then hits else Reverse(hits)
  }

  /** How many ordered matching rows come before page `page` (counted from 1)
      when each page holds `count`. */
  function Offset(q: Query.CarList): nat
    requires ListQuery(q)
  {
    (q.page - 1) * q.count
  }

  /** The rows of page `page` (counted from 1) of size `count`. */
  function Page(s: Storage.State, q: Query.CarList): seq<CarEntity.Car>
    requires ListQuery(q)
  {
    Window(Ordered(s, q), Offset(q), q.count)
  }

  /** The conditions the builder adds for a query, in the order it adds them. */
  ghost function Clauses(q: Query.CarList): seq<Clause> {
    RegNumPart(q) + MarkPart(q) + ModelPart(q) + YearPart(q) + NamePart(q) + SurnamePart(q)
  }

  ghost function RegNumPart(q: Query.CarList): seq<Clause> {
    if q.regNum.Some? then [RegNumIs(q.regNum.value)] else []
  }

  ghost function MarkPart(q: Query.CarList): seq<Clause> {
    if q.mark.Some? then [MarkLike(Pattern(q.mark.value))] else []
  }

  ghost function ModelPart(q: Query.CarList): seq<Clause> {
    if q.model.Some? then [ModelLike(Pattern(q.model.value))] else []
  }

  ghost function YearPart(q: Query.CarList): seq<Clause> {
    if q.year.Some? then [YearIs(q.year.value)] else []
  }

  ghost function NamePart(q: Query.CarList): seq<Clause> {
    if q.ownerName.Some? then [OwnerNameLike(Pattern(q.ownerName.value))] else []
  }

  ghost function SurnamePart(q: Query.CarList): seq<Clause> {
    if q.ownerSurname.Some? then [OwnerSurnameIs(Pattern(q.ownerSurname.value))] else []
  }

  ghost function JoinCount(q: Query.CarList): nat {
    (if q.ownerName.Some? then 1 else 0) + (if q.ownerSurname.Some? then 1 else 0)
  }

  /** AND-composition: the assembled statement selects exactly the rows that
      satisfy every present filter. */
  lemma ClausesMatch(s: Storage.State, c: CarEntity.Car, q: Query.CarList, st: Statement)
    requires st.where == Clauses(q) && st.joins == JoinCount(q)
    ensures Selected(s, c, st) <==> Matches(s, c, q)
  {
    var a, b, d, e, f, g := RegNumPart(q), MarkPart(q), ModelPart(q), YearPart(q), NamePart(q), SurnamePart(q);
    AllHoldAppend(s, c, a + b + d + e + f, g);
    AllHoldAppend(s, c, a + b + d + e, f);
    AllHoldAppend(s, c, a + b + d, e);
    AllHoldAppend(s, c, a + b, d);
    AllHoldAppend(s, c, a, b);
    var owner := Storage.FindPeople(s.peoples, c.ownerId);
    assert AllHold(s, c, a) <==> (q.regNum.Some? ==> c.regNum == q.regNum.value) by { AllHoldOne(s, c, a); }
    assert AllHold(s, c, b) <==> (q.mark.Some? ==> Like(c.mark, Pattern(q.mark.value))) by { AllHoldOne(s, c, b); }
    assert AllHold(s, c, d) <==> (q.model.Some? ==> Like(c.model, Pattern(q.model.value))) by { AllHoldOne(s, c, d); }
    assert AllHold(s, c, e) <==> (q.year.Some? ==> c.year == q.year.value) by { AllHoldOne(s, c, e); }
    assert AllHold(s, c, f) <==> (q.ownerName.Some? ==> owner.Some? && Like(owner.value.name, Pattern(q.ownerName.value))) by { AllHoldOne(s, c, f); }
    assert AllHold(s, c, g) <==> (q.ownerSurname.Some? ==> owner.Some? && owner.value.surname == Pattern(q.ownerSurname.value)) by { AllHoldOne(s, c, g); }
  }

  /** A list of at most one condition holds when that condition does. */
  lemma AllHoldOne(s: Storage.State, c: CarEntity.Car, w: seq<Clause>)
    requires |w| <= 1
    ensures AllHold(s, c, w) <==> (|w| == 1 ==> Holds(s, c, w[0]))
  {
    if |w| == 1 {
      assert w[1..] == [];
    }
  }

  lemma {:induction false} SelectIsMatching(s: Storage.State, rows: seq<CarEntity.Car>, q: Query.CarList, st: Statement)
    requires st.where == Clauses(q) && st.joins == JoinCount(q)
    ensures Select(s, rows, st) == Matching(s, rows, q)
  {
    if rows != [] {
      ClausesMatch(s, rows[0], q, st);
      SelectIsMatching(s, rows[1..], q, st);
    }
  }

  lemma {:induction false} MatchingSound(s: Storage.State, rows: seq<CarEntity.Car>, q: Query.CarList)
    ensures forall c :: c in Matching(s, rows, q) ==> c in rows && Matches(s, c, q)
  {
    if rows != [] {
      MatchingSound(s, rows[1..], q);
    }
  }

  /** Every table row that satisfies the filters is selected. */
  lemma {:induction false} MatchingComplete(s: Storage.State, rows: seq<CarEntity.Car>, q: Query.CarList)
    ensures forall c :: c in rows && Matches(s, c, q) ==> c in Matching(s, rows, q)
  {
    if rows != [] {
      MatchingComplete(s, rows[1..], q);
      forall c | c in rows && Matches(s, c, q) ensures c in Matching(s, rows, q) {
        if c != rows[0] {
          assert c in rows[1..];
        }
      }
    }
  }

  lemma {:induction false} MatchingOrdered(s: Storage.State, rows: seq<CarEntity.Car>, q: Query.CarList)
    requires Storage.CarsOrdered(rows)
    ensures Storage.CarsOrdered(Matching(s, rows, q))
  {
    if rows != [] {
      assert Storage.CarsOrdered(rows[1..]);
      MatchingOrdered(s, rows[1..], q);
      MatchingSound(s, rows[1..], q);
      var m := Matching(s, rows, q);
      var tail := Matching(s, rows[1..], q);
      forall c | c in tail ensures rows[0].id < c.id {
        var j :| 0 <= j < |rows[1..]| && rows[1..][j] == c;
        assert rows[j + 1] == c;
      }
      if Matches(s, rows[0], q) {
        assert m == [rows[0]] + tail;
        forall i, j | 0 <= i < j < |m| ensures m[i].id < m[j].id {
          if i == 0 {
            assert m[j] == tail[j - 1] && m[j] in tail;
          } else {
            assert m[i] == tail[i - 1] && m[j] == tail[j - 1];
          }
        }
      } else {
        assert m == tail;
      }
    }
  }

  lemma ReverseIn<T>(s: seq<T>, x: T)
    requires x in Reverse(s)
    ensures x in s
  {
    var j :| 0 <= j < |s| && Reverse(s)[j] == x;
    ReverseAt(s, j);
  }

  lemma ReverseHas<T>(s: seq<T>, x: T)
    requires x in s
    ensures x in Reverse(s)
  {
    var j :| 0 <= j < |s| && s[j] == x;
    ReverseAt(s, |s| - 1 - j);
  }

  /** When the first page is large enough to hold every match, every table
      row that satisfies the filters is listed, with its owner attached. */
  lemma ListComplete(s: Storage.State, q: Query.CarList, c: CarEntity.Car)
    requires ListQuery(q) && (q.ownerName.None? || q.ownerSurname.None?)
    requires q.page == 1 && |Matching(s, s.cars, q)| <= q.count
    requires c in s.cars && Matches(s, c, q)
    ensures ListSpec(s, q, None).Ok? && CarEntity.ToModel(Storage.Preload(s, c)) in ListSpec(s, q, None).value
  {
    var hits := Matching(s, s.cars, q);
    MatchingComplete(s, s.cars, q);
    assert c in hits;
    var ordered := Ordered(s, q);
    assert c in ordered by {
      if q.order != "asc" {
        ReverseHas(hits, c);
      }
    }
    var j :| 0 <= j < |ordered| && ordered[j] == c;
    assert Offset(q) == 0;
    ListPageIsSlice(s, q);
    var r := ListSpec(s, q, None);
    assert |r.value| == |ordered|;
    assert r.value[j] == CarEntity.ToModel(Storage.Preload(s, c));
  }

  /** Registration numbers are unique, so a listing filtered by the number of
      a stored car alone is that one car, with its owner attached. */
  lemma ListByRegNum(s: Storage.State, q: Query.CarList, row: CarEntity.Car)
    requires Storage.Valid(s) && ListQuery(q) && q.page == 1 && row in s.cars
    requires q == Query.CarList(Some(row.regNum), None, None, None, None, None, q.order, q.page, q.count)
    ensures ListSpec(s, q, None) == Ok([CarEntity.ToModel(Storage.Preload(s, row))])
  {
    assert Matching(s, s.cars, q) == [row] by {
      MatchingByRegNum(s, q, row);
    }
    assert Reverse([row]) == [row];
    assert Offset(q) == 0;
    assert Page(s, q) == [row];
    assert Models(s, [row]) == [CarEntity.ToModel(Storage.Preload(s, row))];
  }

  /** The only row with a given registration number is the one stored under it. */
  lemma MatchingByRegNum(s: Storage.State, q: Query.CarList, row: CarEntity.Car)
    requires Storage.CarsOrdered(s.cars) && Storage.UniqueRegNums(s.cars) && row in s.cars
    requires q.regNum == Some(row.regNum)
    requires q.mark.None? && q.model.None? && q.year.None? && q.ownerName.None? && q.ownerSurname.None?
    ensures Matching(s, s.cars, q) == [row]
  {
    var hits := Matching(s, s.cars, q);
    MatchingComplete(s, s.cars, q);
    MatchingSound(s, s.cars, q);
    MatchingOrdered(s, s.cars, q);
    assert row in hits;
    forall k | 0 <= k < |hits| ensures hits[k] == row {
      UniqueRegNumIn(s.cars, hits[k], row);
    }
    assert |hits| > 1 ==> hits[0].id < hits[1].id;
  }

  lemma UniqueRegNumIn(cars: seq<CarEntity.Car>, a: CarEntity.Car, b: CarEntity.Car)
    requires Storage.UniqueRegNums(cars) && a in cars && b in cars && a.regNum == b.regNum
    ensures a == b
  {
    var i :| 0 <= i < |cars| && cars[i] == a;
    var j :| 0 <= j < |cars| && cars[j] == b;
  }

  /** A driver error on the SELECT is a Database error carrying its text. */
  lemma ListFault(s: Storage.State, q: Query.CarList, cause: string)
    requires ListQuery(q)
    ensures var r := ListSpec(s, q, Some(cause));
      r.Fail? && Is(r.error, Database) && !Is(r.error, NotFound)
      && Text(r.error) == KindText(Database) + ": " + cause
  {
  }

  /** Every row of the page is a matching row of the table. */
  lemma PageRows(s: Storage.State, q: Query.CarList, k: nat)
    requires ListQuery(q) && ListSpec(s, q, None).Ok? && k < |ListSpec(s, q, None).value|
    ensures exists row :: row in Matching(s, s.cars, q) && ListSpec(s, q, None).value[k] == CarEntity.ToModel(Storage.Preload(s, row))
  {
    var hits := Matching(s, s.cars, q);
    var page := Page(s, q);
    assert ListSpec(s, q, None) == Ok(Models(s, page));
    WindowAt(Ordered(s, q), Offset(q), q.count, k);
    var row := page[k];
    assert row in Ordered(s, q);
    if q.order != "asc" {
      ReverseIn(hits, row);
    }
    assert ListSpec(s, q, None).value[k] == CarEntity.ToModel(Storage.Preload(s, row));
  }

  lemma WindowAt<T>(xs: seq<T>, offset: nat, limit: nat, k: nat)
    requires k < |Window(xs, offset, limit)|
    ensures offset + k < |xs| && Window(xs, offset, limit)[k] == xs[offset + k]
  {
  }

  lemma WindowSize<T>(xs: seq<T>, offset: nat, limit: nat)
    ensures |Window(xs, offset, limit)| ==
      if offset >= |xs| then 0 else if offset + limit <= |xs| then limit else |xs| - offset
  {
  }

  lemma ReverseDescending(xs: seq<CarEntity.Car>)
    requires Storage.CarsOrdered(xs)
    ensures forall i, j :: 0 <= i < j < |xs| ==> Reverse(xs)[i].id > Reverse(xs)[j].id
  {
    forall i, j | 0 <= i < j < |xs| ensures Reverse(xs)[i].id > Reverse(xs)[j].id {
      ReverseAt(xs, i);
      ReverseAt(xs, j);
    }
  }

  /** What a model built from a matching row says about the filters. */
  lemma RowFiltersHold(s: Storage.State, q: Query.CarList, row: CarEntity.Car)
    requires Storage.Valid(s) && row in s.cars && Matches(s, row, q)
    ensures var car := CarEntity.ToModel(Storage.Preload(s, row));
      car.owner.Some? && car.owner.value.id == car.ownerId
      && (q.regNum.Some? ==> car.regNum == q.regNum.value)
      && (q.mark.Some? && NoWildcards(q.mark.value) ==> Contains(car.info.mark, q.mark.value))
      && (q.model.Some? && NoWildcards(q.model.value) ==> Contains(car.info.model, q.model.value))
      && (q.year.Some? ==> car.info.year == if q.year.value == 0 then None else q.year)
      && (q.ownerName.Some? && NoWildcards(q.ownerName.value) ==> Contains(car.owner.value.name, q.ownerName.value))
      && (q.ownerSurname.Some? ==> car.owner.value.surname == Pattern(q.ownerSurname.value))
  {
    var owner := Storage.FindPeople(s.peoples, row.ownerId).value;
    assert owner in s.peoples;
    assert owner.id >= 1;
    if q.mark.Some? && NoWildcards(q.mark.value) { LikeIsContains(row.mark, q.mark.value); }
    if q.model.Some? && NoWildcards(q.model.value) { LikeIsContains(row.model, q.model.value); }
    if q.ownerName.Some? && NoWildcards(q.ownerName.value) { LikeIsContains(owner.name, q.ownerName.value); }
  }

  /** The page contains only rows of the table that satisfy every present
      filter, each with its owner attached: registration number equal; mark,
      model and owner name containing the filter (for filters without wildcard
      characters); year equal; and the owner surname equal to the literal
      "%" + filter + "%" that the source compares against. */
  lemma ListFiltersHold(s: Storage.State, q: Query.CarList)
    requires Storage.Valid(s) && ListQuery(q)
    ensures var r := ListSpec(s, q, None);
      r.Ok? ==> forall car | car in r.value ::
        (exists row :: row in s.cars && car == CarEntity.ToModel(Storage.Preload(s, row)))
        && car.owner.Some? && car.owner.value.id == car.ownerId
        && (q.regNum.Some? ==> car.regNum == q.regNum.value)
        && (q.mark.Some? && NoWildcards(q.mark.value) ==> Contains(car.info.mark, q.mark.value))
        && (q.model.Some? && NoWildcards(q.model.value) ==> Contains(car.info.model, q.model.value))
        && (q.year.Some? ==> car.info.year == if q.year.value == 0 then None else q.year)
        && (q.ownerName.Some? && NoWildcards(q.ownerName.value) ==> Contains(car.owner.value.name, q.ownerName.value))
        && (q.ownerSurname.Some? ==> car.owner.value.surname == Pattern(q.ownerSurname.value))
  {
    var r := ListSpec(s, q, None);
    if r.Ok? {
      MatchingSound(s, s.cars, q);
      forall car | car in r.value
        ensures exists row :: row in s.cars && car == CarEntity.ToModel(Storage.Preload(s, row))
        ensures car.owner.Some? && car.owner.value.id == car.ownerId
        ensures q.regNum.Some? ==> car.regNum == q.regNum.value
        ensures q.mark.Some? && NoWildcards(q.mark.value) ==> Contains(car.info.mark, q.mark.value)
        ensures q.model.Some? && NoWildcards(q.model.value) ==> Contains(car.info.model, q.model.value)
        ensures q.year.Some? ==> car.info.year == if q.year.value == 0 then None else q.year
        ensures q.ownerName.Some? && NoWildcards(q.ownerName.value) ==> Contains(car.owner.value.name, q.ownerName.value)
        ensures q.ownerSurname.Some? ==> car.owner.value.surname == Pattern(q.ownerSurname.value)
      {
        var k :| 0 <= k < |r.value| && car == r.value[k];
        PageRows(s, q, k);
        var row :| row in Matching(s, s.cars, q) && car == CarEntity.ToModel(Storage.Preload(s, row));
        RowFiltersHold(s, q, row);
      }
    }
  }

  /** The page is the slice of the ordered matching rows that starts at
      `(page - 1) * count` and holds at most `count` of them: page 2 of size 5
      holds the 6th to the 10th matching car. */
  lemma ListPageIsSlice(s: Storage.State, q: Query.CarList)
    requires ListQuery(q) && (q.ownerName.None? || q.ownerSurname.None?)
    ensures var r := ListSpec(s, q, None);
      var ordered := Ordered(s, q);
      var offset := Offset(q);
      r.Ok? && |r.value| <= q.count
      && |r.value| == (if offset >= |ordered| then 0 else if offset + q.count <= |ordered| then q.count else |ordered| - offset)
      && forall k :: 0 <= k < |r.value| ==> r.value[k] == CarEntity.ToModel(Storage.Preload(s, ordered[offset + k]))
  {
    var offset := Offset(q);
    var ordered := Ordered(s, q);
    assert ListSpec(s, q, None) == Ok(Models(s, Window(ordered, offset, q.count)));
    WindowModels(s, ordered, offset, q.count);
  }

  /** The models of a page cut from `rows`: their number, and each one built
      from the row at the same position past the offset. */
  lemma WindowModels(s: Storage.State, rows: seq<CarEntity.Car>, offset: nat, limit: nat)
    ensures var m := Models(s, Window(rows, offset, limit));
      |m| <= limit
      && |m| == (if offset >= |rows| then 0 else if offset + limit <= |rows| then limit else |rows| - offset)
      && forall k :: 0 <= k < |m| ==> m[k] == CarEntity.ToModel(Storage.Preload(s, rows[offset + k]))
  {
    WindowSize(rows, offset, limit);
    forall k | 0 <= k < |Window(rows, offset, limit)|
      ensures offset + k < |rows| && Window(rows, offset, limit)[k] == rows[offset + k]
    {
      WindowAt(rows, offset, limit, k);
    }
  }

  /** Results come in id order: ascending for "asc", descending for "desc". */
  lemma ListOrderedById(s: Storage.State, q: Query.CarList)
    requires Storage.Valid(s) && ListQuery(q)
    ensures var r := ListSpec(s, q, None);
      r.Ok? ==>
        (q.order == "asc" ==> forall i, j :: 0 <= i < j < |r.value| ==> r.value[i].id < r.value[j].id)
        && (q.order == "desc" ==> forall i, j :: 0 <= i < j < |r.value| ==> r.value[i].id > r.value[j].id)
  {
    if q.ownerName.None? || q.ownerSurname.None? {
      var hits := Matching(s, s.cars, q);
      MatchingOrdered(s, s.cars, q);
      var offset := Offset(q);
      if q.order == "asc" {
        WindowModelsAscending(s, hits, offset, q.count);
      } else {
        ReverseDescending(hits);
        WindowModelsDescending(s, Reverse(hits), offset, q.count);
      }
    }
  }

  /** A page cut from rows in ascending id order is in ascending id order. */
  lemma WindowModelsAscending(s: Storage.State, rows: seq<CarEntity.Car>, offset: nat, limit: nat)
    requires forall i, j :: 0 <= i < j < |rows| ==> rows[i].id < rows[j].id
    ensures var m := Models(s, Window(rows, offset, limit));
      forall i, j :: 0 <= i < j < |m| ==> m[i].id < m[j].id
  {
    var m := Models(s, Window(rows, offset, limit));
    forall i, j | 0 <= i < j < |m| ensures m[i].id < m[j].id {
      WindowAt(rows, offset, limit, i);
      WindowAt(rows, offset, limit, j);
    }
  }

  /** A page cut from rows in descending id order is in descending id order. */
  lemma WindowModelsDescending(s: Storage.State, rows: seq<CarEntity.Car>, offset: nat, limit: nat)
    requires forall i, j :: 0 <= i < j < |rows| ==> rows[i].id > rows[j].id
    ensures var m := Models(s, Window(rows, offset, limit));
      forall i, j :: 0 <= i < j < |m| ==> m[i].id > m[j].id
  {
    var m := Models(s, Window(rows, offset, limit));
    forall i, j | 0 <= i < j < |m| ensures m[i].id > m[j].id {
      WindowAt(rows, offset, limit, i);
      WindowAt(rows, offset, limit, j);
    }
  }

  /** Both owner filters add two identical `JOIN peoples` clauses, which the
      database refuses: the query fails with a Database error. */
  lemma BothOwnerFiltersFail(s: Storage.State, q: Query.CarList, fault: Option<string>)
    requires ListQuery(q) && q.ownerName.Some? && q.ownerSurname.Some?
    ensures ListSpec(s, q, fault).Fail? && Is(ListSpec(s, q, fault).error, Database)
  {
  }

  lemma {:induction false} MatchingEmpty(s: Storage.State, rows: seq<CarEntity.Car>, q: Query.CarList)
    requires forall c | c in rows :: !Matches(s, c, q)
    ensures Matching(s, rows, q) == []
  {
    if rows != [] {
      MatchingEmpty(s, rows[1..], q);
    }
  }

  /** The owner-surname filter compares with `=` against "%" + filter + "%",
      not with LIKE: as long as no stored surname starts with '%', a query
      with that filter finds nothing, whatever the surnames are. */
  lemma SurnameFilterIsLiteral(s: Storage.State, q: Query.CarList)
    requires ListQuery(q) && q.ownerSurname.Some?
    requires forall p | p in s.peoples :: !("%" <= p.surname)
    ensures ListSpec(s, q, None).Ok? ==> ListSpec(s, q, None).value == []
  {
    forall c | c in s.cars ensures !Matches(s, c, q) {
      var owner := Storage.FindPeople(s.peoples, c.ownerId);
      if owner.Some? {
        assert owner.value in s.peoples;
        PatternStartsWithWildcard(q.ownerSurname.value);
      }
    }
    MatchingEmpty(s, s.cars, q);
    assert Ordered(s, q) == [];
    assert Page(s, q) == [];
  }

  lemma PatternStartsWithWildcard(v: string)
    ensures "%" <= Pattern(v)
  {
    assert Pattern(v)[..1] == "%";
  }

  // ---------------------------------------------------------------------------
  // Create

  /** The year column written for an optional year: absent is stored as 0. */
  function StoredYear(year: Option<int>): int {
    year.GetOr(0)
  }

  /** The effect and result of `Create`: the INSERT may fail (driver fault,
      duplicate registration number, unknown owner); once the row is in, the
      re-read with the owner preloaded may still fail, and the row stays. A row
      that a constraint refuses has already drawn its id from the sequence (the
      column default is evaluated before constraints are checked), so the next
      id moves on; a driver fault is taken to fail before the statement reaches
      the table. */
  function CreateSpec(s: Storage.State, q: Query.CarCreate, insertFault: Option<string>, reloadFault: Option<string>)
    : (res: (Storage.State, Result<Model.Car>))
    ensures res.0.peoples == s.peoples && res.0.nextPeopleId == s.nextPeopleId
    ensures |s.cars| <= |res.0.cars| <= |s.cars| + 1 && res.0.cars[..|s.cars|] == s.cars
    ensures res.1.Ok? ==> |res.0.cars| == |s.cars| + 1 && res.1.value.id == res.0.cars[|s.cars|].id
    ensures res.1.Fail? ==> Is(res.1.error, Database) && !Is(res.1.error, NotFound)
  {
    var row := CarEntity.Car(s.nextCarId, q.regNum, q.mark, q.model, StoredYear(q.year), PeopleEntity.Zero, q.ownerId);
    var burnt := s.(nextCarId := s.nextCarId + 1);
    if insertFault.Some? then (s, Fail(Caused(Database, insertFault.value)))
    else if Storage.RegNumTaken(s.cars, q.regNum, |s.cars|) then (burnt, Fail(Caused(Database, UniqueViolation)))
    else if Storage.FindPeople(s.peoples, q.ownerId).None? then (burnt, Fail(Caused(Database, ForeignKeyViolation)))
    else
      var s' := s.(cars := s.cars + [row], nextCarId := s.nextCarId + 1);
      if reloadFault.Some? then (s', Fail(Caused(Database, reloadFault.value)))
      else (s', Ok(CarEntity.ToModel(Storage.Preload(s', row))))
  }

  /** A create that passes the constraints adds exactly one row, at the end,
      with a fresh id and the given registration number, mark, model, year
      (absent stored as 0) and owner id; the re-read by that id finds it; the
      returned car carries the owner, and its year is present exactly when a
      non-zero year was given. */
  lemma CreateInserts(s: Storage.State, q: Query.CarCreate)
    requires Storage.Valid(s)
    requires !Storage.RegNumTaken(s.cars, q.regNum, |s.cars|) && Storage.FindPeople(s.peoples, q.ownerId).Some?
    ensures var (s', r) := CreateSpec(s, q, None, None);
      var owner := Storage.FindPeople(s.peoples, q.ownerId).value;
      r.Ok? && s'.peoples == s.peoples && |s'.cars| == |s.cars| + 1 && s'.cars[..|s.cars|] == s.cars
      && var row := s'.cars[|s.cars|];
         (forall c | c in s.cars :: c.id < row.id)
         && row.regNum == q.regNum && row.mark == q.mark && row.model == q.model
         && row.year == StoredYear(q.year) && row.ownerId == q.ownerId
         && Storage.FindCar(s'.cars, row.id) == Some(|s.cars|)
         && r.value.id == row.id && r.value.regNum == q.regNum && r.value.ownerId == q.ownerId
         && r.value.info.mark == q.mark && r.value.info.model == q.model
         && r.value.info.year == (if q.year == Some(0) then None else q.year)
         && r.value.owner == Some(PeopleEntity.ToModel(owner))
  {
    var (s', r) := CreateSpec(s, q, None, None);
    var row := s'.cars[|s.cars|];
    assert Storage.CarsOrdered(s'.cars);
    Storage.FindCarExact(s'.cars, |s.cars|);
  }

  /** A duplicate registration number is refused by the unique constraint and
      surfaces as a Database error (there is no separate conflict kind); the
      tables are unchanged, and only the id drawn for the row is used up. */
  lemma CreateDuplicate(s: Storage.State, q: Query.CarCreate, reloadFault: Option<string>)
    requires Storage.RegNumTaken(s.cars, q.regNum, |s.cars|)
    ensures var (s', r) := CreateSpec(s, q, None, reloadFault);
      s' == s.(nextCarId := s.nextCarId + 1) && r.Fail? && Is(r.error, Database) && !Is(r.error, NotFound)
  {
  }

  /** An owner id that no people row has is refused by the foreign key and
      surfaces as a Database error; the tables are unchanged, and only the id
      drawn for the row is used up. */
  lemma CreateUnknownOwner(s: Storage.State, q: Query.CarCreate, reloadFault: Option<string>)
    requires forall p | p in s.peoples :: p.id != q.ownerId
    ensures var (s', r) := CreateSpec(s, q, None, reloadFault);
      s' == s.(nextCarId := s.nextCarId + 1) && r.Fail? && Is(r.error, Database) && !Is(r.error, NotFound)
  {
  }

  /** A driver fault on the INSERT is a Database error carrying the driver's
      text, and nothing changes. */
  lemma CreateInsertFault(s: Storage.State, q: Query.CarCreate, cause: string, reloadFault: Option<string>)
    ensures var (s', r) := CreateSpec(s, q, Some(cause), reloadFault);
      s' == s && r.Fail? && Is(r.error, Database) && !Is(r.error, NotFound)
      && Text(r.error) == KindText(Database) + ": " + cause
  {
  }

  /** When only the re-read fails, the error is returned but the new row is
      not rolled back. */
  lemma CreateReloadFailureKeepsRow(s: Storage.State, q: Query.CarCreate, cause: string)
    requires !Storage.RegNumTaken(s.cars, q.regNum, |s.cars|) && Storage.FindPeople(s.peoples, q.ownerId).Some?
    ensures var (s', r) := CreateSpec(s, q, None, Some(cause));
      r.Fail? && Is(r.error, Database) && |s'.cars| == |s.cars| + 1 && s'.cars[|s.cars|].regNum == q.regNum
  {
  }

  lemma CreatePreservesValid(s: Storage.State, q: Query.CarCreate, insertFault: Option<string>, reloadFault: Option<string>)
    requires Storage.Valid(s)
    ensures Storage.Valid(CreateSpec(s, q, insertFault, reloadFault).0)
  {
    if insertFault.None? && !Storage.RegNumTaken(s.cars, q.regNum, |s.cars|) && Storage.FindPeople(s.peoples, q.ownerId).Some? {
      AppendKeepsValid(s, CarEntity.Car(s.nextCarId, q.regNum, q.mark, q.model, StoredYear(q.year), PeopleEntity.Zero, q.ownerId));
    }
  }

  /** Appending a row with the next id, a registration number no row has, an
      existing owner and no stored association keeps the table invariant. */
  lemma AppendKeepsValid(s: Storage.State, row: CarEntity.Car)
    requires Storage.Valid(s) && row.id == s.nextCarId && row.owner == PeopleEntity.Zero
    requires !Storage.RegNumTaken(s.cars, row.regNum, |s.cars|) && Storage.FindPeople(s.peoples, row.ownerId).Some?
    ensures Storage.Valid(s.(cars := s.cars + [row], nextCarId := s.nextCarId + 1))
  {
    var cars := s.cars + [row];
    assert forall i | 0 <= i < |s.cars| :: cars[i] == s.cars[i];
    assert Storage.CarsOrdered(cars) by {
      forall i, j | 0 <= i < j < |cars| ensures cars[i].id < cars[j].id {
        if j < |s.cars| { assert cars[j] == s.cars[j]; }
      }
    }
    assert Storage.UniqueRegNums(cars) by {
      forall i, j | 0 <= i < j < |cars| ensures cars[i].regNum != cars[j].regNum {
        if j < |s.cars| { assert cars[j] == s.cars[j]; }
        else { assert s.cars[i].regNum != row.regNum; }
      }
    }
  }

  // ---------------------------------------------------------------------------
  // Update

  /** The fetched entity with every present field of the query written over it. */
  function Edited(e: CarEntity.Car, q: Query.CarUpdate): (r: CarEntity.Car)
    ensures r.id == e.id && r.ownerId == e.ownerId && r.owner == e.owner
    ensures q == Query.CarUpdate(q.id, None, None, None, None) ==> r == e
  {
    e.(regNum := q.regNum.GetOr(e.regNum), mark := q.mark.GetOr(e.mark),
       model := q.model.GetOr(e.model), year := q.year.GetOr(e.year))
  }

  /** The effect and result of `Update`: fetch by id (a driver fault is a
      Database error, a missing row NotFound), overwrite the present fields,
      save (a driver fault or a registration number held by another row is a
      Database error and nothing is written). */
  function UpdateSpec(s: Storage.State, q: Query.CarUpdate, fetchFault: Option<string>, saveFault: Option<string>)
    : (res: (Storage.State, Result<Model.Car>))
    ensures res.0.peoples == s.peoples && res.0.nextCarId == s.nextCarId && res.0.nextPeopleId == s.nextPeopleId
    ensures |res.0.cars| == |s.cars|
    ensures res.1.Fail? ==> res.0 == s
    ensures res.1.Ok? ==> res.1.value.id == q.id
  {
    if fetchFault.Some? then (s, Fail(Caused(Database, fetchFault.value)))
    else match Storage.FindCar(s.cars, q.id)
      case None => (s, Fail(Tagged(NotFound, "failed to search by id - " + FormatInt(q.id))))
      case Some(k) =>
        var entity := Edited(Storage.Preload(s, s.cars[k]), q);
        if saveFault.Some? then (s, Fail(Caused(Database, saveFault.value)))
        else if Storage.RegNumTaken(s.cars, entity.regNum, k) then (s, Fail(Caused(Database, UniqueViolation)))
        else (s.(cars := s.cars[k := entity.(owner := PeopleEntity.Zero)]), Ok(CarEntity.ToModel(entity)))
  }

  /** An update of an id that no row has reports NotFound and changes nothing. */
  lemma UpdateMissing(s: Storage.State, q: Query.CarUpdate, saveFault: Option<string>)
    requires forall c | c in s.cars :: c.id != q.id
    ensures var (s', r) := UpdateSpec(s, q, None, saveFault);
      s' == s && r.Fail? && Is(r.error, NotFound)
  {
  }

  /** A driver fault on the fetch or on the save is a Database error carrying
      the driver's text, and nothing is written. */
  lemma UpdateFault(s: Storage.State, q: Query.CarUpdate, fetchFault: Option<string>, saveFault: Option<string>)
    requires fetchFault.Some? || (saveFault.Some? && Storage.FindCar(s.cars, q.id).Some?)
    ensures var (s', r) := UpdateSpec(s, q, fetchFault, saveFault);
      s' == s && r.Fail? && Is(r.error, Database) && !Is(r.error, NotFound)
      && Text(r.error) == KindText(Database) + ": " + (if fetchFault.Some? then fetchFault.value else saveFault.value)
  {
  }

  /** A new registration number that another row already holds is refused by
      the unique constraint on save: a Database error, and nothing is written. */
  lemma UpdateRegNumClash(s: Storage.State, q: Query.CarUpdate, k: nat, j: nat)
    requires Storage.Valid(s) && k < |s.cars| && s.cars[k].id == q.id
    requires j < |s.cars| && j != k && q.regNum == Some(s.cars[j].regNum)
    ensures var (s', r) := UpdateSpec(s, q, None, None);
      s' == s && r.Fail? && Is(r.error, Database) && !Is(r.error, NotFound)
  {
    Storage.FindCarExact(s.cars, k);
    assert Storage.RegNumTaken(s.cars, q.regNum.value, k);
  }

  /** A successful update rewrites only the row with that id, and in it only
      the fields present in the query; id, owner id and every other row keep
      their values. The returned car is that row as `List` would show it. */
  lemma UpdateOnlyPresentFields(s: Storage.State, q: Query.CarUpdate, k: nat)
    requires Storage.Valid(s) && k < |s.cars| && s.cars[k].id == q.id
    requires !Storage.RegNumTaken(s.cars, q.regNum.GetOr(s.cars[k].regNum), k)
    ensures var (s', r) := UpdateSpec(s, q, None, None);
      var old_ := s.cars[k];
      r.Ok? && s'.peoples == s.peoples && s'.nextCarId == s.nextCarId && s'.nextPeopleId == s.nextPeopleId
      && |s'.cars| == |s.cars|
      && (forall j | 0 <= j < |s.cars| && j != k :: s'.cars[j] == s.cars[j])
      && s'.cars[k].id == old_.id && s'.cars[k].ownerId == old_.ownerId
      && s'.cars[k].regNum == q.regNum.GetOr(old_.regNum)
      && s'.cars[k].mark == q.mark.GetOr(old_.mark)
      && s'.cars[k].model == q.model.GetOr(old_.model)
      && s'.cars[k].year == q.year.GetOr(old_.year)
      && r.value == CarEntity.ToModel(Storage.Preload(s', s'.cars[k]))
  {
    Storage.FindCarExact(s.cars, k);
  }

  /** An update with every field absent writes the row back unchanged. */
  lemma UpdateNothingIsIdentity(s: Storage.State, id: int, k: nat)
    requires Storage.Valid(s) && k < |s.cars| && s.cars[k].id == id
    ensures var (s', r) := UpdateSpec(s, Query.CarUpdate(id, None, None, None, None), None, None);
      s' == s && r == Ok(CarEntity.ToModel(Storage.Preload(s, s.cars[k])))
  {
    Storage.FindCarExact(s.cars, k);
    var row := s.cars[k];
    assert !Storage.RegNumTaken(s.cars, row.regNum, k) by {
      forall i | 0 <= i < |s.cars| && i != k ensures s.cars[i].regNum != row.regNum {
        if i < k { assert s.cars[i].regNum != s.cars[k].regNum; }
      }
    }
    assert s.cars[k := row] == s.cars;
  }

  lemma UpdatePreservesValid(s: Storage.State, q: Query.CarUpdate, fetchFault: Option<string>, saveFault: Option<string>)
    requires Storage.Valid(s)
    ensures Storage.Valid(UpdateSpec(s, q, fetchFault, saveFault).0)
  {
    if fetchFault.None? && saveFault.None? && Storage.FindCar(s.cars, q.id).Some? {
      var k := Storage.FindCar(s.cars, q.id).value;
      var entity := Edited(Storage.Preload(s, s.cars[k]), q);
      if !Storage.RegNumTaken(s.cars, entity.regNum, k) {
        ReplaceKeepsValid(s, k, entity.(owner := PeopleEntity.Zero));
      }
    }
  }

  /** Overwriting a row in place with one that keeps its id and owner id, holds
      a registration number no other row has and no stored association keeps
      the table invariant. */
  lemma ReplaceKeepsValid(s: Storage.State, k: nat, row: CarEntity.Car)
    requires Storage.Valid(s) && k < |s.cars| && row.id == s.cars[k].id && row.ownerId == s.cars[k].ownerId
    requires row.owner == PeopleEntity.Zero && !Storage.RegNumTaken(s.cars, row.regNum, k)
    ensures Storage.Valid(s.(cars := s.cars[k := row]))
  {
    var cars := s.cars[k := row];
    assert Storage.UniqueRegNums(cars) by {
      forall i, j | 0 <= i < j < |cars| ensures cars[i].regNum != cars[j].regNum {
        if i == k { assert cars[j] == s.cars[j]; }
        else if j == k { assert cars[i] == s.cars[i]; }
      }
    }
  }

  // ---------------------------------------------------------------------------
  // Delete

  /** What the DELETE statement reports: rows affected and an error, if any. */
  datatype Exec = Exec(rowsAffected: nat, error: Option<string>)

  /** The outcome check after the DELETE: zero rows affected is checked first
      and reported as NotFound even when the statement also failed; an error
      with rows affected is a Database error. */
  function DeleteVerdict(exec: Exec, id: int): (err: Option<Error>)
    ensures exec.rowsAffected == 0 ==> err.Some? && Is(err.value, NotFound) && !Is(err.value, Database)
    ensures exec.rowsAffected > 0 && exec.error.Some? ==> err.Some? && Is(err.value, Database) && !Is(err.value, NotFound)
    ensures exec.rowsAffected > 0 && exec.error.None? ==> err.None?
  {
    if exec.rowsAffected == 0 then Some(Tagged(NotFound, "failed to delete by id - " + FormatInt(id)))
    else if exec.error.Some? then Some(Caused(Database, exec.error.value))
    else None
  }

  function RemoveAt<T>(s: seq<T>, k: nat): seq<T>
    requires k < |s|
  {
    s[..k] + s[k + 1..]
  }

  /** The effect of `Delete(&Car{}, id)` and the resulting verdict. A failing
      statement affects no row. */
  function DeleteSpec(s: Storage.State, q: Query.CarDelete, fault: Option<string>): (res: (Storage.State, Option<Error>))
    ensures res.0.peoples == s.peoples && res.0.nextCarId == s.nextCarId && res.0.nextPeopleId == s.nextPeopleId
    ensures res.1.Some? ==> res.0 == s && Is(res.1.value, NotFound)
    ensures res.1.None? ==> |res.0.cars| == |s.cars| - 1
  {
    if fault.Some? then (s, DeleteVerdict(Exec(0, fault), q.id))
    else match Storage.FindCar(s.cars, q.id)
      case Some(k) => (s.(cars := RemoveAt(s.cars, k)), DeleteVerdict(Exec(1, None), q.id))
      case None => (s, DeleteVerdict(Exec(0, None), q.id))
  }

  /** Deleting an existing id removes that row and no other; afterwards no row
      has the id. */
  lemma DeleteRemovesRow(s: Storage.State, q: Query.CarDelete, k: nat)
    requires Storage.Valid(s) && k < |s.cars| && s.cars[k].id == q.id
    ensures var (s', err) := DeleteSpec(s, q, None);
      err.None? && s' == Storage.State(s.cars[..k] + s.cars[k + 1..], s.peoples, s.nextCarId, s.nextPeopleId)
      && forall c | c in s'.cars :: c.id != q.id
  {
    Storage.FindCarExact(s.cars, k);
    var s' := DeleteSpec(s, q, None).0;
    forall c | c in s'.cars ensures c.id != q.id {
      var i :| 0 <= i < |s'.cars| && s'.cars[i] == c;
      if i < k { assert c == s.cars[i]; } else { assert c == s.cars[i + 1]; }
    }
  }

  /** Deleting an id no row has, or a delete whose statement fails, reports
      NotFound and changes nothing. */
  lemma DeleteNotFound(s: Storage.State, q: Query.CarDelete, fault: Option<string>)
    requires fault.Some? || forall c | c in s.cars :: c.id != q.id
    ensures var (s', err) := DeleteSpec(s, q, fault);
      s' == s && err.Some? && Is(err.value, NotFound)
  {
  }

  lemma DeletePreservesValid(s: Storage.State, q: Query.CarDelete, fault: Option<string>)
    requires Storage.Valid(s)
    ensures Storage.Valid(DeleteSpec(s, q, fault).0)
  {
    if fault.None? && Storage.FindCar(s.cars, q.id).Some? {
      RemoveAtKeepsValid(s, Storage.FindCar(s.cars, q.id).value);
    }
  }

  /** Removing one car row keeps the table invariant: what remains is a
      subsequence of rows that satisfied it. */
  lemma RemoveAtKeepsValid(s: Storage.State, k: nat)
    requires Storage.Valid(s) && k < |s.cars|
    ensures Storage.Valid(s.(cars := RemoveAt(s.cars, k)))
  {
    var cars := RemoveAt(s.cars, k);
    assert forall i | 0 <= i < |cars| :: cars[i] == s.cars[if i < k then i else i + 1];
    assert Storage.CarsOrdered(cars) by {
      forall i, j | 0 <= i < j < |cars| ensures cars[i].id < cars[j].id {
        assert cars[i] == s.cars[if i < k then i else i + 1];
        assert cars[j] == s.cars[if j < k then j else j + 1];
      }
    }
    assert Storage.UniqueRegNums(cars) by {
      forall i, j | 0 <= i < j < |cars| ensures cars[i].regNum != cars[j].regNum {
        assert cars[i] == s.cars[if i < k then i else i + 1];
        assert cars[j] == s.cars[if j < k then j else j + 1];
      }
    }
  }

  /** Running the assembled statement and mapping its rows gives the result
      `ListSpec` describes. */
  lemma FindIsList(s: Storage.State, q: Query.CarList, st: Statement, fault: Option<string>)
    requires ListQuery(q)
    requires st.where == Clauses(q) && st.joins == JoinCount(q) && st.order == "id " + q.order
    requires st.limit == q.count && st.offset == Offset(q)
    ensures st.order == "id asc" || st.order == "id desc"
    ensures st.offset >= 0 && st.limit >= 0
    ensures Find(s, st, fault).DbError? ==> ListSpec(s, q, fault) == Fail(Caused(Database, Find(s, st, fault).cause))
    ensures Find(s, st, fault).Rows? ==> ListSpec(s, q, fault) == Ok(ToModels(Find(s, st, fault).rows))
  {
    OrderText(q.order);
    if fault.None? && st.joins <= 1 {
      SelectIsMatching(s, s.cars, q, st);
      var ordered := if st.order == "id asc" then Select(s, s.cars, st) else Reverse(Select(s, s.cars, st));
      assert ordered == Ordered(s, q);
      var page := Page(s, q);
      assert Find(s, st, fault) == Rows(Preloaded(s, page));
      ModelsAreToModels(s, page);
    }
  }

  /** The ORDER BY text the builder writes names the direction of the query. */
  lemma OrderText(order: string)
    requires order == "asc" || order == "desc"
    ensures "id " + order == "id asc" <==> order == "asc"
    ensures "id " + order == "id desc" <==> order == "desc"
  {
    if order == "desc" {
      assert ("id " + order)[3] == 'd';
    } else {
      assert ("id " + order)[3] == 'a';
    }
  }

  lemma ModelsAreToModels(s: Storage.State, rows: seq<CarEntity.Car>)
    ensures Models(s, rows) == ToModels(Preloaded(s, rows))
  {
  }

  /** Converts the fetched rows into models, one slot of a preallocated
      array per row. */
  method ConvertAll(entities: seq<CarEntity.Car>) returns (r: seq<Model.Car>)
    ensures r == ToModels(entities)
  {
    var cars := new Model.Car[|entities|](_ => Model.ZeroCar);
    for i := 0 to |entities|
      invariant forall k :: 0 <= k < i ==> cars[k] == CarEntity.ToModel(entities[k])
    {
      cars[i] := CarEntity.ToModel(entities[i]);
    }
    r := cars[..];
  }

  // ---------------------------------------------------------------------------
  // The repository object

  class Repository {
    const db: Storage.Db

    constructor (db: Storage.Db)
      ensures this.db == db
    {
      this.db := db;
    }

    /** Assembles the SELECT for a query: one condition per present filter,
        a `JOIN peoples` per owner filter, the ORDER BY text and the page. */
    method Build(q: Query.CarList) returns (st: Statement)
      requires ListQuery(q)
      ensures st.where == Clauses(q) && st.joins == JoinCount(q) && st.order == "id " + q.order
      ensures st.limit == q.count && st.offset == Offset(q)
    {
      st := Statement([], 0, "", 0, 0);
      if q.regNum.Some? {
        st := st.(where := st.where + [RegNumIs(q.regNum.value)]);
      }
      assert st.where == RegNumPart(q);
      if q.mark.Some? {
        st := st.(where := st.where + [MarkLike(Pattern(q.mark.value))]);
      }
      assert st.where == RegNumPart(q) + MarkPart(q);
      if q.model.Some? {
        st := st.(where := st.where + [ModelLike(Pattern(q.model.value))]);
      }
      assert st.where == RegNumPart(q) + MarkPart(q) + ModelPart(q);
      if q.year.Some? {
        st := st.(where := st.where + [YearIs(q.year.value)]);
      }
      assert st.where == RegNumPart(q) + MarkPart(q) + ModelPart(q) + YearPart(q);
      if q.ownerName.Some? {
        st := st.(joins := st.joins + 1, where := st.where + [OwnerNameLike(Pattern(q.ownerName.value))]);
      }
      assert st.where == RegNumPart(q) + MarkPart(q) + ModelPart(q) + YearPart(q) + NamePart(q);
      if q.ownerSurname.Some? {
        st := st.(joins := st.joins + 1, where := st.where + [OwnerSurnameIs(Pattern(q.ownerSurname.value))]);
      }
      st := st.(order := "id " + q.order);
      st := st.(limit := q.count, offset := (q.page - 1) * q.count);
    }

    method List(q: Query.CarList, fault: Option<string>) returns (r: Result<seq<Model.Car>>)
      requires ListQuery(q)
      ensures r == ListSpec(db.Snapshot(), q, fault)
    {
      var st := Build(q);
      FindIsList(db.Snapshot(), q, st, fault);
      var found := Find(db.Snapshot(), st, fault);
      if found.DbError? {
        return Fail(Caused(Database, found.cause));
      }
      var cars := ConvertAll(found.rows);
      r := Ok(cars);
    }

    /** Inserts a car row, then re-reads it by id with its owner preloaded. */
    method Create(q: Query.CarCreate, insertFault: Option<string>, reloadFault: Option<string>) returns (r: Result<Model.Car>)
      modifies db
      ensures (db.Snapshot(), r) == CreateSpec(old(db.Snapshot()), q, insertFault, reloadFault)
    {
      var entity := CarEntity.Car(0, q.regNum, q.mark, q.model, 0, PeopleEntity.Zero, q.ownerId);
      if q.year.Some? {
        entity := entity.(year := q.year.value);
      }
      if insertFault.Some? {
        return Fail(Caused(Database, insertFault.value));
      }
      entity := entity.(id := db.nextCarId);
      db.nextCarId := db.nextCarId + 1;
      if Storage.RegNumTaken(db.cars, entity.regNum, |db.cars|) {
        return Fail(Caused(Database, UniqueViolation));
      }
      if Storage.FindPeople(db.peoples, entity.ownerId).None? {
        return Fail(Caused(Database, ForeignKeyViolation));
      }
      db.cars := db.cars + [entity];
      if reloadFault.Some? {
        return Fail(Caused(Database, reloadFault.value));
      }
      var fullEntity := Storage.Preload(db.Snapshot(), db.cars[|db.cars| - 1]);
      r := Ok(CarEntity.ToModel(fullEntity));
    }

    /** Fetches the row with its owner, overwrites the present fields one by
        one, and saves it. */
    method Update(q: Query.CarUpdate, fetchFault: Option<string>, saveFault: Option<string>) returns (r: Result<Model.Car>)
      modifies db
      ensures (db.Snapshot(), r) == UpdateSpec(old(db.Snapshot()), q, fetchFault, saveFault)
    {
      if fetchFault.Some? {
        return Fail(Caused(Database, fetchFault.value));
      }
      var found := Storage.FindCar(db.cars, q.id);
      if found.None? {
        return Fail(Tagged(NotFound, "failed to search by id - " + FormatInt(q.id)));
      }
      var k := found.value;
      var entity := Storage.Preload(db.Snapshot(), db.cars[k]);
      if q.regNum.Some? {
        entity := entity.(regNum := q.regNum.value);
      }
      if q.mark.Some? {
        entity := entity.(mark := q.mark.value);
      }
      if q.model.Some? {
        entity := entity.(model := q.model.value);
      }
      if q.year.Some? {
        entity := entity.(year := q.year.value);
      }
      if saveFault.Some? {
        return Fail(Caused(Database, saveFault.value));
      }
      if Storage.RegNumTaken(db.cars, entity.regNum, k) {
        return Fail(Caused(Database, UniqueViolation));
      }
      db.cars := db.cars[k := entity.(owner := PeopleEntity.Zero)];
      r := Ok(CarEntity.ToModel(entity));
    }

    /** Deletes by id, then classifies the statement's outcome. */
    method Delete(q: Query.CarDelete, fault: Option<string>) returns (err: Option<Error>)
      modifies db
      ensures (db.Snapshot(), err) == DeleteSpec(old(db.Snapshot()), q, fault)
    {
      var exec: Exec;
      if fault.Some? {
        exec := Exec(0, fault);
      } else {
        var found := Storage.FindCar(db.cars, q.id);
        if found.Some? {
          db.cars := RemoveAt(db.cars, found.value);
          exec := Exec(1, None);
        } else {
          exec := Exec(0, None);
        }
      }
      err := DeleteVerdict(exec, q.id);
    }
  }
}
