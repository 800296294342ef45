/** The car service (internal/service/car/service.go): `Index` resolves the
    paging and ordering defaults of a filter command and lists; `Store`
    onboards a batch of registration numbers one after the other (look up the
    car info, create its owner, create the car) and stops at the first error
    without undoing earlier rows; `Update` and `Delete` hand the command over.

    Everything outside the process is an input: for iteration `i` of `Store`,
    `steps[i]` holds the car info service's reply and the faults the database
    reports for the owner INSERT, the car INSERT and the car re-read. */
module CarService {
  import opened Wrappers
  import opened Errors
  import Model
  import Query
  import Command
  import Storage
  import CarEntity
  import PeopleEntity
  import PeopleRepository
  import CarRepository
  import CarInfoClient

  // ---------------------------------------------------------------------------
  // Index

  const DefaultPage: int := 1
  const DefaultCount: int := 10
  const DefaultOrder: string := "desc"

  /** The list query `Index` builds: filters copied, page and count taken from
      the command when given and positive, order taken when it is "asc" or
      "desc"; otherwise 1, 10 and "desc". */
  function Resolve(cmd: Command.CarIndex): (q: Query.CarList)
    ensures CarRepository.ListQuery(q)
    ensures q.regNum == cmd.regNum && q.mark == cmd.mark && q.model == cmd.model && q.year == cmd.year
    ensures q.ownerName == cmd.ownerName && q.ownerSurname == cmd.ownerSurname
    ensures q.page == cmd.page.GetOr(0) <==> cmd.page.Some? && cmd.page.value > 0
    ensures q.page != cmd.page.GetOr(0) ==> q.page == DefaultPage
    ensures q.count == cmd.count.GetOr(0) <==> cmd.count.Some? && cmd.count.value > 0
    ensures q.count != cmd.count.GetOr(0) ==> q.count == DefaultCount
    ensures q.order == "asc" <==> cmd.order == Some("asc")
  {
    Query.CarList(
      cmd.regNum, cmd.mark, cmd.model, cmd.year, cmd.ownerName, cmd.ownerSurname,
      if cmd.order.None? || cmd.order.value == "" || (cmd.order.value != "asc" && cmd.order.value != "desc")
      then DefaultOrder else cmd.order.value,
      if cmd.page.None? || cmd.page.value <= 0 then DefaultPage else cmd.page.value,
      if cmd.count.None? || cmd.count.value <= 0 then DefaultCount else cmd.count.value)
  }

  /** The command that states a resolved query in full. */
  function Restate(q: Query.CarList): Command.CarIndex {
    Command.CarIndex(q.regNum, q.mark, q.model, q.year, q.ownerName, q.ownerSurname,
      Some(q.order), Some(q.page), Some(q.count))
  }

  /** A resolved query is a fixed point: resolving it again changes nothing;
      and the offset of its page is never negative. */
  lemma ResolveIdempotent(cmd: Command.CarIndex)
    ensures Resolve(Restate(Resolve(cmd))) == Resolve(cmd)
    ensures (Resolve(cmd).page - 1) * Resolve(cmd).count >= 0
  {
    var q := Resolve(cmd);
    assert q.order == "asc" || q.order == "desc";
  }

  // ---------------------------------------------------------------------------
  // Store

  /** The outside world for one iteration of `Store`. */
  datatype Step = Step(
    reply: CarInfoClient.Reply,
    ownerFault: Option<string>,
    insertFault: Option<string>,
    reloadFault: Option<string>)

  /** Every successful lookup names an owner (the service dereferences it). */
  predicate Oracle(steps: seq<Step>) {
    forall i :: 0 <= i < |steps| ==> CarInfoClient.OwnerPresent(steps[i].reply)
  }

  /** One iteration: look up the car info, create its owner, create the car
      with that owner's id; the first error ends the iteration. */
  function Onboard(s: Storage.State, client: CarInfoClient.Repository, regNum: string, step: Step)
    : (res: (Storage.State, Result<Model.Car>))
    requires CarInfoClient.OwnerPresent(step.reply)
    ensures res.1.Ok? ==> res.1.value.regNum == regNum
  {
    var info := CarInfoClient.GetCarInfo(client, Query.CarInfo(regNum), step.reply);
    if info.Fail? then (s, Fail(info.error))
    else
      CarInfoClient.GetCarInfoSucceeds(client, Query.CarInfo(regNum), step.reply);
      var owner := info.value.owner.value;
      var (s1, people) := PeopleRepository.CreateSpec(s, Query.PeopleCreate(owner.name, owner.surname, owner.patronymic), step.ownerFault);
      if people.Fail? then (s1, Fail(people.error))
      else
        CarRepository.CreateSpec(s1,
          Query.CarCreate(regNum, info.value.mark, info.value.model, info.value.year, people.value.id),
          step.insertFault, step.reloadFault)
  }

  /** The state of the batch after some iterations: the tables, the cars made
      so far, the error that stopped it (if any) and the URLs requested. */
  datatype Progress = Progress(state: Storage.State, cars: seq<Model.Car>, failure: Option<Error>, requested: seq<string>)

  /** What an iteration does with the tables, by position in the batch. */
  type Iteration = (Storage.State, nat) --> (Storage.State, Result<Model.Car>)

  /** The iteration can run at every position below `m`, whatever the tables. */
  ghost predicate Total(f: Iteration, m: nat) {
    forall st: Storage.State, i: nat :: i < m ==> f.requires(st, i)
  }

  /** The batch after one more iteration that requested `url` and ended with
      `outcome`: the car made is kept, or the error noted. */
  function Next(p: Progress, outcome: (Storage.State, Result<Model.Car>), url: string): Progress {
    var (s', c) := outcome;
    if c.Fail? then Progress(s', p.cars, Some(c.error), p.requested + [url])
    else Progress(s', p.cars + [c.value], None, p.requested + [url])
  }

  /** The loop of `Store` over iterations `f` that request `urls`, after its
      first `n` rounds; the first error ends it. At most `n` lookups, one car
      per lookup that succeeded, and all `n` when none failed. */
  function Loop(f: Iteration, urls: seq<string>, s: Storage.State, n: nat): (r: Progress)
    requires n <= |urls| && Total(f, |urls|)
    ensures |r.requested| <= n
    ensures r.failure.None? ==> |r.cars| == |r.requested| == n
    ensures r.failure.Some? ==> |r.cars| == |r.requested| - 1
    decreases n
  {
    if n == 0 then Progress(s, [], None, [])
    else
      var p := Loop(f, urls, s, n - 1);
      if p.failure.Some? then p else Next(p, f(p.state, n - 1), urls[n - 1])
  }

  /** The iterations of `Store` for a batch of registration numbers. */
  function Iterations(client: CarInfoClient.Repository, regNums: seq<string>, steps: seq<Step>): Iteration {
    (st: Storage.State, i: nat) requires i < |regNums| && i < |steps| && CarInfoClient.OwnerPresent(steps[i].reply) =>
      Onboard(st, client, regNums[i], steps[i])
  }

  /** The request URLs of a batch, in order. */
  function Urls(client: CarInfoClient.Repository, regNums: seq<string>): (r: seq<string>)
    ensures |r| == |regNums|
  {
    seq(|regNums|, i requires 0 <= i < |regNums| => CarInfoClient.RequestUrl(client, regNums[i]))
  }

  lemma IterationsTotal(client: CarInfoClient.Repository, regNums: seq<string>, steps: seq<Step>)
    requires |regNums| == |steps| && Oracle(steps)
    ensures Total(Iterations(client, regNums, steps), |regNums|)
  {
  }

  /** The batch of `Store` after its first `n` iterations. */
  function Run(s: Storage.State, client: CarInfoClient.Repository, regNums: seq<string>, steps: seq<Step>, n: nat): Progress
    requires n <= |regNums| == |steps| && Oracle(steps)
  {
    IterationsTotal(client, regNums, steps);
    Loop(Iterations(client, regNums, steps), Urls(client, regNums), s, n)
  }

  /** The effect of `Store`: the tables afterwards, the result, and the URLs
      the car info service was asked for. */
  function StoreSpec(s: Storage.State, client: CarInfoClient.Repository, cmd: Command.CarStore, steps: seq<Step>)
    : (res: (Storage.State, Result<seq<Model.Car>>, seq<string>))
    requires |steps| == |cmd.regNums| && Oracle(steps)
    ensures |res.2| <= |cmd.regNums|
    ensures res.1.Ok? ==> |res.1.value| == |res.2| == |cmd.regNums|
    ensures res.1.Fail? ==> |res.2| >= 1
  {
    var p := Run(s, client, cmd.regNums, steps, |cmd.regNums|);
    (p.state, if p.failure.Some? then Fail(p.failure.value) else Ok(p.cars), p.requested)
  }

  /** Iteration `i` of a batch that has not failed yet onboards registration
      number `i` and requests its URL; a failed batch stands still. */
  lemma RunNext(s: Storage.State, client: CarInfoClient.Repository, regNums: seq<string>, steps: seq<Step>, i: nat)
    requires i < |regNums| == |steps| && Oracle(steps)
    ensures var p := Run(s, client, regNums, steps, i);
      Run(s, client, regNums, steps, i + 1)
      == if p.failure.Some? then p
         else Next(p, Onboard(p.state, client, regNums[i], steps[i]), CarInfoClient.RequestUrl(client, regNums[i]))
  {
    assert CarInfoClient.OwnerPresent(steps[i].reply);
  }

  /** The round after `i` unfailed rounds: the batch moves on by that round's
      outcome, and if it failed the batch ends there. */
  lemma StoreStep(s: Storage.State, client: CarInfoClient.Repository, regNums: seq<string>, steps: seq<Step>, i: nat,
                  t: Storage.State, c: Result<Model.Car>)
    requires i < |regNums| == |steps| && Oracle(steps)
    requires Run(s, client, regNums, steps, i).failure.None?
    requires (t, c) == Onboard(Run(s, client, regNums, steps, i).state, client, regNums[i], steps[i])
    ensures Run(s, client, regNums, steps, i + 1)
      == Next(Run(s, client, regNums, steps, i), (t, c), CarInfoClient.RequestUrl(client, regNums[i]))
    ensures c.Fail? ==> Run(s, client, regNums, steps, |regNums|) == Run(s, client, regNums, steps, i + 1)
  {
    RunNext(s, client, regNums, steps, i);
    if c.Fail? {
      LoopAbsorbing(Iterations(client, regNums, steps), Urls(client, regNums), s, i + 1, |regNums|);
    }
  }

  /** A car built by an iteration whose lookup answered `reply`: the given
      registration number; mark, model and year from the car info (a zero
      year reads back absent); and as owner a new person with the name,
      surname and patronymic of the car info's owner. */
  predicate FromLookup(c: Model.Car, regNum: string, reply: CarInfoClient.Reply) {
    reply.Answered? && reply.status == CarInfoClient.StatusOK && reply.body.Decoded?
    && reply.body.info.owner.Some?
    && var info := reply.body.info;
       var owner := info.owner.value;
       c.regNum == regNum && c.info.mark == info.mark && c.info.model == info.model
       && c.info.year == (if info.year == Some(0) then None else info.year)
       && c.owner == Some(Model.People(c.ownerId, owner.name, owner.surname, PeopleRepository.Normalized(owner.patronymic)))
  }

  /** `s` is `t` with rows appended at the end of both tables. */
  predicate Extends(s: Storage.State, t: Storage.State) {
    |s.cars| <= |t.cars| && t.cars[..|s.cars|] == s.cars
    && |s.peoples| <= |t.peoples| && t.peoples[..|s.peoples|] == s.peoples
    && s.nextPeopleId <= t.nextPeopleId
  }

  /** A successful iteration appends one owner, whose fresh id the car
      carries, and one car built from the lookup. */
  lemma OnboardSucceeds(s: Storage.State, client: CarInfoClient.Repository, regNum: string, step: Step)
    requires Storage.Valid(s) && CarInfoClient.OwnerPresent(step.reply)
    requires Onboard(s, client, regNum, step).1.Ok?
    ensures var (s', r) := Onboard(s, client, regNum, step);
      FromLookup(r.value, regNum, step.reply) && r.value.ownerId == s.nextPeopleId
      && Extends(s, s') && s'.nextPeopleId == s.nextPeopleId + 1
      && |s'.cars| == |s.cars| + 1 && RowOf(s'.peoples, s'.cars[|s.cars|], r.value)
  {
    var q := Query.CarInfo(regNum);
    CarInfoClient.GetCarInfoSucceeds(client, q, step.reply);
    var info := step.reply.body.info;
    var owner := info.owner.value;
    var pq := Query.PeopleCreate(owner.name, owner.surname, owner.patronymic);
    var (s1, people) := PeopleRepository.CreateSpec(s, pq, step.ownerFault);
    assert people.Ok?;
    PeopleRepository.CreateInserts(s, pq);
    PeopleRepository.CreatePreservesValid(s, pq, None);
    Storage.FindPeopleExact(s1.peoples, |s.peoples|);
    var cq := Query.CarCreate(regNum, info.mark, info.model, info.year, people.value.id);
    var (s2, c) := CarRepository.CreateSpec(s1, cq, step.insertFault, step.reloadFault);
    assert Onboard(s, client, regNum, step) == (s2, c);
    assert step.insertFault.None? && step.reloadFault.None?;
    assert !Storage.RegNumTaken(s1.cars, regNum, |s1.cars|);
    CarRepository.CreateInserts(s1, cq);
    assert c.value.owner == Some(people.value);
  }

  /** Any failure of an iteration is a classified error (NotFound, Database
      or HTTPRequestFailed), and the tables only ever grow at the end. */
  lemma OnboardEffect(s: Storage.State, client: CarInfoClient.Repository, regNum: string, step: Step)
    requires CarInfoClient.OwnerPresent(step.reply)
    ensures var (s', r) := Onboard(s, client, regNum, step);
      (Storage.Valid(s) ==> Storage.Valid(s')) && Extends(s, s') && (r.Fail? ==> Classified(r.error))
  {
    var q := Query.CarInfo(regNum);
    var info := CarInfoClient.GetCarInfo(client, q, step.reply);
    if info.Fail? {
      assert Onboard(s, client, regNum, step) == (s, Fail(info.error));
      assert Extends(s, s);
    } else {
      CarInfoClient.GetCarInfoSucceeds(client, q, step.reply);
      var owner := info.value.owner.value;
      var pq := Query.PeopleCreate(owner.name, owner.surname, owner.patronymic);
      OwnerStep(s, pq, step.ownerFault);
      var (s1, people) := PeopleRepository.CreateSpec(s, pq, step.ownerFault);
      if people.Fail? {
        assert Onboard(s, client, regNum, step) == (s1, Fail(people.error));
      } else {
        var cq := Query.CarCreate(regNum, info.value.mark, info.value.model, info.value.year, people.value.id);
        assert Onboard(s, client, regNum, step) == CarRepository.CreateSpec(s1, cq, step.insertFault, step.reloadFault);
        CarStep(s1, cq, step.insertFault, step.reloadFault);
        ExtendsTransitive(s, s1, CarRepository.CreateSpec(s1, cq, step.insertFault, step.reloadFault).0);
      }
    }
  }

  /** Creating an owner keeps the tables consistent, only appends, and fails
      with a classified error. */
  lemma OwnerStep(s: Storage.State, q: Query.PeopleCreate, fault: Option<string>)
    ensures var (s', r) := PeopleRepository.CreateSpec(s, q, fault);
      (Storage.Valid(s) ==> Storage.Valid(s')) && Extends(s, s') && (r.Fail? ==> Classified(r.error))
  {
    if Storage.Valid(s) {
      PeopleRepository.CreatePreservesValid(s, q, fault);
    }
    var s' := PeopleRepository.CreateSpec(s, q, fault).0;
    assert s'.peoples[..|s.peoples|] == s.peoples;
  }

  /** Creating a car keeps the tables consistent, only appends, and fails
      with a classified error. */
  lemma CarStep(s: Storage.State, q: Query.CarCreate, insertFault: Option<string>, reloadFault: Option<string>)
    ensures var (s', r) := CarRepository.CreateSpec(s, q, insertFault, reloadFault);
      (Storage.Valid(s) ==> Storage.Valid(s')) && Extends(s, s') && (r.Fail? ==> Classified(r.error))
  {
    if Storage.Valid(s) {
      CarRepository.CreatePreservesValid(s, q, insertFault, reloadFault);
    }
    var s' := CarRepository.CreateSpec(s, q, insertFault, reloadFault).0;
    assert s'.cars[..|s.cars|] == s.cars;
  }

  lemma ExtendsTransitive(a: Storage.State, b: Storage.State, c: Storage.State)
    requires Extends(a, b) && Extends(b, c)
    ensures Extends(a, c)
  {
    assert c.cars[..|a.cars|] == c.cars[..|b.cars|][..|a.cars|];
    assert c.peoples[..|a.peoples|] == c.peoples[..|b.peoples|][..|a.peoples|];
  }

  // Properties of the loop for any iteration that has them

  /** Iterations only append rows. */
  ghost predicate Grows(f: Iteration, m: nat)
    requires Total(f, m)
  {
    forall st: Storage.State, i: nat :: i < m ==> Extends(st, f(st, i).0)
  }

  /** Iterations keep the invariant `inv` of the tables and fail with
      classified errors. */
  ghost predicate Keeps(f: Iteration, inv: Storage.State -> bool, m: nat)
    requires Total(f, m)
  {
    forall st: Storage.State, i: nat :: i < m && inv(st) ==>
      inv(f(st, i).0) && (f(st, i).1.Fail? ==> Classified(f(st, i).1.error))
  }

  /** A successful iteration `i` makes its car from lookup `i`, with the next
      people id as owner id, and uses up that id. */
  ghost predicate Builds(f: Iteration, inv: Storage.State -> bool, regNums: seq<string>, steps: seq<Step>, m: nat)
    requires Total(f, m) && m <= |regNums| && m <= |steps|
  {
    forall st: Storage.State, i: nat :: i < m && inv(st) && f(st, i).1.Ok? ==>
      FromLookup(f(st, i).1.value, regNums[i], steps[i].reply)
      && f(st, i).1.value.ownerId == st.nextPeopleId && f(st, i).0.nextPeopleId == st.nextPeopleId + 1
  }

  /** After a failure the loop stands still: later rounds change nothing and
      request nothing. */
  lemma {:induction false} LoopAbsorbing(f: Iteration, urls: seq<string>, s: Storage.State, k: nat, n: nat)
    requires k <= n <= |urls| && Total(f, |urls|)
    requires Loop(f, urls, s, k).failure.Some?
    ensures Loop(f, urls, s, n) == Loop(f, urls, s, k)
    decreases n
  {
    if n > k {
      LoopAbsorbing(f, urls, s, k, n - 1);
    }
  }

  /** The URLs requested are the first ones of `urls`, in order. */
  lemma {:induction false} LoopRequests(f: Iteration, urls: seq<string>, s: Storage.State, n: nat)
    requires n <= |urls| && Total(f, |urls|)
    ensures var p := Loop(f, urls, s, n);
      p.requested == urls[..|p.requested|]
    decreases n
  {
    if n > 0 {
      LoopRequests(f, urls, s, n - 1);
      var p := Loop(f, urls, s, n - 1);
      if p.failure.None? {
        assert urls[..n] == urls[..n - 1] + [urls[n - 1]];
      }
    }
  }

  /** The round that failed is the last one that requested something, and
      the loop ends with that round's tables and error. */
  lemma {:induction false} LoopFirstFailure(f: Iteration, urls: seq<string>, s: Storage.State, n: nat)
    requires n <= |urls| && Total(f, |urls|)
    requires Loop(f, urls, s, n).failure.Some?
    ensures var k := |Loop(f, urls, s, n).requested| - 1;
      0 <= k < n && Loop(f, urls, s, k).failure.None?
      && Loop(f, urls, s, n) == Next(Loop(f, urls, s, k), f(Loop(f, urls, s, k).state, k), urls[k])
    decreases n
  {
    if Loop(f, urls, s, n - 1).failure.Some? {
      LoopFirstFailure(f, urls, s, n - 1);
    }
  }

  /** Rows written by earlier rounds stay in the tables, whatever happens later. */
  lemma {:induction false} LoopGrows(f: Iteration, urls: seq<string>, s: Storage.State, m: nat, n: nat)
    requires m <= n <= |urls| && Total(f, |urls|) && Grows(f, |urls|)
    ensures Extends(Loop(f, urls, s, m).state, Loop(f, urls, s, n).state)
    decreases n
  {
    if n == m {
      var t := Loop(f, urls, s, n).state;
      assert t.cars[..|t.cars|] == t.cars && t.peoples[..|t.peoples|] == t.peoples;
    } else {
      LoopGrows(f, urls, s, m, n - 1);
      var p := Loop(f, urls, s, n - 1);
      if p.failure.None? {
        ExtendsTransitive(Loop(f, urls, s, m).state, p.state, f(p.state, n - 1).0);
      }
    }
  }

  /** The loop keeps the invariant of the tables, and the error that stops it
      is a classified one. */
  lemma {:induction false} LoopKeeps(f: Iteration, inv: Storage.State -> bool, urls: seq<string>, s: Storage.State, n: nat)
    requires n <= |urls| && Total(f, |urls|) && Keeps(f, inv, |urls|) && inv(s)
    ensures var p := Loop(f, urls, s, n);
      inv(p.state) && (p.failure.Some? ==> Classified(p.failure.value))
    decreases n
  {
    if n > 0 {
      LoopKeeps(f, inv, urls, s, n - 1);
    }
  }

  /** Car `i` was built from lookup `i` with an owner id in `[lo, hi)`, and
      the owner ids strictly increase, so no two cars share an owner. */
  predicate Built(cars: seq<Model.Car>, regNums: seq<string>, steps: seq<Step>, lo: nat, hi: nat)
    requires |cars| <= |regNums| && |cars| <= |steps|
  {
    lo <= hi
    && (forall i :: 0 <= i < |cars| ==> FromLookup(cars[i], regNums[i], steps[i].reply) && lo <= cars[i].ownerId < hi)
    && (forall i, j :: 0 <= i < j < |cars| ==> cars[i].ownerId < cars[j].ownerId)
  }

  /** The cars of the loop are built from their own lookups, with fresh,
      increasing owner ids. */
  lemma {:induction false} LoopBuilt(f: Iteration, inv: Storage.State -> bool, urls: seq<string>, regNums: seq<string>, steps: seq<Step>, s: Storage.State, n: nat)
    requires n <= |urls| <= |regNums| && |urls| <= |steps| && Total(f, |urls|)
    requires Grows(f, |urls|) && Keeps(f, inv, |urls|) && Builds(f, inv, regNums, steps, |urls|) && inv(s)
    ensures var p := Loop(f, urls, s, n);
      Built(p.cars, regNums, steps, s.nextPeopleId, p.state.nextPeopleId)
    decreases n
  {
    if n > 0 {
      LoopBuilt(f, inv, urls, regNums, steps, s, n - 1);
      LoopKeeps(f, inv, urls, s, n - 1);
      var p := Loop(f, urls, s, n - 1);
      var r := Loop(f, urls, s, n);
      if p.failure.None? {
        var (s', c) := f(p.state, n - 1);
        assert r == Next(p, (s', c), urls[n - 1]);
        if c.Ok? {
          assert FromLookup(c.value, regNums[n - 1], steps[n - 1].reply) && c.value.ownerId == p.state.nextPeopleId;
          assert s'.nextPeopleId == p.state.nextPeopleId + 1;
          assert |p.cars| == n - 1;
          BuiltAppend(p.cars, c.value, n - 1, regNums, steps, s.nextPeopleId, p.state.nextPeopleId);
          assert r.cars == p.cars + [c.value] && r.state == s';
        } else {
          assert Extends(p.state, s');
        }
      }
    }
  }

  /** `c` is the stored row `row` as it reads back with its owner from the
      people rows `ps`: same id, registration number, mark, model, year (0
      reads back absent), owner id and owner. */
  predicate RowOf(ps: seq<PeopleEntity.People>, row: CarEntity.Car, c: Model.Car) {
    Storage.FindPeople(ps, row.ownerId).Some?
    && c == CarEntity.ToModel(row.(owner := Storage.FindPeople(ps, row.ownerId).value))
  }

  /** A successful iteration appends exactly one car row, the row of the car
      it returns. */
  ghost predicate Appends(f: Iteration, inv: Storage.State -> bool, m: nat)
    requires Total(f, m)
  {
    forall st: Storage.State, i: nat :: i < m && inv(st) && f(st, i).1.Ok? ==>
      |f(st, i).0.cars| == |st.cars| + 1 && RowOf(f(st, i).0.peoples, f(st, i).0.cars[|st.cars|], f(st, i).1.value)
  }

  /** Until the loop fails, the cars it made are the car rows appended to the
      table, one per car, in the same order. */
  lemma {:induction false} LoopAppends(f: Iteration, inv: Storage.State -> bool, urls: seq<string>, s: Storage.State, n: nat)
    requires n <= |urls| && Total(f, |urls|)
    requires Grows(f, |urls|) && Keeps(f, inv, |urls|) && Appends(f, inv, |urls|) && inv(s)
    ensures var p := Loop(f, urls, s, n);
      p.failure.None? ==>
        |p.state.cars| == |s.cars| + |p.cars|
        && forall i :: 0 <= i < |p.cars| ==> RowOf(p.state.peoples, p.state.cars[|s.cars| + i], p.cars[i])
    decreases n
  {
    if n > 0 {
      LoopAppends(f, inv, urls, s, n - 1);
      LoopKeeps(f, inv, urls, s, n - 1);
      var p := Loop(f, urls, s, n - 1);
      if p.failure.None? {
        var (s', c) := f(p.state, n - 1);
        if c.Ok? {
          var r := Loop(f, urls, s, n);
          assert r == Next(p, (s', c), urls[n - 1]);
          assert r.cars == p.cars + [c.value] && r.state == s';
          assert Extends(p.state, s');
          assert s'.peoples == p.state.peoples + s'.peoples[|p.state.peoples|..];
          forall i | 0 <= i < |r.cars| ensures RowOf(s'.peoples, s'.cars[|s.cars| + i], r.cars[i]) {
            if i < |p.cars| {
              var row := p.state.cars[|s.cars| + i];
              assert s'.cars[|s.cars| + i] == s'.cars[..|p.state.cars|][|s.cars| + i] == row;
              assert r.cars[i] == p.cars[i] && RowOf(p.state.peoples, row, p.cars[i]);
              Storage.FindPeopleExtend(p.state.peoples, s'.peoples[|p.state.peoples|..], row.ownerId);
            }
          }
        }
      }
    }
  }

  /** A car from the next lookup whose owner id is the bound `hi` extends the
      built cars, and the bound moves past it. */
  lemma BuiltAppend(cars: seq<Model.Car>, c: Model.Car, k: nat, regNums: seq<string>, steps: seq<Step>, lo: nat, hi: nat)
    requires k == |cars| && k < |regNums| && k < |steps|
    requires Built(cars, regNums, steps, lo, hi)
    requires FromLookup(c, regNums[k], steps[k].reply) && c.ownerId == hi
    ensures Built(cars + [c], regNums, steps, lo, hi + 1)
  {
    var cars' := cars + [c];
    assert forall i | 0 <= i < |cars| :: cars'[i] == cars[i];
  }

  // The iterations of `Store` have those properties

  lemma IterationsGrow(client: CarInfoClient.Repository, regNums: seq<string>, steps: seq<Step>)
    requires |regNums| == |steps| && Oracle(steps)
    ensures Total(Iterations(client, regNums, steps), |regNums|)
    ensures Grows(Iterations(client, regNums, steps), |regNums|)
  {
    var f := Iterations(client, regNums, steps);
    forall st: Storage.State, i: nat | i < |regNums|
      ensures Extends(st, f(st, i).0)
    {
      OnboardEffect(st, client, regNums[i], steps[i]);
    }
  }

  lemma IterationsKeep(client: CarInfoClient.Repository, regNums: seq<string>, steps: seq<Step>)
    requires |regNums| == |steps| && Oracle(steps)
    ensures Total(Iterations(client, regNums, steps), |regNums|)
    ensures Keeps(Iterations(client, regNums, steps), Storage.Valid, |regNums|)
  {
    var f := Iterations(client, regNums, steps);
    forall st: Storage.State, i: nat | i < |regNums| && Storage.Valid(st)
      ensures Storage.Valid(f(st, i).0) && (f(st, i).1.Fail? ==> Classified(f(st, i).1.error))
    {
      OnboardEffect(st, client, regNums[i], steps[i]);
    }
  }

  lemma IterationsBuild(client: CarInfoClient.Repository, regNums: seq<string>, steps: seq<Step>)
    requires |regNums| == |steps| && Oracle(steps)
    ensures Total(Iterations(client, regNums, steps), |regNums|)
    ensures Builds(Iterations(client, regNums, steps), Storage.Valid, regNums, steps, |regNums|)
  {
    var f := Iterations(client, regNums, steps);
    forall st: Storage.State, i: nat | i < |regNums| && Storage.Valid(st) && f(st, i).1.Ok?
      ensures FromLookup(f(st, i).1.value, regNums[i], steps[i].reply)
        && f(st, i).1.value.ownerId == st.nextPeopleId && f(st, i).0.nextPeopleId == st.nextPeopleId + 1
    {
      OnboardSucceeds(st, client, regNums[i], steps[i]);
    }
  }

  lemma IterationsAppend(client: CarInfoClient.Repository, regNums: seq<string>, steps: seq<Step>)
    requires |regNums| == |steps| && Oracle(steps)
    ensures Total(Iterations(client, regNums, steps), |regNums|)
    ensures Appends(Iterations(client, regNums, steps), Storage.Valid, |regNums|)
  {
    var f := Iterations(client, regNums, steps);
    forall st: Storage.State, i: nat | i < |regNums| && Storage.Valid(st) && f(st, i).1.Ok?
      ensures |f(st, i).0.cars| == |st.cars| + 1 && RowOf(f(st, i).0.peoples, f(st, i).0.cars[|st.cars|], f(st, i).1.value)
    {
      OnboardSucceeds(st, client, regNums[i], steps[i]);
    }
  }

  /** `Store` on success: one car per registration number, in input order,
      each built from its own lookup with a new owner of its own, created by
      this call; every registration number was looked up exactly once, in
      order; the tables only grew, and the cars returned are the car rows
      appended, in the same order. */
  lemma StoreSucceeds(s: Storage.State, client: CarInfoClient.Repository, cmd: Command.CarStore, steps: seq<Step>)
    requires Storage.Valid(s) && |steps| == |cmd.regNums| && Oracle(steps)
    requires StoreSpec(s, client, cmd, steps).1.Ok?
    ensures var (s', r, requested) := StoreSpec(s, client, cmd, steps);
      |r.value| == |cmd.regNums| && requested == Urls(client, cmd.regNums)
      && (forall i :: 0 <= i < |r.value| ==> r.value[i].regNum == cmd.regNums[i])
      && (forall i :: 0 <= i < |r.value| ==> FromLookup(r.value[i], cmd.regNums[i], steps[i].reply))
      && (forall i, j :: 0 <= i < j < |r.value| ==> r.value[i].ownerId != r.value[j].ownerId)
      && (forall i :: 0 <= i < |r.value| ==> s.nextPeopleId <= r.value[i].ownerId < s'.nextPeopleId)
      && Extends(s, s') && |s'.cars| == |s.cars| + |r.value|
      && (forall i :: 0 <= i < |r.value| ==> RowOf(s'.peoples, s'.cars[|s.cars| + i], r.value[i]))
      && Storage.Valid(s')
  {
    var f, urls, n := Iterations(client, cmd.regNums, steps), Urls(client, cmd.regNums), |cmd.regNums|;
    IterationsGrow(client, cmd.regNums, steps);
    IterationsKeep(client, cmd.regNums, steps);
    IterationsBuild(client, cmd.regNums, steps);
    IterationsAppend(client, cmd.regNums, steps);
    LoopKeeps(f, Storage.Valid, urls, s, n);
    LoopRequests(f, urls, s, n);
    LoopBuilt(f, Storage.Valid, urls, cmd.regNums, steps, s, n);
    LoopGrows(f, urls, s, 0, n);
    LoopAppends(f, Storage.Valid, urls, s, n);
    var p := Loop(f, urls, s, n);
    assert p == Run(s, client, cmd.regNums, steps, n);
    assert Loop(f, urls, s, 0).state == s;
    assert urls[..n] == urls;
  }

  /** `Store` on failure: the lookups stop at the failing registration number
      `k`, the error is what iteration `k` reported (a classified error that
      the HTTP layer answers with 404 for NotFound and 500 otherwise), and the
      rows of iterations before `k` are still there. */
  lemma StoreFails(s: Storage.State, client: CarInfoClient.Repository, cmd: Command.CarStore, steps: seq<Step>)
    requires Storage.Valid(s) && |steps| == |cmd.regNums| && Oracle(steps)
    requires StoreSpec(s, client, cmd, steps).1.Fail?
    ensures var (s', r, requested) := StoreSpec(s, client, cmd, steps);
      var k := |requested| - 1;
      0 <= k < |cmd.regNums| && requested == Urls(client, cmd.regNums)[..k + 1]
      && Classified(r.error)
      && Run(s, client, cmd.regNums, steps, k).failure.None?
      && Extends(Run(s, client, cmd.regNums, steps, k).state, s')
      && Storage.Valid(s')
      && var (t, c) := Onboard(Run(s, client, cmd.regNums, steps, k).state, client, cmd.regNums[k], steps[k]);
         c.Fail? && r.error == c.error && s' == t
  {
    var f, urls, n := Iterations(client, cmd.regNums, steps), Urls(client, cmd.regNums), |cmd.regNums|;
    IterationsGrow(client, cmd.regNums, steps);
    IterationsKeep(client, cmd.regNums, steps);
    var p := Loop(f, urls, s, n);
    assert p == Run(s, client, cmd.regNums, steps, n);
    LoopKeeps(f, Storage.Valid, urls, s, n);
    LoopRequests(f, urls, s, n);
    LoopFirstFailure(f, urls, s, n);
    var k := |p.requested| - 1;
    LoopGrows(f, urls, s, k, n);
    assert Loop(f, urls, s, k) == Run(s, client, cmd.regNums, steps, k);
  }

  /** `Store` leaves the tables consistent, whether it succeeds or not. */
  lemma StoreKeepsValid(s: Storage.State, client: CarInfoClient.Repository, cmd: Command.CarStore, steps: seq<Step>)
    requires Storage.Valid(s) && |steps| == |cmd.regNums| && Oracle(steps)
    ensures Storage.Valid(StoreSpec(s, client, cmd, steps).0)
  {
    IterationsKeep(client, cmd.regNums, steps);
    LoopKeeps(Iterations(client, cmd.regNums, steps), Storage.Valid, Urls(client, cmd.regNums), s, |cmd.regNums|);
  }

  /** The listing command that asks for one registration number and nothing
      else (page, count and order left to their defaults). */
  function RegNumIndex(regNum: string): Command.CarIndex {
    Command.CarIndex(Some(regNum), None, None, None, None, None, None, None, None)
  }

  /** Round trip: after a successful `Store`, listing by the registration
      number of any stored car returns exactly that car, field for field,
      owner included. */
  lemma StoreThenIndex(s: Storage.State, client: CarInfoClient.Repository, cmd: Command.CarStore, steps: seq<Step>, i: nat)
    requires Storage.Valid(s) && |steps| == |cmd.regNums| && Oracle(steps)
    requires StoreSpec(s, client, cmd, steps).1.Ok? && i < |cmd.regNums|
    ensures var (s', r, _) := StoreSpec(s, client, cmd, steps);
      CarRepository.ListSpec(s', Resolve(RegNumIndex(cmd.regNums[i])), None) == Ok([r.value[i]])
  {
    StoreSucceeds(s, client, cmd, steps);
    var (s', r, _) := StoreSpec(s, client, cmd, steps);
    var q := Resolve(RegNumIndex(cmd.regNums[i]));
    var row := s'.cars[|s.cars| + i];
    assert RowOf(s'.peoples, row, r.value[i]);
    assert row in s'.cars;
    CarRepository.ListByRegNum(s', q, row);
  }

  // ---------------------------------------------------------------------------
  // Update and Delete

  /** The update query carries the command's id and fields unchanged. */
  function UpdateQuery(cmd: Command.CarUpdate): (q: Query.CarUpdate)
    ensures q.id == cmd.id && q.regNum == cmd.regNum && q.mark == cmd.mark
    ensures q.model == cmd.model && q.year == cmd.year
  {
    Query.CarUpdate(cmd.id, cmd.regNum, cmd.mark, cmd.model, cmd.year)
  }

  /** The delete query carries the command's id. */
  function DeleteQuery(cmd: Command.CarDelete): (q: Query.CarDelete)
    ensures q.id == cmd.id
  {
    Query.CarDelete(cmd.id)
  }

  // ---------------------------------------------------------------------------
  // The service object

  class Service {
    const carRepository: CarRepository.Repository
    const carInfoRepository: CarInfoClient.Repository
    const ownerRepository: PeopleRepository.Repository

    constructor (carRepository: CarRepository.Repository, carInfoRepository: CarInfoClient.Repository,
                 ownerRepository: PeopleRepository.Repository)
      ensures this.carRepository == carRepository && this.carInfoRepository == carInfoRepository
      ensures this.ownerRepository == ownerRepository
    {
      this.carRepository := carRepository;
      this.carInfoRepository := carInfoRepository;
      this.ownerRepository := ownerRepository;
    }

    /** Both repositories work on the same database, whose tables are consistent. */
    ghost predicate Valid()
      reads carRepository.db
    {
      ownerRepository.db == carRepository.db && Storage.Valid(carRepository.db.Snapshot())
    }

    /** Resolves the defaults into a list query and returns what the
        repository returns, error included. */
    method Index(cmd: Command.CarIndex, fault: Option<string>) returns (r: Result<seq<Model.Car>>)
      ensures r == CarRepository.ListSpec(carRepository.db.Snapshot(), Resolve(cmd), fault)
    {
      var qry := Query.CarList(cmd.regNum, cmd.mark, cmd.model, cmd.year, cmd.ownerName, cmd.ownerSurname, "", 0, 0);
      if cmd.page.None? || cmd.page.value <= 0 {
        qry := qry.(page := DefaultPage);
      } else {
        qry := qry.(page := cmd.page.value);
      }
      if cmd.count.None? || cmd.count.value <= 0 {
        qry := qry.(count := DefaultCount);
      } else {
        qry := qry.(count := cmd.count.value);
      }
      if cmd.order.None? || cmd.order.value == "" || (cmd.order.value != "asc" && cmd.order.value != "desc") {
        qry := qry.(order := DefaultOrder);
      } else {
        qry := qry.(order := cmd.order.value);
      }
      r := carRepository.List(qry, fault);
    }

    /** One pass of `Store`'s loop body: look up the car info for `regNum`,
        create its owner, create the car; the first error is returned as is. */
    method StoreOne(regNum: string, step: Step) returns (r: Result<Model.Car>)
      requires ownerRepository.db == carRepository.db && CarInfoClient.OwnerPresent(step.reply)
      modifies carRepository.db
      ensures (carRepository.db.Snapshot(), r) == Onboard(old(carRepository.db.Snapshot()), carInfoRepository, regNum, step)
    {
      var qryCarInfo := Query.CarInfo(regNum);
      var carInfo := CarInfoClient.GetCarInfo(carInfoRepository, qryCarInfo, step.reply);
      if carInfo.Fail? {
        return Fail(carInfo.error);
      }
      CarInfoClient.GetCarInfoSucceeds(carInfoRepository, qryCarInfo, step.reply);
      var owner := carInfo.value.owner.value;
      var people := ownerRepository.Create(Query.PeopleCreate(owner.name, owner.surname, owner.patronymic), step.ownerFault);
      if people.Fail? {
        return Fail(people.error);
      }
      r := carRepository.Create(
        Query.CarCreate(regNum, carInfo.value.mark, carInfo.value.model, carInfo.value.year, people.value.id),
        step.insertFault, step.reloadFault);
    }

    /** Onboards the registration numbers in order and stops at the first
        error, keeping the rows already written. The cars go into a
        preallocated slice; `requested` records the URLs the car info
        service was asked for. */
    method Store(cmd: Command.CarStore, steps: seq<Step>) returns (r: Result<seq<Model.Car>>, ghost requested: seq<string>)
      requires Valid() && |steps| == |cmd.regNums| && Oracle(steps)
      modifies carRepository.db
      ensures Valid()
      ensures (carRepository.db.Snapshot(), r, requested)
        == StoreSpec(old(carRepository.db.Snapshot()), carInfoRepository, cmd, steps)
    {
      ghost var s0 := carRepository.db.Snapshot();
      IterationsTotal(carInfoRepository, cmd.regNums, steps);
      StoreKeepsValid(s0, carInfoRepository, cmd, steps);
      var cars := new Model.Car[|cmd.regNums|](_ => Model.ZeroCar);
      requested := [];
      for i := 0 to |cmd.regNums|
        invariant Run(s0, carInfoRepository, cmd.regNums, steps, i) == Progress(carRepository.db.Snapshot(), cars[..i], None, requested)
      {
        var url := CarInfoClient.RequestUrl(carInfoRepository, cmd.regNums[i]);
        requested := requested + [url];
        var car := StoreOne(cmd.regNums[i], steps[i]);
        StoreStep(s0, carInfoRepository, cmd.regNums, steps, i, carRepository.db.Snapshot(), car);
        if car.Fail? {
          r := Fail(car.error);
          return;
        }
        cars[i] := car.value;
        assert cars[..i + 1] == cars[..i] + [car.value];
      }
      r := Ok(cars[..]);
      assert cars[..] == cars[..|cmd.regNums|];
    }

    /** Hands the command's fields to the repository and returns its answer. */
    method Update(cmd: Command.CarUpdate, fetchFault: Option<string>, saveFault: Option<string>) returns (r: Result<Model.Car>)
      requires Valid()
      modifies carRepository.db
      ensures Valid()
      ensures (carRepository.db.Snapshot(), r)
        == CarRepository.UpdateSpec(old(carRepository.db.Snapshot()), UpdateQuery(cmd), fetchFault, saveFault)
    {
      CarRepository.UpdatePreservesValid(carRepository.db.Snapshot(), UpdateQuery(cmd), fetchFault, saveFault);
      var qry := Query.CarUpdate(cmd.id, cmd.regNum, cmd.mark, cmd.model, cmd.year);
      r := carRepository.Update(qry, fetchFault, saveFault);
    }

    /** Hands the command's id to the repository and returns its error. */
    method Delete(cmd: Command.CarDelete, fault: Option<string>) returns (err: Option<Error>)
      requires Valid()
      modifies carRepository.db
      ensures Valid()
      ensures (carRepository.db.Snapshot(), err)
        == CarRepository.DeleteSpec(old(carRepository.db.Snapshot()), DeleteQuery(cmd), fault)
    {
      CarRepository.DeletePreservesValid(carRepository.db.Snapshot(), DeleteQuery(cmd), fault);
      var qry := Query.CarDelete(cmd.id);
      err := carRepository.Delete(qry, fault);
    }
  }
}
