/**
  `OrdersController`: the decision table of the five HTTP actions. Each action is a
  function of the Orders table (and, for the listing, the mirror table) to the action
  result it returns and the tables it leaves behind. AutoMapper's mappings between orders
  and transfer objects are field-for-field copies.

  Database failures cannot be computed from the tables, so the listing takes them as a
  parameter: whether the query throws, whether the truncate throws, and where the mirror
  writes first fail.
 */
module OrdersController {
  import opened DotNet
  import opened Domain
  import Repo = OrderRepository
  import opened FilteredOrdersLogger

  datatype OrderDto = OrderDto(
    id: int,
    name: string,
    weight: real,
    district: string,
    deliveryDateTime: Ticks)

  /** `AddOrderRequestDto` and `UpdateOrderRequestDto`: the four business fields. */
  datatype OrderRequest = OrderRequest(
    name: string,
    weight: real,
    district: string,
    deliveryDateTime: Ticks)

  /** `mapper.Map<OrderDto>(order)`. */
  function ToDto(o: Order): OrderDto
  {
    OrderDto(o.id, o.name, o.weight, o.district, o.deliveryDateTime)
  }

  /** `mapper.Map<List<OrderDto>>(orders)`. */
  function ToDtos(orders: seq<Order>): (r: seq<OrderDto>)
    ensures |r| == |orders|
    ensures forall i :: 0 <= i < |orders| ==> r[i] == ToDto(orders[i])
  {
    seq(|orders|, i requires 0 <= i < |orders| => ToDto(orders[i]))
  }

  /** `mapper.Map<Order>(request)`: the request's fields, with the Id left at 0. */
  function FromRequest(req: OrderRequest): Order
  {
    Order(0, req.name, req.weight, req.district, req.deliveryDateTime)
  }

  /** The action results the controller produces. */
  datatype ActionResult =
    | OkList(list: seq<OrderDto>)
    | OkOrder(order: OrderDto)
    | CreatedAt(actionName: string, routeId: int, value: OrderDto)
    | BadRequest(message: string)
    | NotFound
    | Status(code: int, message: string)

  /** The HTTP status code each result is sent with. */
  function StatusCode(r: ActionResult): int
  {
    match r
    case OkList(_) => 200
    case OkOrder(_) => 200
    case CreatedAt(_, _, _) => 201
    case BadRequest(_) => 400
    case NotFound => 404
    case Status(code, _) => code
  }

  const ServerErrorMessage: string := "Произошла ошибка на сервере."
  const GetByIdAction: string := "GetById"

  // ---------------------------------------------------------------------------
  // GET: the filtered listing
  // ---------------------------------------------------------------------------

  /** The character class `[a-zA-Zа-яА-ЯёЁ\s]`: ASCII letters, the Cyrillic letters
      U+0410..U+044F, `Ё` (U+0401), `ё` (U+0451), and white space. */
  predicate IsLetterOrWhiteSpace(c: char)
  {
    || ('a' <= c <= 'z') || ('A' <= c <= 'Z')
    || ('а' <= c <= 'я') || ('А' <= c <= 'Я')
    || c == 'ё' || c == 'Ё'
    || IsWhiteSpace(c)
  }

  /** `Regex.IsMatch(district, @"^[a-zA-Zа-яА-ЯёЁ\s]+$")`. A final line feed that `$`
      may stop before is itself in the class, so a match covers the whole string. */
  predicate MatchesDistrictQuery(s: string)
  {
    |s| > 0 && forall i :: 0 <= i < |s| ==> IsLetterOrWhiteSpace(s[i])
  }

  /** The district query parameter that the action turns away before any query. */
  predicate RejectsDistrict(district: Option<string>)
  {
    district.Some? && !IsBlank(district.value) && !MatchesDistrictQuery(district.value)
  }

  /** The repository and mirror calls the listing made, in order. `Queried` records the call
      of `GetAllAsync`, including one that throws while computing the window before the
      database is reached. */
  datatype Effect = Queried | Cleared | Logged

  /** Where the database fails during a listing: the query itself, the truncate, or the
      mirror writes. */
  datatype ListFaults = ListFaults(queryFails: bool, clearFails: bool, mirrorFault: MirrorFault)

  const NoFaults: ListFaults := ListFaults(false, false, NoFault)

  datatype ListOutcome = ListOutcome(result: ActionResult, mirror: Table, effects: seq<Effect>)

  /** The listing once the query has its window: run it, clear the mirror, refill it from
      the result. Any failure on the way is 500 with the generic message; otherwise the
      (clamped) result is answered with 200, even when it is empty. */
  function RunQuery(mirror: Table, orders: seq<Order>, faults: ListFaults): (r: ListOutcome)
    ensures r.effects != [] && r.effects[0] == Queried
    ensures faults.queryFails ==> r.effects == [Queried]
    ensures Logged in r.effects ==> r.effects == [Queried, Cleared, Logged]
    ensures var logged := LogOrders(ClearTable(mirror), orders, faults.mirrorFault);
      && (r.result.OkList? <==> !faults.queryFails && !faults.clearFails && logged.completed)
      && (!r.result.OkList? ==> r.result == Status(500, ServerErrorMessage))
      && (faults.queryFails || faults.clearFails ==> r.mirror == mirror)
      && (!faults.queryFails && !faults.clearFails ==> r.mirror == logged.table)
    ensures r.result.OkList? ==>
      && r.effects == [Queried, Cleared, Logged]
      && |r.result.list| == |orders| == |r.mirror|
      && forall i :: 0 <= i < |orders| ==>
        && r.result.list[i] == ToDto(Clamped(orders[i]))
        && r.mirror[i] == RowOf(Clamped(orders[i]))
  {
    if faults.queryFails then
      ListOutcome(Status(500, ServerErrorMessage), mirror, [Queried])
    else if faults.clearFails then
      ListOutcome(Status(500, ServerErrorMessage), mirror, [Queried, Cleared])
    else
      var logged := LogOrders(ClearTable(mirror), orders, faults.mirrorFault);
      if logged.completed then
        ListOutcome(OkList(ToDtos(logged.orders)), logged.table, [Queried, Cleared, Logged])
      else
        ListOutcome(Status(500, ServerErrorMessage), logged.table, [Queried, Cleared, Logged])
  }

  /** `GetAll(fromDate, district)`.
      A district that is given, not blank, and outside the letter class is answered with
      400 and the district message before anything else happens. An `ArgumentException`
      raised inside (the window end overflowing) becomes 400 with its message; past that
      the listing is `RunQuery`. */
  function GetAll(store: Repo.Store, mirror: Table, fromDate: Option<Ticks>, district: Option<string>,
                  faults: ListFaults): (r: ListOutcome)
    ensures RejectsDistrict(district) <==> r.effects == []
    ensures RejectsDistrict(district) ==> r.result == BadRequest(DistrictMessage) && r.mirror == mirror
    ensures r.effects != [] ==> r.effects[0] == Queried
    ensures faults.queryFails ==> r.effects == [] || r.effects == [Queried]
    ensures Logged in r.effects ==> r.effects == [Queried, Cleared, Logged]
    ensures StatusCode(r.result) in {200, 400, 500}
    ensures r.result.Status? ==> r.result == Status(500, ServerErrorMessage)
    ensures r.result.BadRequest? ==>
      r.result.message == DistrictMessage || r.result.message == DateArithmeticMessage
    ensures r.result.OkList? ==>
      && r.effects == [Queried, Cleared, Logged]
      && Repo.GetAll(store, fromDate, district).Some?
      && var orders := Repo.GetAll(store, fromDate, district).value;
      && |r.result.list| == |orders| == |r.mirror|
      && forall i :: 0 <= i < |orders| ==>
        && r.result.list[i] == ToDto(Clamped(orders[i]))
        && r.mirror[i] == RowOf(Clamped(orders[i]))
    ensures !RejectsDistrict(district) && Repo.GetAll(store, fromDate, district).Some? ==>
      && var logged := LogOrders(ClearTable(mirror), Repo.GetAll(store, fromDate, district).value, faults.mirrorFault);
      && (r.result.OkList? <==> !faults.queryFails && !faults.clearFails && logged.completed)
      && (!r.result.OkList? ==> r.result == Status(500, ServerErrorMessage))
      && (faults.queryFails || faults.clearFails ==> r.mirror == mirror)
      && (!faults.queryFails && !faults.clearFails ==> r.mirror == logged.table)
  {
    if RejectsDistrict(district) then
      ListOutcome(BadRequest(DistrictMessage), mirror, [])
    else
      match Repo.GetAll(store, fromDate, district)
      case None => ListOutcome(BadRequest(DateArithmeticMessage), mirror, [Queried])
      case Some(orders) => RunQuery(mirror, orders, faults)
  }

  /** A null or blank district skips the check and the store is queried. */
  lemma BlankDistrictIsQueried(store: Repo.Store, mirror: Table, fromDate: Option<Ticks>,
                               district: Option<string>, faults: ListFaults)
    requires district.None? || IsBlank(district.value)
    ensures GetAll(store, mirror, fromDate, district, faults).effects != []
  {
  }

  /** Without faults, a listing that matches nothing answers 200 with an empty list and
      leaves the mirror empty; a listing never answers 404. */
  lemma NothingMatchedIsOk(store: Repo.Store, mirror: Table, fromDate: Option<Ticks>, district: Option<string>)
    requires !RejectsDistrict(district)
    requires Repo.GetAll(store, fromDate, district) == Some([])
    ensures GetAll(store, mirror, fromDate, district, NoFaults) == ListOutcome(OkList([]), [], [Queried, Cleared, Logged])
  {
  }

  /** Without faults, an accepted district and a representable window always answer 200,
      and the response and the mirror hold the same orders with the same clamped dates. */
  lemma ListingSucceeds(store: Repo.Store, mirror: Table, fromDate: Option<Ticks>, district: Option<string>)
    requires !RejectsDistrict(district)
    requires Repo.GetAll(store, fromDate, district).Some?
    ensures var r := GetAll(store, mirror, fromDate, district, NoFaults);
      && r.result.OkList?
      && |r.result.list| == |r.mirror|
      && forall i :: 0 <= i < |r.mirror| ==>
        && r.result.list[i].id == r.mirror[i].id
        && r.result.list[i].deliveryDateTime == r.mirror[i].deliveryDateTime
        && Jan1st1753 <= r.result.list[i].deliveryDateTime <= Dec31st9999
  {
    var orders := Repo.GetAll(store, fromDate, district).value;
    var r := GetAll(store, mirror, fromDate, district, NoFaults);
    assert r == RunQuery(mirror, orders, NoFaults);
    assert r.result.OkList?;
    forall i | 0 <= i < |r.mirror|
      ensures r.result.list[i].id == r.mirror[i].id
      ensures r.result.list[i].deliveryDateTime == r.mirror[i].deliveryDateTime
      ensures Jan1st1753 <= r.result.list[i].deliveryDateTime <= Dec31st9999
    {
      assert r.result.list[i] == ToDto(Clamped(orders[i]));
      assert r.mirror[i] == RowOf(Clamped(orders[i]));
    }
  }

  /** The window end overflowing is an `ArgumentException`: 400 with its message, after
      the query was attempted, with the mirror untouched. */
  lemma WindowOverflowIsBadRequest(store: Repo.Store, mirror: Table, t: Ticks, district: Option<string>,
                                   faults: ListFaults)
    requires !RejectsDistrict(district)
    requires t + Repo.WindowMinutes * TicksPerMinute > MaxTicks
    ensures var r := GetAll(store, mirror, Some(t), district, faults);
      r.result == BadRequest(DateArithmeticMessage) && r.mirror == mirror && r.effects == [Queried]
  {
  }

  /** A failing mirror write answers 500; the truncate has already emptied the mirror, so
      only the rows written before the failure remain. */
  lemma MirrorFailureIsServerError(store: Repo.Store, mirror: Table, fromDate: Option<Ticks>,
                                   district: Option<string>, k: nat)
    requires !RejectsDistrict(district)
    requires Repo.GetAll(store, fromDate, district).Some?
    requires k < |Repo.GetAll(store, fromDate, district).value|
    ensures var r := GetAll(store, mirror, fromDate, district, ListFaults(false, false, FailsAtInsert(k)));
      r.result == Status(500, ServerErrorMessage) && |r.mirror| == k
  {
  }

  /** Any database failure after a successful window computation answers 500 with the
      generic message: a failing query or truncate leaves the mirror as it was, and a
      failing mirror command leaves only what was written before it. */
  lemma DatabaseFailureIsServerError(store: Repo.Store, mirror: Table, fromDate: Option<Ticks>,
                                     district: Option<string>, faults: ListFaults)
    requires !RejectsDistrict(district)
    requires Repo.GetAll(store, fromDate, district).Some?
    requires || faults.queryFails || faults.clearFails
             || faults.mirrorFault.FailsBeforeInserts? || faults.mirrorFault.FailsAfterInserts?
    ensures var r := GetAll(store, mirror, fromDate, district, faults);
      && r.result == Status(500, ServerErrorMessage)
      && (faults.queryFails || faults.clearFails ==> r.mirror == mirror)
      && (!faults.queryFails && !faults.clearFails && faults.mirrorFault.FailsBeforeInserts? ==> r.mirror == [])
      && (!faults.queryFails && !faults.clearFails && faults.mirrorFault.FailsAfterInserts? ==>
            |r.mirror| == |Repo.GetAll(store, fromDate, district).value|)
  {
  }

  // ---------------------------------------------------------------------------
  // The district letter classes
  // ---------------------------------------------------------------------------

  /** Every district the entity's rule accepts is accepted by the listing's check. */
  lemma EntityDistrictsPassQuery(s: string)
    requires MatchesLettersPattern(s)
    ensures MatchesDistrictQuery(s)
  {
  }

  /** The two classes disagree: the listing's check accepts Cyrillic districts that the
      entity's rule on District rejects. */
  lemma CyrillicDistrictDisagreement()
    ensures MatchesDistrictQuery("Центральный")
    ensures !MatchesLettersPattern("Центральный")
  {
    assert !IsAsciiLetterOrWhiteSpace("Центральный"[0]);
  }

  /** "Invalid District" consists of letters and a space, so the listing's check lets it
      through to the query. */
  lemma InvalidDistrictIsAccepted(store: Repo.Store, mirror: Table, faults: ListFaults)
    ensures !RejectsDistrict(Some("Invalid District"))
    ensures GetAll(store, mirror, None, Some("Invalid District"), faults).result != BadRequest(DistrictMessage)
  {
    assert MatchesDistrictQuery("Invalid District");
  }

  // ---------------------------------------------------------------------------
  // GET by id, POST, PUT, DELETE
  // ---------------------------------------------------------------------------

  /** `GetById(id)`: 404 without a row, otherwise 200 with the mapped order. */
  function GetById(store: Repo.Store, id: int): (r: ActionResult)
    ensures r.NotFound? <==> id !in store
    ensures id in store ==> r == OkOrder(ToDto(store[id])) && StatusCode(r) == 200
  {
    match Repo.GetById(store, id)
    case None => NotFound
    case Some(o) => OkOrder(ToDto(o))
  }

  /** `Create(request)`: stores the mapped request under the id the database assigns and
      answers 201 pointing at `GetById` with that id, carrying the mapped stored order. */
  function Create(store: Repo.Store, req: OrderRequest, newId: int): (r: (ActionResult, Repo.Store))
    requires newId !in store
    ensures r.1.Keys == store.Keys + {newId}
    ensures StatusCode(r.0) == 201
    ensures r.0 == CreatedAt(GetByIdAction, newId, ToDto(r.1[newId]))
    ensures r.1[newId] == Order(newId, req.name, req.weight, req.district, req.deliveryDateTime)
    ensures forall k :: k in store ==> r.1[k] == store[k]
  {
    var (stored, store') := Repo.Create(store, FromRequest(req), newId);
    (CreatedAt(GetByIdAction, stored.id, ToDto(stored)), store')
  }

  /** `Update(id, request)`: 404 with the table unchanged when the id is absent, otherwise
      200 with the mapped updated order. */
  function Update(store: Repo.Store, id: int, req: OrderRequest): (r: (ActionResult, Repo.Store))
    ensures r.0.NotFound? <==> id !in store
    ensures r.0.NotFound? ==> r.1 == store
    ensures id in store ==>
      && r.1.Keys == store.Keys
      && r.0 == OkOrder(ToDto(r.1[id]))
      && r.1[id] == store[id].(name := req.name, weight := req.weight,
                               district := req.district, deliveryDateTime := req.deliveryDateTime)
    ensures forall k :: k in store && k != id ==> k in r.1 && r.1[k] == store[k]
  {
    var (updated, store') := Repo.Update(store, id, FromRequest(req));
    match updated
    case None => (NotFound, store')
    case Some(o) => (OkOrder(ToDto(o)), store')
  }

  /** `Delete(id)`: 404 with the table unchanged when the id is absent, otherwise 200
      with the mapped order as it was before removal. */
  function Delete(store: Repo.Store, id: int): (r: (ActionResult, Repo.Store))
    ensures r.0.NotFound? <==> id !in store
    ensures r.0.NotFound? ==> r.1 == store
    ensures id in store ==> r.0 == OkOrder(ToDto(store[id])) && id !in r.1
    ensures r.1.Keys == store.Keys - {id}
    ensures forall k :: k in r.1 ==> r.1[k] == store[k]
  {
    var (removed, store') := Repo.Delete(store, id);
    match removed
    case None => (NotFound, store')
    case Some(o) => (OkOrder(ToDto(o)), store')
  }

  /** The scenario of a created order read back: POST answers 201 and a GET by the route
      id answers 200 with the same transfer object. */
  lemma CreateThenGet(store: Repo.Store, req: OrderRequest, newId: int)
    requires newId !in store
    ensures var (created, store') := Create(store, req, newId);
      GetById(store', created.routeId) == OkOrder(created.value)
  {
  }

  /** A PUT followed by a GET of the same id answers what the PUT answered: 404 both times
      for a missing id, otherwise 200 with the same updated transfer object. */
  lemma UpdateThenGet(store: Repo.Store, id: int, req: OrderRequest)
    ensures var (updated, store') := Update(store, id, req);
      GetById(store', id) == updated
  {
  }

  /** After a DELETE, a GET of the same id answers 404. */
  lemma DeleteThenGet(store: Repo.Store, id: int)
    ensures GetById(Delete(store, id).1, id) == NotFound
  {
  }
}
