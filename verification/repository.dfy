/**
  `SQLOrderRepository`: the Orders table as a map from Id to order, and the five store
  operations over it. Every operation that finds no row under the requested id answers
  None (the repository's `null`) and leaves the table as it was.

  The database returns query rows in no specified order; the model lists them in ascending
  Id order, and every property stated about a query speaks only of which orders it holds.
 */
module OrderRepository {
  import opened DotNet
  import opened Domain

  /** The Orders table: each row keyed by its primary key. */
  type Store = map<int, Order>

  /** The key of every row is the order's own Id. */
  ghost predicate WellKeyed(s: Store)
  {
    forall id :: id in s ==> s[id].id == id
  }

  /** The width of the delivery-date window that a `fromDate` filter opens. */
  const WindowMinutes: int := 30

  // ---------------------------------------------------------------------------
  // Listing the table
  // ---------------------------------------------------------------------------

  // Under a resource limit the solver does not always find a witness for an existential
  // on its own; these two lemmas argue by contradiction so that the `:|` choices in
  // HasLeast and RowsComplete have an `exists` to pick from.

  lemma SomeMember(ks: set<int>)
    requires ks != {}
    ensures exists m :: m in ks
  {
    if forall m :: m !in ks {
      assert false;
    }
  }

  lemma SomeKeyOf(s: Store, o: Order)
    requires o in s.Values
    ensures exists k :: k in s && s[k] == o
  {
    if forall k :: k in s ==> s[k] != o {
      assert false;
    }
  }

  predicate IsLeast(m: int, ks: set<int>)
  {
    m in ks && forall k :: k in ks ==> m <= k
  }

  lemma {:induction false} HasLeast(ks: set<int>)
    requires ks != {}
    ensures exists m :: IsLeast(m, ks)
    decreases |ks|
  {
    SomeMember(ks);
    var x :| x in ks;
    var rest := ks - {x};
    if rest == {} {
      assert ks == {x};
      assert IsLeast(x, ks);
    } else {
      HasLeast(rest);
      var m :| IsLeast(m, rest);
      assert ks == rest + {x};
      if x < m {
        assert IsLeast(x, ks);
      } else {
        assert IsLeast(m, ks);
      }
    }
  }

  function Least(ks: set<int>): (m: int)
    requires ks != {}
    ensures IsLeast(m, ks)
  {
    HasLeast(ks);
    var m :| IsLeast(m, ks);
    m
  }

  /** The keys of `ks` in ascending order, each once. */
  function Ascending(ks: set<int>): (r: seq<int>)
    ensures forall k :: k in r <==> k in ks
    ensures forall i, j :: 0 <= i < j < |r| ==> r[i] < r[j]
    ensures |r| == |ks|
    decreases |ks|
  {
    if ks == {} then []
    else
      var m := Least(ks);
      [m] + Ascending(ks - {m})
  }

  /** Ids strictly ascending along the list; in particular no order occurs twice. */
  predicate IdsAscending(xs: seq<Order>)
  {
    forall i, j :: 0 <= i < j < |xs| ==> xs[i].id < xs[j].id
  }

  /** All rows of the table, in ascending key order. */
  function Rows(s: Store): (r: seq<Order>)
    ensures forall o :: o in r <==> o in s.Values
    ensures |r| == |s|
    ensures WellKeyed(s) ==> IdsAscending(r)
  {
    var keys := Ascending(s.Keys);
    var r := seq(|keys|, i requires 0 <= i < |keys| => s[keys[i]]);
    RowsComplete(s, keys, r);
    r
  }

  lemma RowsComplete(s: Store, keys: seq<int>, r: seq<Order>)
    requires forall k :: k in keys <==> k in s
    requires forall i, j :: 0 <= i < j < |keys| ==> keys[i] < keys[j]
    requires |r| == |keys| && forall i :: 0 <= i < |keys| ==> keys[i] in s && r[i] == s[keys[i]]
    ensures forall o :: o in r <==> o in s.Values
    ensures WellKeyed(s) ==> IdsAscending(r)
  {
    forall o | o in s.Values
      ensures o in r
    {
      SomeKeyOf(s, o);
      var k :| k in s && s[k] == o;
      var i :| 0 <= i < |keys| && keys[i] == k;
      assert r[i] == o;
    }
    forall o | o in r
      ensures o in s.Values
    {
      var i :| 0 <= i < |r| && r[i] == o;
      assert keys[i] in keys;
    }
  }

  // ---------------------------------------------------------------------------
  // GetAllAsync
  // ---------------------------------------------------------------------------

  /** The two optional filters of `GetAllAsync`, after `fromDate.AddMinutes(30)` succeeded. */
  datatype Criteria = Criteria(window: Option<(Ticks, Ticks)>, district: Option<string>)

  /** `x.DeliveryDateTime >= fromDate && x.DeliveryDateTime <= toDate` when a window is set,
      and `x.District == district` when a district that is not blank was given. */
  predicate Matches(o: Order, c: Criteria)
  {
    && (c.window.Some? ==> c.window.value.0 <= o.deliveryDateTime <= c.window.value.1)
    && (c.district.Some? && !IsBlank(c.district.value) ==> o.district == c.district.value)
  }

  /** `r` is `xs` with some elements left out: the others keep their relative order. */
  predicate SubsequenceOf(r: seq<Order>, xs: seq<Order>)
    decreases |xs|
  {
    if xs == [] then r == []
    else (r != [] && r[0] == xs[0] && SubsequenceOf(r[1..], xs[1..])) || SubsequenceOf(r, xs[1..])
  }

  /** The orders of `xs` that meet the criteria, in their original order. */
  function Select(xs: seq<Order>, c: Criteria): (r: seq<Order>)
    ensures forall o :: o in r <==> o in xs && Matches(o, c)
    ensures SubsequenceOf(r, xs)
    ensures |r| <= |xs|
    ensures IdsAscending(xs) ==> IdsAscending(r)
  {
    if xs == [] then []
    else
      var rest := Select(xs[1..], c);
      assert IdsAscending(xs) ==> forall o :: o in rest ==> xs[0].id < o.id;
      if Matches(xs[0], c) then
        assert ([xs[0]] + rest)[1..] == rest;
        [xs[0]] + rest
      else rest
  }

  /** `GetAllAsync(fromDate, district)`: every order whose delivery date lies in the closed
      window [fromDate, fromDate + 30 minutes] (when a date is given) and whose district
      equals the given one (when it is not blank), the two filters joined by AND. None is
      the `ArgumentOutOfRangeException` of `AddMinutes` when the window end overflows. */
  function GetAll(s: Store, fromDate: Option<Ticks>, district: Option<string>): (r: Option<seq<Order>>)
    ensures r.None? <==> fromDate.Some? && fromDate.value + WindowMinutes * TicksPerMinute > MaxTicks
    ensures r.Some? ==> forall o :: o in r.value <==>
      && o in s.Values
      && (fromDate.Some? ==> fromDate.value <= o.deliveryDateTime <= fromDate.value + WindowMinutes * TicksPerMinute)
      && (district.Some? && !IsBlank(district.value) ==> o.district == district.value)
    ensures r.Some? && WellKeyed(s) ==> IdsAscending(r.value)
  {
    match fromDate
    case None => Some(Select(Rows(s), Criteria(None, district)))
    case Some(t) =>
      match AddMinutes(t, WindowMinutes)
      case None => None
      case Some(toDate) => Some(Select(Rows(s), Criteria(Some((t, toDate)), district)))
  }

  /** With no date and no usable district, the listing holds every order in the table. */
  lemma GetAllUnfiltered(s: Store, district: Option<string>)
    requires district.None? || IsBlank(district.value)
    ensures GetAll(s, None, district).Some?
    ensures forall o :: o in GetAll(s, None, district).value <==> o in s.Values
    ensures |GetAll(s, None, district).value| == |s|
  {
    var xs := Rows(s);
    var c := Criteria(None, district);
    SelectAll(xs, c);
  }

  lemma {:induction false} SelectAll(xs: seq<Order>, c: Criteria)
    requires forall o :: o in xs ==> Matches(o, c)
    ensures Select(xs, c) == xs
  {
    if xs != [] {
      assert xs[0] in xs;
      assert forall o :: o in xs[1..] ==> o in xs;
      SelectAll(xs[1..], c);
    }
  }

  /** On a well-keyed table the listing never holds an order twice, and every order it
      holds is the row stored under that order's Id. */
  lemma GetAllCountsMatches(s: Store, fromDate: Option<Ticks>, district: Option<string>)
    requires WellKeyed(s)
    requires GetAll(s, fromDate, district).Some?
    ensures forall i, j :: 0 <= i < j < |GetAll(s, fromDate, district).value| ==>
      GetAll(s, fromDate, district).value[i] != GetAll(s, fromDate, district).value[j]
    ensures forall o :: o in GetAll(s, fromDate, district).value ==> o.id in s && s[o.id] == o
  {
  }

  // ---------------------------------------------------------------------------
  // GetByIdAsync, CreateAsync, UpdateAsync, DeleteAsync
  // ---------------------------------------------------------------------------

  /** `GetByIdAsync(id)`: the order stored under `id`, or None. */
  function GetById(s: Store, id: int): (r: Option<Order>)
    ensures r.None? <==> id !in s
    ensures r.Some? ==> r.value == s[id]
  {
    if id in s then Some(s[id]) else None
  }

  /** `CreateAsync(order)`: the database's identity column assigns `newId`, a key not yet in
      the table; the stored order and the returned one carry it. */
  function Create(s: Store, order: Order, newId: int): (r: (Order, Store))
    requires newId !in s
    ensures r.0.id == newId
    ensures r.0.(id := order.id) == order
    ensures r.1.Keys == s.Keys + {newId}
    ensures r.1[newId] == r.0
    ensures forall k :: k in s ==> r.1[k] == s[k]
  {
    var stored := order.(id := newId);
    (stored, s[newId := stored])
  }

  /** `UpdateAsync(id, order)`: overwrites exactly Name, Weight, District and
      DeliveryDateTime of the stored order; the stored Id stays and `order.id` is ignored. */
  function Update(s: Store, id: int, order: Order): (r: (Option<Order>, Store))
    ensures r.0.None? <==> id !in s
    ensures r.0.None? ==> r.1 == s
    ensures r.0.Some? ==>
      && r.0.value.id == s[id].id
      && r.0.value.name == order.name
      && r.0.value.weight == order.weight
      && r.0.value.district == order.district
      && r.0.value.deliveryDateTime == order.deliveryDateTime
    ensures r.0.Some? ==> r.1.Keys == s.Keys && r.1[id] == r.0.value
    ensures forall k :: k in s && k != id ==> k in r.1 && r.1[k] == s[k]
  {
    if id !in s then (None, s)
    else
      var updated := s[id].(name := order.name, weight := order.weight,
                            district := order.district, deliveryDateTime := order.deliveryDateTime);
      (Some(updated), s[id := updated])
  }

  /** `DeleteAsync(id)`: removes the row and answers it as it was before removal. */
  function Delete(s: Store, id: int): (r: (Option<Order>, Store))
    ensures r.0.None? <==> id !in s
    ensures r.0.None? ==> r.1 == s
    ensures r.0.Some? ==> r.0.value == s[id]
    ensures r.1.Keys == s.Keys - {id}
    ensures forall k :: k in r.1 ==> r.1[k] == s[k]
  {
    if id !in s then (None, s) else (Some(s[id]), s - {id})
  }

  // ---------------------------------------------------------------------------
  // Properties relating the operations
  // ---------------------------------------------------------------------------

  /** Create, Update and Delete keep every row keyed by its own Id. */
  lemma WellKeyedPreserved(s: Store, id: int, order: Order, newId: int)
    requires WellKeyed(s)
    requires newId !in s
    ensures WellKeyed(Create(s, order, newId).1)
    ensures WellKeyed(Update(s, id, order).1)
    ensures WellKeyed(Delete(s, id).1)
  {
  }

  /** Creating an order and reading it back by the assigned id gives the same business
      fields. */
  lemma CreateThenGetById(s: Store, order: Order, newId: int)
    requires newId !in s
    ensures GetById(Create(s, order, newId).1, newId) == Some(order.(id := newId))
  {
  }

  /** Reading back an updated id gives exactly what Update answered. */
  lemma UpdateThenGetById(s: Store, id: int, order: Order)
    ensures GetById(Update(s, id, order).1, id) == Update(s, id, order).0
  {
  }

  /** After a delete, the id is gone, whether or not it was present. */
  lemma DeleteThenGetById(s: Store, id: int)
    ensures GetById(Delete(s, id).1, id).None?
  {
  }
}
