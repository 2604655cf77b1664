/**
  `FilteredOrdersLogger`: the FilteredOrders mirror table, written after every listing.
  `ClearTable` truncates it; `LogOrders` inserts one row per listed order, reusing the
  order's Id, after clamping the order's delivery date into the range of SQL Server's
  `datetime`. The clamp is assigned to the order object itself, so the caller's list
  comes back carrying the clamped dates.

  Each database command commits on its own: a command that fails leaves the rows and the
  clamps made before it in place.
 */
module FilteredOrdersLogger {
  import opened DotNet
  import opened Domain

  datatype MirrorRow = MirrorRow(
    id: int,
    name: string,
    weight: real,
    district: string,
    deliveryDateTime: Ticks)

  /** The mirror table, in insertion order. */
  type Table = seq<MirrorRow>

  /** `ClearTable`: `TRUNCATE TABLE dbo.FilteredOrders` removes every row, whatever the
      table held. */
  function ClearTable(table: Table): (r: Table)
    ensures |r| == 0
  {
    []
  }

  /** The date written for an order: dates before 1753-01-01 become 1753-01-01, dates
      after 9999-12-31 00:00 become 9999-12-31 00:00, and every other date is kept. */
  function ClampDate(t: Ticks): (r: Ticks)
    ensures Jan1st1753 <= r <= Dec31st9999
    ensures Jan1st1753 <= t <= Dec31st9999 ==> r == t
    ensures t < Jan1st1753 ==> r == Jan1st1753
    ensures t > Dec31st9999 ==> r == Dec31st9999
  {
    if t < Jan1st1753 then Jan1st1753
    else if t > Dec31st9999 then Dec31st9999
    else t
  }

  /** Clamping twice is clamping once, and a date moves only if it was out of range. */
  lemma ClampIdempotent(t: Ticks)
    ensures ClampDate(ClampDate(t)) == ClampDate(t)
    ensures ClampDate(t) == t <==> Jan1st1753 <= t <= Dec31st9999
  {
  }

  /** The clamp never reorders dates. */
  lemma ClampMonotonic(t: Ticks, u: Ticks)
    requires t <= u
    ensures ClampDate(t) <= ClampDate(u)
  {
  }

  /** The order after its date was clamped in place. */
  function Clamped(o: Order): (r: Order)
    ensures Jan1st1753 <= r.deliveryDateTime <= Dec31st9999
    ensures r.(deliveryDateTime := o.deliveryDateTime) == o
    ensures r == o <==> Jan1st1753 <= o.deliveryDateTime <= Dec31st9999
  {
    o.(deliveryDateTime := ClampDate(o.deliveryDateTime))
  }

  /** The row inserted for an already clamped order: the command's parameters copy the
      order's Id, Name, Weight, District and date. */
  function RowOf(o: Order): MirrorRow
  {
    MirrorRow(o.id, o.name, o.weight, o.district, o.deliveryDateTime)
  }

  /** Where the database first fails while `LogOrders` runs: opening the connection or
      `SET IDENTITY_INSERT ... ON`; the insert of the order at `index`; or
      `SET IDENTITY_INSERT ... OFF`. */
  datatype MirrorFault =
    | NoFault
    | FailsBeforeInserts
    | FailsAtInsert(index: nat)
    | FailsAfterInserts

  /** What `LogOrders` leaves behind: the caller's orders as mutated by the clamp, the
      mirror table, and whether the call returned normally. */
  datatype LogOutcome = LogOutcome(orders: seq<Order>, table: Table, completed: bool)

  /** Clamps orders[0..k) and inserts their rows behind the existing ones. */
  function InsertPrefix(table: Table, orders: seq<Order>, k: nat): (r: (seq<Order>, Table))
    requires k <= |orders|
    ensures |r.0| == |orders| && |r.1| == |table| + k
    ensures r.1[..|table|] == table
    ensures forall i :: 0 <= i < k ==> r.0[i] == Clamped(orders[i])
    ensures forall i :: k <= i < |orders| ==> r.0[i] == orders[i]
    ensures forall i :: 0 <= i < k ==> r.1[|table| + i] == RowOf(Clamped(orders[i]))
  {
    var clamped := seq(|orders|, i requires 0 <= i < |orders| => if i < k then Clamped(orders[i]) else orders[i]);
    var rows := seq(k, i requires 0 <= i < k => RowOf(clamped[i]));
    (clamped, table + rows)
  }

  /** `LogOrders(orders)`: for each order in turn, clamp its date in place, then insert
      its row. It does not clear the table first. A failing insert leaves the rows before
      it inserted and its own order already clamped. */
  function LogOrders(table: Table, orders: seq<Order>, fault: MirrorFault): (r: LogOutcome)
    ensures |r.orders| == |orders|
    ensures r.completed <==> fault.NoFault? || (fault.FailsAtInsert? && fault.index >= |orders|)
    ensures |table| <= |r.table| <= |table| + |orders| && r.table[..|table|] == table
    ensures r.completed ==>
      && |r.table| == |table| + |orders|
      && forall i :: 0 <= i < |orders| ==> r.orders[i] == Clamped(orders[i])
    ensures fault.FailsBeforeInserts? ==> r.orders == orders && r.table == table
    ensures fault.FailsAfterInserts? ==>
      && |r.table| == |table| + |orders|
      && forall i :: 0 <= i < |orders| ==> r.orders[i] == Clamped(orders[i])
    ensures fault.FailsAtInsert? && fault.index < |orders| ==>
      && |r.table| == |table| + fault.index
      && (forall i :: 0 <= i <= fault.index ==> r.orders[i] == Clamped(orders[i]))
      && (forall i :: fault.index < i < |orders| ==> r.orders[i] == orders[i])
    ensures forall i :: 0 <= i < |r.table| - |table| ==> r.table[|table| + i] == RowOf(r.orders[i])
  {
    match fault
    case FailsBeforeInserts => LogOutcome(orders, table, false)
    case FailsAtInsert(k) =>
      if k < |orders| then
        var (clamped, written) := InsertPrefix(table, orders, k);
        LogOutcome(clamped[k := Clamped(orders[k])], written, false)
      else
        var (clamped, written) := InsertPrefix(table, orders, |orders|);
        LogOutcome(clamped, written, true)
    case FailsAfterInserts =>
      var (clamped, written) := InsertPrefix(table, orders, |orders|);
      LogOutcome(clamped, written, false)
    case NoFault =>
      var (clamped, written) := InsertPrefix(table, orders, |orders|);
      LogOutcome(clamped, written, true)
  }

  /** A completed `LogOrders` on a cleared table leaves exactly one row per order, in
      order, each with the order's Id, Name, Weight and District and its clamped date. */
  lemma MirrorAfterClear(table: Table, orders: seq<Order>)
    ensures var r := LogOrders(ClearTable(table), orders, NoFault);
      && |r.table| == |orders|
      && forall i :: 0 <= i < |orders| ==>
        && r.table[i].id == orders[i].id
        && r.table[i].name == orders[i].name
        && r.table[i].weight == orders[i].weight
        && r.table[i].district == orders[i].district
        && r.table[i].deliveryDateTime == ClampDate(orders[i].deliveryDateTime)
        && Jan1st1753 <= r.table[i].deliveryDateTime <= Dec31st9999
  {
    var r := LogOrders(ClearTable(table), orders, NoFault);
    assert forall i :: 0 <= i < |orders| ==> r.table[0 + i] == RowOf(r.orders[i]);
  }

  /** Without a clear, earlier rows stay at the front of the table. */
  lemma LogOrdersKeepsEarlierRows(table: Table, orders: seq<Order>)
    ensures var r := LogOrders(table, orders, NoFault);
      |r.table| == |table| + |orders| && forall i :: 0 <= i < |table| ==> r.table[i] == table[i]
  {
    var r := LogOrders(table, orders, NoFault);
    assert r.table[..|table|] == table;
    assert forall i :: 0 <= i < |table| ==> r.table[..|table|][i] == r.table[i];
  }

  /** The clamp reaches the caller: after a completed `LogOrders`, every order the caller
      holds carries exactly the date written to its mirror row. */
  lemma ClampLeaksToCaller(table: Table, orders: seq<Order>)
    ensures var r := LogOrders(table, orders, NoFault);
      forall i :: 0 <= i < |orders| ==>
        && r.orders[i].deliveryDateTime == r.table[|table| + i].deliveryDateTime
        && Jan1st1753 <= r.orders[i].deliveryDateTime <= Dec31st9999
        && r.orders[i].(deliveryDateTime := orders[i].deliveryDateTime) == orders[i]
  {
  }

  /** Logging the clamped orders again writes the same rows: the clamp is stable. */
  lemma LogOrdersStable(table: Table, orders: seq<Order>)
    ensures var once := LogOrders(table, orders, NoFault);
      LogOrders(table, once.orders, NoFault) == once
  {
    var once := LogOrders(table, orders, NoFault);
    var twice := LogOrders(table, once.orders, NoFault);
    assert forall i :: 0 <= i < |orders| ==> Clamped(once.orders[i]) == once.orders[i];
    assert twice.orders == once.orders;
    assert twice.table == once.table;
  }
}
