/** The one statement of src/database/orders.rs that a core handler calls:
    `update_order`, a COALESCE update of one order selected by id. */
module OrderStore {
  import opened Common
  import opened Tables

  /** First order with the given id (`fetch_one` on the RETURNING rows). */
  function FindOrder(orders: seq<Order>, orderId: int32): (r: Option<Order>)
    ensures r.Some? ==> r.value in orders && r.value.orderId == orderId
    ensures r.None? <==> forall o :: o in orders ==> o.orderId != orderId
  {
    if orders == [] then None
    else if orders[0].orderId == orderId then Some(orders[0])
    else FindOrder(orders[1..], orderId)
  }

  /** One row after `SET master_id = COALESCE($1, master_id), completion_date
      = COALESCE($2, completion_date), status = COALESCE($3, status) WHERE
      order_id = $4`. */
  function CoalesceOrder(o: Order, orderId: int32, masterId: Option<int32>,
                         completionDate: Option<Timestamp>, status: Option<string>): (v: Order)
    ensures v.orderId == o.orderId && v.clientId == o.clientId && v.branchId == o.branchId
    ensures v.orderDate == o.orderDate && v.totalAmount == o.totalAmount
    ensures o.orderId != orderId ==> v == o
  {
    if o.orderId == orderId then
      o.(masterId := masterId.GetOr(o.masterId),
         completionDate := if completionDate.Some? then completionDate else o.completionDate,
         status := status.GetOr(o.status))
    else o
  }

  function UpdatedOrders(orders: seq<Order>, orderId: int32, masterId: Option<int32>,
                         completionDate: Option<Timestamp>, status: Option<string>): (r: seq<Order>)
    ensures |r| == |orders|
    ensures forall k :: 0 <= k < |orders| ==> r[k] == CoalesceOrder(orders[k], orderId, masterId, completionDate, status)
    ensures forall k :: 0 <= k < |orders| ==> r[k].orderId == orders[k].orderId && r[k].clientId == orders[k].clientId
    ensures forall k :: 0 <= k < |orders| && orders[k].orderId != orderId ==> r[k] == orders[k]
  {
    seq(|orders|, k requires 0 <= k < |orders| => CoalesceOrder(orders[k], orderId, masterId, completionDate, status))
  }

  /** `update_order`: rewrites the order with that id; no such order is a
      storage error (the update then touched nothing). */
  method UpdateOrder(db: Database, masterId: Option<int32>, completionDate: Option<Timestamp>,
                     status: Option<string>, orderId: int32)
    returns (r: Result<Order>)
    modifies db`orders
    ensures db.orders == UpdatedOrders(old(db.orders), orderId, masterId, completionDate, status)
    ensures FindOrder(old(db.orders), orderId).None? <==> r == Err(Sqlx(RowNotFound))
    ensures r.Ok? || r == Err(Sqlx(RowNotFound))
    ensures FindOrder(old(db.orders), orderId).None? ==> db.orders == old(db.orders)
    ensures r.Ok? ==> r.value in db.orders &&
                      r.value == CoalesceOrder(FindOrder(old(db.orders), orderId).value, orderId, masterId, completionDate, status)
  {
    var found := FindOrder(db.orders, orderId);
    var updated := UpdatedOrders(db.orders, orderId, masterId, completionDate, status);
    if found.Some? {
      var k :| 0 <= k < |db.orders| && db.orders[k] == found.value;
      assert updated[k] in updated;
    } else {
      assert updated == db.orders;
    }
    db.orders := updated;
    if found.None? {
      return Err(Sqlx(RowNotFound));
    }
    r := Ok(CoalesceOrder(found.value, orderId, masterId, completionDate, status));
  }
}
