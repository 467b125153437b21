/** The rows of the four tables the core touches (moto_auto.users, .branch,
    .branch_employee, .orders) and the in-memory database that holds them. */
module Tables {
  import opened Common

  /** A stored users row; the database always fills in `user_id`. */
  datatype User = User(userId: int32, username: string, passwordhash: string, role: string, branchId: int32)

  /** The `User` record a form submits for creation; its `user_id` is never
      read, so it is not carried. */
  datatype NewUser = NewUser(username: string, passwordhash: string, role: string, branchId: int32)

  datatype Branch = Branch(
    branchId: int32,
    address: string,
    phoneNumber: string,
    postalCode: string,
    employeeCount: int32,
    city: string)

  /** A `Branch` record submitted for creation, without its id. */
  datatype NewBranch = NewBranch(
    address: string,
    phoneNumber: string,
    postalCode: string,
    employeeCount: int32,
    city: string)

  datatype BranchEmployee = BranchEmployee(branchEmployeeId: int32, employeeId: int32, branchId: int32)

  /** Timestamps and money amounts are carried, never inspected. */
  type Timestamp = int
  type Amount = int

  datatype Order = Order(
    orderId: int32,
    clientId: int32,
    branchId: int32,
    masterId: int32,
    orderDate: Timestamp,
    completionDate: Option<Timestamp>,
    totalAmount: Option<Amount>,
    status: string)

  /** First row with the given username: what `fetch_one` returns for
      `WHERE username = $1` in this model (Postgres leaves the choice among
      several matching rows unspecified). */
  function FindUser(users: seq<User>, username: string): (r: Option<User>)
    ensures r.Some? ==> r.value in users && r.value.username == username
    ensures r.None? <==> forall u :: u in users ==> u.username != username
  {
    if users == [] then None
    else if users[0].username == username then Some(users[0])
    else FindUser(users[1..], username)
  }

  /** First branch row with the given id (`fetch_one` on `WHERE branch_id = $1`). */
  function FindBranch(branches: seq<Branch>, branchId: int32): (r: Option<Branch>)
    ensures r.Some? ==> r.value in branches && r.value.branchId == branchId
    ensures r.None? <==> forall b :: b in branches ==> b.branchId != branchId
  {
    if branches == [] then None
    else if branches[0].branchId == branchId then Some(branches[0])
    else FindBranch(branches[1..], branchId)
  }

  /** No two branch rows share an id (branch_id is a serial primary key). */
  ghost predicate UniqueBranchIds(branches: seq<Branch>) {
    forall i, j :: 0 <= i < j < |branches| ==> branches[i].branchId != branches[j].branchId
  }

  /** Every assignment points at an existing branch (the foreign key of
      branch_employee.branch_id; branches are never deleted in this core). */
  ghost predicate AssignmentsReferenceBranches(branches: seq<Branch>, assignments: seq<BranchEmployee>) {
    forall a :: a in assignments ==> FindBranch(branches, a.branchId).Some?
  }

  /** The tables of the moto_auto schema that the core reads and writes, with
      the next value of each serial id sequence. */
  class Database {
    var users: seq<User>
    var branches: seq<Branch>
    var assignments: seq<BranchEmployee>
    var orders: seq<Order>
    var nextUserId: int
    var nextBranchId: int
    var nextAssignmentId: int

    ghost predicate Valid()
      reads this
    {
      && 1 <= nextUserId && 1 <= nextBranchId && 1 <= nextAssignmentId
      && (forall u :: u in users ==> u.userId < nextUserId)
      && (forall b :: b in branches ==> b.branchId < nextBranchId)
      && (forall a :: a in assignments ==> a.branchEmployeeId < nextAssignmentId)
      && UniqueBranchIds(branches)
      && AssignmentsReferenceBranches(branches, assignments)
    }

    /** An empty schema, every sequence starting at 1. */
    constructor ()
      ensures Valid()
      ensures users == [] && branches == [] && assignments == [] && orders == []
    {
      users, branches, assignments, orders := [], [], [], [];
      nextUserId, nextBranchId, nextAssignmentId := 1, 1, 1;
    }
  }
}
