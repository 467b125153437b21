/** src/database/branch_employee.rs: assigning employees to branches under
    the single-city rule, removing assignments, and listing them. */
module BranchEmployeeStore {
  import opened Common
  import opened Tables
  import opened CityRule

  /** How the code reads the nullable result of the EXISTS query: only a
      definite `true` is a conflict; NULL counts as "no conflict". */
  function ConflictReported(answer: Option<bool>): (conflict: bool)
    ensures answer == None ==> !conflict
    ensures conflict <==> answer == Some(true)
  {
    match answer
    case Some(different) => different
    case None => false
  }

  /** The row `INSERT ... RETURNING` produces under a freshly drawn id. */
  function InsertedAssignment(id: int32, employeeId: int32, branchId: int32): BranchEmployee
  {
    BranchEmployee(id, employeeId, branchId)
  }

  /** The check-then-insert shared by both versions of
      `create_branch_employee`; they differ only in the error they report for
      a cross-city conflict. The target branch must exist (else `fetch_one`
      finds no row); if any existing assignment of the employee joins to a
      branch in another city, nothing is inserted; otherwise exactly one row
      is appended, even when the same pair is already assigned. */
  method CheckThenAssign(db: Database, employeeId: int32, branchId: int32, conflictError: DbError, accepted: bool)
    returns (r: Result<BranchEmployee>)
    requires db.Valid()
    modifies db`assignments, db`nextAssignmentId
    ensures db.Valid()
    ensures var target := FindBranch(db.branches, branchId);
            if target.None? then
              r == Err(Sqlx(RowNotFound)) && db.assignments == old(db.assignments) && db.nextAssignmentId == old(db.nextAssignmentId)
            else if CityConflict(db.branches, old(db.assignments), employeeId, target.value.city) then
              r == Err(conflictError) && db.assignments == old(db.assignments) && db.nextAssignmentId == old(db.nextAssignmentId)
            else if !accepted || old(db.nextAssignmentId) > MaxInt32 then
              r == Err(Sqlx(Rejected)) && db.assignments == old(db.assignments) && db.nextAssignmentId == old(db.nextAssignmentId)
            else
              && r == Ok(InsertedAssignment(old(db.nextAssignmentId), employeeId, branchId))
              && db.assignments == old(db.assignments) + [r.value]
              && db.nextAssignmentId == old(db.nextAssignmentId) + 1
    ensures forall e :: SingleCity(db.branches, old(db.assignments), e) ==> SingleCity(db.branches, db.assignments, e)
  {
    var target := FindBranch(db.branches, branchId);
    if target.None? {
      return Err(Sqlx(RowNotFound));
    }
    var newCity := target.value.city;
    var answer := Some(CityConflict(db.branches, db.assignments, employeeId, newCity));
    if ConflictReported(answer) {
      return Err(conflictError);
    }
    if !accepted || db.nextAssignmentId > MaxInt32 {
      return Err(Sqlx(Rejected));
    }
    var row := InsertedAssignment(db.nextAssignmentId, employeeId, branchId);
    InsertKeepsSingleCity(db.branches, db.assignments, row);
    db.assignments := db.assignments + [row];
    db.nextAssignmentId := db.nextAssignmentId + 1;
    r := Ok(row);
  }

  /** `create_branch_employee`: a cross-city conflict is `BadInput`. */
  method CreateBranchEmployee(db: Database, employeeId: int32, branchId: int32, accepted: bool)
    returns (r: Result<BranchEmployee>)
    requires db.Valid()
    modifies db`assignments, db`nextAssignmentId
    ensures db.Valid()
    ensures var target := FindBranch(db.branches, branchId);
            if target.None? then
              r == Err(Sqlx(RowNotFound)) && db.assignments == old(db.assignments) && db.nextAssignmentId == old(db.nextAssignmentId)
            else if CityConflict(db.branches, old(db.assignments), employeeId, target.value.city) then
              r == Err(BadInput) && db.assignments == old(db.assignments) && db.nextAssignmentId == old(db.nextAssignmentId)
            else if !accepted || old(db.nextAssignmentId) > MaxInt32 then
              r == Err(Sqlx(Rejected)) && db.assignments == old(db.assignments) && db.nextAssignmentId == old(db.nextAssignmentId)
            else
              && r == Ok(InsertedAssignment(old(db.nextAssignmentId), employeeId, branchId))
              && db.assignments == old(db.assignments) + [r.value]
              && db.nextAssignmentId == old(db.nextAssignmentId) + 1
    ensures var target := FindBranch(db.branches, branchId);
            target.Some? && CityConflict(db.branches, old(db.assignments), employeeId, target.value.city) <==>
            r == Err(BadInput)
    ensures forall e :: SingleCity(db.branches, old(db.assignments), e) ==> SingleCity(db.branches, db.assignments, e)
  {
    r := CheckThenAssign(db, employeeId, branchId, BadInput, accepted);
  }

  /** The rows `DELETE ... WHERE employee_id = $1 AND branch_id = $2` leaves. */
  function WithoutAssignment(assignments: seq<BranchEmployee>, employeeId: int32, branchId: int32): (r: seq<BranchEmployee>)
    ensures forall a :: a in r <==> a in assignments && !(a.employeeId == employeeId && a.branchId == branchId)
    ensures forall a: BranchEmployee :: !(a.employeeId == employeeId && a.branchId == branchId) ==>
              multiset(r)[a] == multiset(assignments)[a]
  {
    Filter(assignments, (a: BranchEmployee) => !(a.employeeId == employeeId && a.branchId == branchId))
  }

  /** `delete_branch_employee`: removes exactly the rows matching both ids,
      which can only shrink an employee's set of cities. */
  method DeleteBranchEmployee(db: Database, employeeId: int32, branchId: int32) returns (r: Result<()>)
    requires db.Valid()
    modifies db`assignments
    ensures db.Valid()
    ensures r == Ok(())
    ensures db.assignments == WithoutAssignment(old(db.assignments), employeeId, branchId)
    ensures forall e :: SingleCity(db.branches, old(db.assignments), e) ==> SingleCity(db.branches, db.assignments, e)
  {
    var kept := WithoutAssignment(db.assignments, employeeId, branchId);
    RemovalKeepsSingleCity(db.branches, db.assignments, kept);
    db.assignments := kept;
    r := Ok(());
  }

  /** `get_branch_employee`: one query per combination of the optional
      filters; each returns the rows matching every filter given. */
  function GetBranchEmployee(db: Database, branchId: Option<int32>, employeeId: Option<int32>): (r: seq<BranchEmployee>)
    reads db
    ensures forall a :: a in r <==>
              && a in db.assignments
              && (branchId.Some? ==> a.branchId == branchId.value)
              && (employeeId.Some? ==> a.employeeId == employeeId.value)
    ensures forall a: BranchEmployee :: multiset(r)[a] ==
              if (branchId.Some? ==> a.branchId == branchId.value) && (employeeId.Some? ==> a.employeeId == employeeId.value)
              then multiset(db.assignments)[a] else 0
    ensures branchId.None? && employeeId.None? ==> r == db.assignments
  {
    match (branchId, employeeId)
    case (None, Some(id)) => Filter(db.assignments, (a: BranchEmployee) => a.employeeId == id)
    case (Some(id), None) => Filter(db.assignments, (a: BranchEmployee) => a.branchId == id)
    case (Some(b), Some(e)) => Filter(db.assignments, (a: BranchEmployee) => a.branchId == b && a.employeeId == e)
    case (None, None) => db.assignments
  }
}
