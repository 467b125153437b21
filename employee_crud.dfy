/** src/database/employee_crud.rs: the second copy of the assignment
    operations. It reports a cross-city conflict as `SameCityError`, a tag
    that is not among the variants of `DbError`. */
module EmployeeCrud {
  import opened Common
  import opened Tables
  import opened CityRule
  import BranchEmployeeStore

  /** `create_branch_employee` of this file: same check-then-insert, with a
      conflict reported as `SameCityError`. */
  method CreateBranchEmployee(db: Database, employeeId: int32, branchId: int32, accepted: bool)
    returns (r: Result<BranchEmployee>)
    requires db.Valid()
    modifies db`assignments, db`nextAssignmentId
    ensures db.Valid()
    ensures var target := FindBranch(db.branches, branchId);
            if target.None? then
              r == Err(Sqlx(RowNotFound)) && db.assignments == old(db.assignments) && db.nextAssignmentId == old(db.nextAssignmentId)
            else if CityConflict(db.branches, old(db.assignments), employeeId, target.value.city) then
              r == Err(SameCityError) && db.assignments == old(db.assignments) && db.nextAssignmentId == old(db.nextAssignmentId)
            else if !accepted || old(db.nextAssignmentId) > MaxInt32 then
              r == Err(Sqlx(Rejected)) && db.assignments == old(db.assignments) && db.nextAssignmentId == old(db.nextAssignmentId)
            else
              && r == Ok(BranchEmployeeStore.InsertedAssignment(old(db.nextAssignmentId), employeeId, branchId))
              && db.assignments == old(db.assignments) + [r.value]
              && db.nextAssignmentId == old(db.nextAssignmentId) + 1
    ensures var target := FindBranch(db.branches, branchId);
            target.Some? && CityConflict(db.branches, old(db.assignments), employeeId, target.value.city) <==>
            r == Err(SameCityError)
    ensures forall e :: SingleCity(db.branches, old(db.assignments), e) ==> SingleCity(db.branches, db.assignments, e)
  {
    r := BranchEmployeeStore.CheckThenAssign(db, employeeId, branchId, SameCityError, accepted);
  }

  /** `delete_branch_employee` of this file: the same statement as in
      branch_employee.rs. */
  method DeleteBranchEmployee(db: Database, employeeId: int32, branchId: int32) returns (r: Result<()>)
    requires db.Valid()
    modifies db`assignments
    ensures db.Valid()
    ensures r == Ok(())
    ensures db.assignments == BranchEmployeeStore.WithoutAssignment(old(db.assignments), employeeId, branchId)
    ensures forall e :: SingleCity(db.branches, old(db.assignments), e) ==> SingleCity(db.branches, db.assignments, e)
  {
    r := BranchEmployeeStore.DeleteBranchEmployee(db, employeeId, branchId);
  }
}
