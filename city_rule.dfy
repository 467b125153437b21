/** The assignment consistency rule: an employee's branch assignments all lie
    in branches of one city. The rule is checked by a join query before each
    insert; this module states the query, the invariant it protects, and why
    each write to the branch and assignment tables keeps that invariant. */
module CityRule {
  import opened Common
  import opened Tables

  /** `SELECT EXISTS (SELECT 1 FROM branch_employee be JOIN branch b ON
      be.branch_id = b.branch_id WHERE be.employee_id = $1 AND b.city <> $2)`. */
  predicate CityConflict(branches: seq<Branch>, assignments: seq<BranchEmployee>, employeeId: int32, city: string) {
    exists i, k :: 0 <= i < |assignments| && 0 <= k < |branches| &&
      assignments[i].employeeId == employeeId &&
      branches[k].branchId == assignments[i].branchId &&
      branches[k].city != city
  }

  /** Employee `employeeId` has an assignment at a branch located in `city`. */
  ghost predicate AssignedIn(branches: seq<Branch>, assignments: seq<BranchEmployee>, employeeId: int32, city: string) {
    exists i, k :: 0 <= i < |assignments| && 0 <= k < |branches| &&
      assignments[i].employeeId == employeeId &&
      branches[k].branchId == assignments[i].branchId &&
      branches[k].city == city
  }

  /** All of the employee's assigned branches share one city. */
  ghost predicate SingleCity(branches: seq<Branch>, assignments: seq<BranchEmployee>, employeeId: int32) {
    forall c1, c2 :: AssignedIn(branches, assignments, employeeId, c1) && AssignedIn(branches, assignments, employeeId, c2) ==> c1 == c2
  }

  /** The query reports a conflict exactly when the employee already works in
      some other city. */
  lemma ConflictMeansOtherCity(branches: seq<Branch>, assignments: seq<BranchEmployee>, employeeId: int32, city: string)
    ensures CityConflict(branches, assignments, employeeId, city) <==>
              exists c :: AssignedIn(branches, assignments, employeeId, c) && c != city
  {
    if CityConflict(branches, assignments, employeeId, city) {
      var i, k :| 0 <= i < |assignments| && 0 <= k < |branches| &&
        assignments[i].employeeId == employeeId &&
        branches[k].branchId == assignments[i].branchId &&
        branches[k].city != city;
      assert AssignedIn(branches, assignments, employeeId, branches[k].city);
    }
  }

  /** An employee without assignments never conflicts, whatever the city. */
  lemma NoAssignmentsNoConflict(branches: seq<Branch>, assignments: seq<BranchEmployee>, employeeId: int32, city: string)
    requires forall a :: a in assignments ==> a.employeeId != employeeId
    ensures !CityConflict(branches, assignments, employeeId, city)
  {
  }

  /** In a table with unique ids, every row with the id of the row
      `FindBranch` returns is that row. */
  lemma FoundBranchIsOnly(branches: seq<Branch>, branchId: int32, k: int)
    requires UniqueBranchIds(branches)
    requires FindBranch(branches, branchId).Some?
    requires 0 <= k < |branches| && branches[k].branchId == branchId
    ensures branches[k] == FindBranch(branches, branchId).value
  {
    var b := FindBranch(branches, branchId).value;
    var j :| 0 <= j < |branches| && branches[j] == b;
  }

  /** Appending one assignment adds at most the cities of its own branch. */
  lemma AssignedInAppend(branches: seq<Branch>, assignments: seq<BranchEmployee>, row: BranchEmployee, employeeId: int32, city: string)
    requires AssignedIn(branches, assignments + [row], employeeId, city)
    ensures AssignedIn(branches, assignments, employeeId, city) ||
            (row.employeeId == employeeId &&
             exists k :: 0 <= k < |branches| && branches[k].branchId == row.branchId && branches[k].city == city)
  {
    var extended := assignments + [row];
    var i, k :| 0 <= i < |extended| && 0 <= k < |branches| &&
      extended[i].employeeId == employeeId &&
      branches[k].branchId == extended[i].branchId &&
      branches[k].city == city;
    if i < |assignments| {
      assert extended[i] == assignments[i];
    }
  }

  /** The insert that follows a passed check keeps every employee's
      assignments in one city. */
  lemma InsertKeepsSingleCity(branches: seq<Branch>, assignments: seq<BranchEmployee>, row: BranchEmployee)
    requires UniqueBranchIds(branches)
    requires FindBranch(branches, row.branchId).Some?
    requires !CityConflict(branches, assignments, row.employeeId, FindBranch(branches, row.branchId).value.city)
    ensures forall e :: SingleCity(branches, assignments, e) ==> SingleCity(branches, assignments + [row], e)
  {
    var target := FindBranch(branches, row.branchId).value.city;
    forall e | SingleCity(branches, assignments, e)
      ensures SingleCity(branches, assignments + [row], e)
    {
      forall c | AssignedIn(branches, assignments + [row], e, c)
        ensures AssignedIn(branches, assignments, e, c) || (e == row.employeeId && c == target)
      {
        AssignedInAppend(branches, assignments, row, e, c);
        if !AssignedIn(branches, assignments, e, c) {
          var k :| 0 <= k < |branches| && branches[k].branchId == row.branchId && branches[k].city == c;
          FoundBranchIsOnly(branches, row.branchId, k);
        }
      }
      if e == row.employeeId {
        forall c | AssignedIn(branches, assignments, e, c) ensures c == target {
          ConflictMeansOtherCity(branches, assignments, e, target);
        }
      }
    }
  }

  /** Removing assignments never adds a city. */
  lemma RemovalKeepsSingleCity(branches: seq<Branch>, assignments: seq<BranchEmployee>, kept: seq<BranchEmployee>)
    requires forall a :: a in kept ==> a in assignments
    ensures forall e :: SingleCity(branches, assignments, e) ==> SingleCity(branches, kept, e)
  {
    forall e, c | AssignedIn(branches, kept, e, c) ensures AssignedIn(branches, assignments, e, c) {
      var i, k :| 0 <= i < |kept| && 0 <= k < |branches| &&
        kept[i].employeeId == e &&
        branches[k].branchId == kept[i].branchId &&
        branches[k].city == c;
      assert kept[i] in assignments;
      var j :| 0 <= j < |assignments| && assignments[j] == kept[i];
    }
  }

  /** A rewrite of the branch table that keeps every row's id and city in
      place leaves every employee's set of cities as it was. */
  lemma SameIdsAndCities(branches: seq<Branch>, branches': seq<Branch>, assignments: seq<BranchEmployee>)
    requires |branches'| == |branches|
    requires forall k :: 0 <= k < |branches| ==>
               branches'[k].branchId == branches[k].branchId && branches'[k].city == branches[k].city
    ensures forall e, c :: AssignedIn(branches, assignments, e, c) <==> AssignedIn(branches', assignments, e, c)
    ensures forall e :: SingleCity(branches, assignments, e) <==> SingleCity(branches', assignments, e)
  {
    forall e, c ensures AssignedIn(branches, assignments, e, c) <==> AssignedIn(branches', assignments, e, c) {
      if AssignedIn(branches, assignments, e, c) {
        var i, k :| 0 <= i < |assignments| && 0 <= k < |branches| &&
          assignments[i].employeeId == e && branches[k].branchId == assignments[i].branchId && branches[k].city == c;
        assert branches'[k].branchId == assignments[i].branchId && branches'[k].city == c;
      }
      if AssignedIn(branches', assignments, e, c) {
        var i, k :| 0 <= i < |assignments| && 0 <= k < |branches'| &&
          assignments[i].employeeId == e && branches'[k].branchId == assignments[i].branchId && branches'[k].city == c;
        assert branches[k].branchId == assignments[i].branchId && branches[k].city == c;
      }
    }
  }

  /** A new branch whose id no assignment refers to changes nobody's cities. */
  lemma NewBranchKeepsCities(branches: seq<Branch>, assignments: seq<BranchEmployee>, branch: Branch)
    requires forall a :: a in assignments ==> a.branchId != branch.branchId
    ensures forall e :: SingleCity(branches, assignments, e) <==> SingleCity(branches + [branch], assignments, e)
  {
    var extended := branches + [branch];
    forall e, c ensures AssignedIn(branches, assignments, e, c) <==> AssignedIn(extended, assignments, e, c) {
      if AssignedIn(branches, assignments, e, c) {
        var i, k :| 0 <= i < |assignments| && 0 <= k < |branches| &&
          assignments[i].employeeId == e && branches[k].branchId == assignments[i].branchId && branches[k].city == c;
        assert extended[k] == branches[k];
      }
      if AssignedIn(extended, assignments, e, c) {
        var i, k :| 0 <= i < |assignments| && 0 <= k < |extended| &&
          assignments[i].employeeId == e && extended[k].branchId == assignments[i].branchId && extended[k].city == c;
        assert assignments[i] in assignments;
        assert k < |branches|;
        assert extended[k] == branches[k];
      }
    }
  }
}
