/** src/database/branch.rs: provisioning a branch with its default
    administrator, editing a branch, and listing branches by city. */
module BranchStore {
  import opened Common
  import opened Tables
  import opened CityRule

  /** The users row every new branch gets: username, password hash and role
      all the literal "admin". */
  function DefaultAdmin(userId: int32, branchId: int32): (u: User)
    ensures u.userId == userId && u.branchId == branchId && u.role == "admin"
    ensures u.passwordhash == u.username == "admin"
  {
    User(userId, "admin", "admin", "admin", branchId)
  }

  /** The default admin's stored hash is the literal "admin", but login
      compares it with a digest; with a digest of fixed length 64 (hex
      SHA-256) no password logs the default admin in. */
  lemma DefaultAdminCannotLogIn(userId: int32, branchId: int32, sha256: string -> string, password: string)
    requires forall s :: |sha256(s)| == 64
    ensures sha256(password) != DefaultAdmin(userId, branchId).passwordhash
  {
    assert |sha256(password)| == 64;
  }

  /** The branch row `INSERT ... RETURNING` produces under a fresh id. */
  function InsertedBranch(branchId: int32, branch: NewBranch): Branch
  {
    Branch(branchId, branch.address, branch.phoneNumber, branch.postalCode, branch.employeeCount, branch.city)
  }

  /** `create_branch`: two separate inserts with no transaction. A refused
      branch insert changes nothing; otherwise the branch row stays even if
      the default-admin insert is then refused. The admin row bypasses the
      authorization guard. */
  method CreateBranch(db: Database, branch: NewBranch, branchAccepted: bool, adminAccepted: bool)
    returns (r: Result<Branch>)
    requires db.Valid()
    modifies db`branches, db`nextBranchId, db`users, db`nextUserId
    ensures db.Valid()
    ensures if !branchAccepted || old(db.nextBranchId) > MaxInt32 then
              && r == Err(Sqlx(Rejected))
              && db.branches == old(db.branches) && db.nextBranchId == old(db.nextBranchId)
              && db.users == old(db.users) && db.nextUserId == old(db.nextUserId)
            else
              var b := InsertedBranch(old(db.nextBranchId), branch);
              && db.branches == old(db.branches) + [b]
              && db.nextBranchId == old(db.nextBranchId) + 1
              && if !adminAccepted || old(db.nextUserId) > MaxInt32 then
                   r == Err(Sqlx(Rejected)) && db.users == old(db.users) && db.nextUserId == old(db.nextUserId)
                 else
                   && r == Ok(b)
                   && db.users == old(db.users) + [DefaultAdmin(old(db.nextUserId), b.branchId)]
                   && db.nextUserId == old(db.nextUserId) + 1
    ensures forall e :: SingleCity(old(db.branches), db.assignments, e) <==> SingleCity(db.branches, db.assignments, e)
  {
    if !branchAccepted || db.nextBranchId > MaxInt32 {
      return Err(Sqlx(Rejected));
    }
    var b := InsertedBranch(db.nextBranchId, branch);
    assert forall a :: a in db.assignments ==> a.branchId != b.branchId;
    NewBranchKeepsCities(db.branches, db.assignments, b);
    FindBranchAppend(db.branches, b);
    db.branches := db.branches + [b];
    db.nextBranchId := db.nextBranchId + 1;
    if !adminAccepted || db.nextUserId > MaxInt32 {
      return Err(Sqlx(Rejected));
    }
    db.users := db.users + [DefaultAdmin(db.nextUserId, b.branchId)];
    db.nextUserId := db.nextUserId + 1;
    r := Ok(b);
  }

  /** Appending a row never changes what an existing id finds. */
  lemma {:induction false} FindBranchAppend(branches: seq<Branch>, b: Branch)
    ensures forall id :: FindBranch(branches, id).Some? ==> FindBranch(branches + [b], id) == FindBranch(branches, id)
  {
    if branches != [] {
      FindBranchAppend(branches[1..], b);
      assert (branches + [b])[1..] == branches[1..] + [b];
    }
  }

  /** One branch row after `UPDATE branch SET address = COALESCE($1, address),
      ... WHERE branch_id = $5`. */
  function CoalesceBranch(b: Branch, branchId: int32, address: Option<string>, phoneNumber: Option<string>,
                          postalCode: Option<string>, employeeCount: Option<int32>): (v: Branch)
    ensures v.branchId == b.branchId && v.city == b.city
    ensures b.branchId != branchId ==> v == b
  {
    if b.branchId == branchId then
      b.(address := address.GetOr(b.address), phoneNumber := phoneNumber.GetOr(b.phoneNumber),
         postalCode := postalCode.GetOr(b.postalCode), employeeCount := employeeCount.GetOr(b.employeeCount))
    else b
  }

  function UpdatedBranches(branches: seq<Branch>, branchId: int32, address: Option<string>, phoneNumber: Option<string>,
                           postalCode: Option<string>, employeeCount: Option<int32>): (r: seq<Branch>)
    ensures |r| == |branches|
    ensures forall k :: 0 <= k < |branches| ==>
              r[k] == CoalesceBranch(branches[k], branchId, address, phoneNumber, postalCode, employeeCount)
    ensures forall k :: 0 <= k < |branches| ==> r[k].branchId == branches[k].branchId && r[k].city == branches[k].city
    ensures forall k :: 0 <= k < |branches| && branches[k].branchId != branchId ==> r[k] == branches[k]
  {
    seq(|branches|, k requires 0 <= k < |branches| =>
      CoalesceBranch(branches[k], branchId, address, phoneNumber, postalCode, employeeCount))
  }

  /** `update_branch`: scoped to the caller's own branch by its WHERE clause.
      Only that row changes, None keeps a column, and neither id nor city is
      ever written, so no employee's cities change. A missing branch is a
      storage error. */
  method UpdateBranch(db: Database, adminBranchId: int32, address: Option<string>, phoneNumber: Option<string>,
                      postalCode: Option<string>, employeeCount: Option<int32>)
    returns (r: Result<Branch>)
    requires db.Valid()
    modifies db`branches
    ensures db.Valid()
    ensures db.branches == UpdatedBranches(old(db.branches), adminBranchId, address, phoneNumber, postalCode, employeeCount)
    ensures r.Ok? || r == Err(Sqlx(RowNotFound))
    ensures FindBranch(old(db.branches), adminBranchId).None? <==> r == Err(Sqlx(RowNotFound))
    ensures r.Ok? ==> r.value in db.branches && r.value.branchId == adminBranchId
    ensures r.Ok? ==> r.value == CoalesceBranch(FindBranch(old(db.branches), adminBranchId).value,
                                                adminBranchId, address, phoneNumber, postalCode, employeeCount)
    ensures forall k :: 0 <= k < |db.branches| && old(db.branches)[k].branchId != adminBranchId ==>
              db.branches[k] == old(db.branches)[k]
    ensures forall e :: SingleCity(old(db.branches), db.assignments, e) <==> SingleCity(db.branches, db.assignments, e)
  {
    var found := FindBranch(db.branches, adminBranchId);
    var updated := UpdatedBranches(db.branches, adminBranchId, address, phoneNumber, postalCode, employeeCount);
    SameIdsAndCities(db.branches, updated, db.assignments);
    SameIdsKeepInvariants(db.branches, updated, db.assignments, db.nextBranchId);
    if found.Some? {
      var k :| 0 <= k < |db.branches| && db.branches[k] == found.value;
      assert updated[k] in updated;
    }
    db.branches := updated;
    if found.None? {
      return Err(Sqlx(RowNotFound));
    }
    r := Ok(CoalesceBranch(found.value, adminBranchId, address, phoneNumber, postalCode, employeeCount));
  }

  /** Rewriting rows in place without touching ids keeps the table's
      invariants: ids stay unique and below the sequence, and every assignment
      still points at a branch. */
  lemma SameIdsKeepInvariants(branches: seq<Branch>, branches': seq<Branch>, assignments: seq<BranchEmployee>, next: int)
    requires |branches'| == |branches|
    requires forall k :: 0 <= k < |branches| ==> branches'[k].branchId == branches[k].branchId
    requires UniqueBranchIds(branches) && AssignmentsReferenceBranches(branches, assignments)
    requires forall b :: b in branches ==> b.branchId < next
    ensures UniqueBranchIds(branches') && AssignmentsReferenceBranches(branches', assignments)
    ensures forall b :: b in branches' ==> b.branchId < next
  {
    SameIdsKeepLookup(branches, branches');
    forall b | b in branches' ensures b.branchId < next {
      var k :| 0 <= k < |branches'| && branches'[k] == b;
      assert branches[k] in branches;
    }
  }

  /** Rewriting rows in place without touching ids keeps which ids exist. */
  lemma SameIdsKeepLookup(branches: seq<Branch>, branches': seq<Branch>)
    requires |branches'| == |branches|
    requires forall k :: 0 <= k < |branches| ==> branches'[k].branchId == branches[k].branchId
    ensures forall id :: FindBranch(branches, id).Some? <==> FindBranch(branches', id).Some?
  {
    forall id ensures FindBranch(branches, id).Some? <==> FindBranch(branches', id).Some? {
      if FindBranch(branches, id).Some? {
        var k :| 0 <= k < |branches| && branches[k] == FindBranch(branches, id).value;
        assert branches'[k] in branches';
      }
      if FindBranch(branches', id).Some? {
        var k :| 0 <= k < |branches'| && branches'[k] == FindBranch(branches', id).value;
        assert branches[k] in branches;
      }
    }
  }

  /** `get_branch`: with a city, exactly the branches in that city; without
      one, every branch. */
  function GetBranch(db: Database, city: Option<string>): (r: seq<Branch>)
    reads db
    ensures city.None? ==> r == db.branches
    ensures city.Some? ==> forall b :: b in r <==> b in db.branches && b.city == city.value
    ensures city.Some? ==> forall b: Branch :: b.city == city.value ==> multiset(r)[b] == multiset(db.branches)[b]
  {
    match city
    case Some(c) => Filter(db.branches, (b: Branch) => b.city == c)
    case None => db.branches
  }
}
