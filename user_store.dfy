/** src/database/user.rs: the branch authorization guard and the
    user-management writes it protects. */
module UserStore {
  import opened Common
  import opened Tables

  /** `admin_branch_check`: look up the branch of the user called `username`
      (a missing user is a storage error) and permit only when it equals
      `adminBranchId`. */
  function AdminBranchCheck(users: seq<User>, adminBranchId: int32, username: string): (r: Result<()>)
    ensures r.Ok? || r == Err(NotPermitted) || r == Err(Sqlx(RowNotFound))
    ensures r == Err(Sqlx(RowNotFound)) <==> forall u :: u in users ==> u.username != username
    ensures r.Ok? ==> exists u :: u in users && u.username == username && u.branchId == adminBranchId
    ensures r == Err(NotPermitted) ==>
              exists u :: u in users && u.username == username && u.branchId != adminBranchId
  {
    match FindUser(users, username)
    case None => Err(Sqlx(RowNotFound))
    case Some(u) => if adminBranchId != u.branchId then Err(NotPermitted) else Ok(())
  }

  /** At most one row carries `username`. The schema is not part of this
      model, and `create_branch` adds a user named "admin" per branch, so this
      is an assumption that lemmas state, never an invariant. */
  ghost predicate UniqueUsername(users: seq<User>, username: string) {
    forall i, j :: 0 <= i < j < |users| && users[i].username == username ==> users[j].username != username
  }

  lemma SameUsernameSameRow(users: seq<User>, username: string, x: User, y: User)
    requires UniqueUsername(users, username)
    requires x in users && y in users && x.username == username && y.username == username
    ensures x == y
  {
    var i :| 0 <= i < |users| && users[i] == x;
    var j :| 0 <= j < |users| && users[j] == y;
  }

  /** Under unique usernames the guard is exact: it permits if and only if the
      target user lives in `adminBranchId`, and refuses with `NotPermitted` if
      and only if the target lives elsewhere. */
  lemma GuardExact(users: seq<User>, adminBranchId: int32, username: string)
    requires UniqueUsername(users, username)
    ensures AdminBranchCheck(users, adminBranchId, username).Ok? <==>
              exists u :: u in users && u.username == username && u.branchId == adminBranchId
    ensures AdminBranchCheck(users, adminBranchId, username) == Err(NotPermitted) <==>
              exists u :: u in users && u.username == username && u.branchId != adminBranchId
  {
    var found := FindUser(users, username);
    if found.Some? {
      forall u | u in users && u.username == username ensures u == found.value {
        SameUsernameSameRow(users, username, u, found.value);
      }
    }
  }

  /** The users row that `INSERT ... RETURNING` produces for a submitted
      record under a freshly drawn id. */
  function InsertedUser(userId: int32, user: NewUser): User
  {
    User(userId, user.username, user.passwordhash, user.role, user.branchId)
  }

  /** `create_user`: the guard runs on the NEW username, so it passes only if
      a row with that username already lives in `adminBranchId`; then one row
      with the submitted fields and a fresh id is appended. */
  method CreateUser(db: Database, adminBranchId: int32, user: NewUser, accepted: bool) returns (r: Result<User>)
    requires db.Valid()
    modifies db`users, db`nextUserId
    ensures db.Valid()
    ensures var guard := AdminBranchCheck(old(db.users), adminBranchId, user.username);
            if guard.Err? then
              r == Err(guard.error) && db.users == old(db.users) && db.nextUserId == old(db.nextUserId)
            else if !accepted || old(db.nextUserId) > MaxInt32 then
              r == Err(Sqlx(Rejected)) && db.users == old(db.users) && db.nextUserId == old(db.nextUserId)
            else
              && r == Ok(InsertedUser(old(db.nextUserId), user))
              && db.users == old(db.users) + [r.value]
              && db.nextUserId == old(db.nextUserId) + 1
    ensures r.Ok? ==> exists u :: u in old(db.users) && u.username == user.username && u.branchId == adminBranchId
  {
    var guard := AdminBranchCheck(db.users, adminBranchId, user.username);
    if guard.Err? {
      return Err(guard.error);
    }
    if !accepted || db.nextUserId > MaxInt32 {
      return Err(Sqlx(Rejected));
    }
    var row := InsertedUser(db.nextUserId, user);
    db.users := db.users + [row];
    db.nextUserId := db.nextUserId + 1;
    r := Ok(row);
  }

  /** One row after `UPDATE users SET role = COALESCE($2, role), branch_id =
      COALESCE($3, branch_id), passwordhash = COALESCE($4, passwordhash)
      WHERE username = $1`. */
  function Coalesce(u: User, username: string, newHash: Option<string>, role: Option<string>, branchId: Option<int32>): (v: User)
    ensures v.userId == u.userId && v.username == u.username
    ensures u.username != username ==> v == u
    ensures newHash.None? && role.None? && branchId.None? ==> v == u
  {
    if u.username == username then
      u.(role := role.GetOr(u.role), branchId := branchId.GetOr(u.branchId), passwordhash := newHash.GetOr(u.passwordhash))
    else u
  }

  /** The users table after that UPDATE: row by row, in place. */
  function UpdatedUsers(users: seq<User>, username: string, newHash: Option<string>, role: Option<string>, branchId: Option<int32>): (r: seq<User>)
    ensures |r| == |users|
    ensures forall i :: 0 <= i < |users| ==> r[i] == Coalesce(users[i], username, newHash, role, branchId)
    ensures forall i :: 0 <= i < |users| ==> r[i].userId == users[i].userId && r[i].username == users[i].username
    ensures forall i :: 0 <= i < |users| && users[i].username != username ==> r[i] == users[i]
  {
    seq(|users|, i requires 0 <= i < |users| => Coalesce(users[i], username, newHash, role, branchId))
  }

  /** Applying the same update twice changes nothing more than applying it
      once. */
  lemma UpdateIdempotent(users: seq<User>, username: string, newHash: Option<string>, role: Option<string>, branchId: Option<int32>)
    ensures var once := UpdatedUsers(users, username, newHash, role, branchId);
            UpdatedUsers(once, username, newHash, role, branchId) == once
  {
  }

  /** `update_user`: guarded on the row's branch BEFORE the update; on success
      every row with that username takes the given fields (None keeps the
      stored value), every other row is untouched, and the updated row is
      returned. */
  method UpdateUser(db: Database, adminBranchId: int32, username: string,
                    newHash: Option<string>, role: Option<string>, branchId: Option<int32>)
    returns (r: Result<User>)
    requires db.Valid()
    modifies db`users
    ensures db.Valid()
    ensures var guard := AdminBranchCheck(old(db.users), adminBranchId, username);
            if guard.Err? then
              r == Err(guard.error) && db.users == old(db.users)
            else
              && db.users == UpdatedUsers(old(db.users), username, newHash, role, branchId)
              && r == Ok(Coalesce(FindUser(old(db.users), username).value, username, newHash, role, branchId))
    ensures r.Ok? ==> r.value in db.users && r.value.username == username
    ensures |db.users| == |old(db.users)|
    ensures forall i :: 0 <= i < |db.users| ==>
              db.users[i].userId == old(db.users)[i].userId && db.users[i].username == old(db.users)[i].username
    ensures forall i :: 0 <= i < |db.users| && old(db.users)[i].username != username ==> db.users[i] == old(db.users)[i]
  {
    var guard := AdminBranchCheck(db.users, adminBranchId, username);
    if guard.Err? {
      return Err(guard.error);
    }
    var found := FindUser(db.users, username);
    ghost var i :| 0 <= i < |db.users| && db.users[i] == found.value;
    var updated := UpdatedUsers(db.users, username, newHash, role, branchId);
    assert updated[i] == Coalesce(found.value, username, newHash, role, branchId);
    assert forall u :: u in updated ==> u.userId < db.nextUserId by {
      forall u | u in updated ensures u.userId < db.nextUserId {
        var k :| 0 <= k < |updated| && updated[k] == u;
        assert db.users[k] in db.users;
      }
    }
    db.users := updated;
    r := Ok(Coalesce(found.value, username, newHash, role, branchId));
  }

  /** The guard is not re-checked after the update: moving the (uniquely
      named) user to another branch succeeds, and from then on the same admin
      is refused for that user. */
  lemma MovedUserLeavesBranch(users: seq<User>, adminBranchId: int32, username: string, newBranch: int32,
                              newHash: Option<string>, role: Option<string>)
    requires AdminBranchCheck(users, adminBranchId, username).Ok?
    requires newBranch != adminBranchId
    ensures AdminBranchCheck(UpdatedUsers(users, username, newHash, role, Some(newBranch)), adminBranchId, username)
            == Err(NotPermitted)
  {
    var after := UpdatedUsers(users, username, newHash, role, Some(newBranch));
    var found := FindUser(after, username);
    assert found.Some? by {
      var u :| u in users && u.username == username;
      var k :| 0 <= k < |users| && users[k] == u;
      assert after[k] in after;
    }
    var k :| 0 <= k < |after| && after[k] == found.value;
    assert found.value.branchId == newBranch;
  }

  /** `delete_user`: guarded; on success exactly the rows with that username
      are removed and every other row keeps its place. */
  method DeleteUser(db: Database, username: string, adminBranchId: int32) returns (r: Result<()>)
    requires db.Valid()
    modifies db`users
    ensures db.Valid()
    ensures var guard := AdminBranchCheck(old(db.users), adminBranchId, username);
            if guard.Err? then
              r == Err(guard.error) && db.users == old(db.users)
            else
              r == Ok(()) && db.users == Filter(old(db.users), (u: User) => u.username != username)
    ensures r.Ok? ==> forall u :: u in db.users <==> u in old(db.users) && u.username != username
  {
    var guard := AdminBranchCheck(db.users, adminBranchId, username);
    if guard.Err? {
      return Err(guard.error);
    }
    db.users := Filter(db.users, (u: User) => u.username != username);
    r := Ok(());
  }

  /** `get_users`: exactly the users of the given branch, each as often as it
      is stored. */
  function GetUsers(db: Database, adminBranchId: int32): (r: seq<User>)
    reads db
    ensures forall u :: u in r <==> u in db.users && u.branchId == adminBranchId
    ensures forall u: User :: u.branchId == adminBranchId ==> multiset(r)[u] == multiset(db.users)[u]
  {
    Filter(db.users, (u: User) => u.branchId == adminBranchId)
  }
}
