/** src/web/api/handlers.rs: login (the only writer of the identity cache),
    the administrator's create-or-update of a user, and a master completing
    an order. */
module Handlers {
  import opened Common
  import opened Decimal
  import opened Tables
  import opened Session
  import opened UserStore
  import opened OrderStore

  datatype LoginForm = LoginForm(login: string, password: string)

  /** Where login sends the browser, or a panic of the handler. */
  datatype LoginOutcome = Redirect(location: string) | Panicked

  /** An error status or a JSON reply. */
  datatype StatusCode = Unauthorized | BadRequest
  datatype Reply<T> = Json(body: T) | Status(code: StatusCode)

  const Roles: set<string> := {"admin", "master", "analyst", "manager"}

  /** The landing page for a role: each of the four known roles has a page of
      its own name; anything else goes back to the login page. */
  function RoleRedirect(role: string): (location: string)
    ensures role in Roles ==> location == "/" + role
    ensures role !in Roles ==> location == "/login"
  {
    match role
    case "admin" => "/admin"
    case "master" => "/master"
    case "analyst" => "/analyst"
    case "manager" => "/manager"
    case _ => "/login"
  }

  /** `login`. The user lookup is `get_user` by login name (not part of the
      files modelled; read here as the first row with that username) and
      `sha256` is the digest function. On a failed lookup or a digest that
      differs from the stored hash nothing changes. Otherwise the session
      gets the fresh API key `freshKey` (a failing session store makes the
      `unwrap` panic before the cache is touched), the cache maps that key to
      the decimal user id, and the browser goes to the role's page; an
      unknown role goes to "/login" with the cache entry already added. The
      session then resolves to the user's id. */
  method Login(db: Database, session: SessionStore, cache: Cache, form: LoginForm,
               sha256: string -> string, freshKey: string)
    returns (r: LoginOutcome)
    modifies session`attrs, cache`entries
    ensures var found := FindUser(db.users, form.login);
            if found.None? || sha256(form.password) != found.value.passwordhash then
              r == Redirect("/login") && session.attrs == old(session.attrs) && cache.entries == old(cache.entries)
            else if session.failing then
              r == Panicked && session.attrs == old(session.attrs) && cache.entries == old(cache.entries)
            else
              && r == Redirect(RoleRedirect(found.value.role))
              && session.attrs == old(session.attrs)[ApiKeyAttr := freshKey]
              && cache.entries == old(cache.entries)[freshKey := ShowInt(found.value.userId)]
              && GetUserId(session, cache) == Known(found.value.userId)
  {
    var found := FindUser(db.users, form.login);
    if found.Some? && sha256(form.password) == found.value.passwordhash {
      var user := found.value;
      if session.failing {
        return Panicked;
      }
      session.attrs := session.attrs[ApiKeyAttr := freshKey];
      cache.entries := cache.entries[freshKey := ShowInt(user.userId)];
      ResolvesRenderedId(session, cache, user.userId);
      return Redirect(RoleRedirect(user.role));
    }
    r := Redirect("/login");
  }

  /** The password hash `update_user` receives: the digest of a non-empty
      form password, or nothing (keep the stored hash) for an empty one. */
  function NewPasswordHash(password: string, sha256: string -> string): (h: Option<string>)
    ensures password == "" <==> h.None?
    ensures h.Some? ==> h.value == sha256(password)
  {
    if password != "" then Some(sha256(password)) else None
  }

  /** The guard as `admin_update_user` invokes it: the resolved USER id is
      passed where `admin_branch_check` expects the admin's BRANCH id. */
  function ActingGuardAsWritten(users: seq<User>, actingUserId: int32, username: string): (r: Result<()>)
    ensures r.Ok? ==> exists u :: u in users && u.username == username && u.branchId == actingUserId
  {
    AdminBranchCheck(users, actingUserId, username)
  }

  /** Two users of branch 1: alice (id 7) and bob (id 8). */
  const SameBranchUsers: seq<User> := [User(7, "alice", "h", "admin", 1), User(8, "bob", "h", "master", 1)]

  /** carol (id 1) administers branch 2; bob (id 8) works in branch 1. */
  const OtherBranchUsers: seq<User> := [User(1, "carol", "h", "admin", 2), User(8, "bob", "h", "master", 1)]

  /** The guard as invoked compares the target's branch with the acting
      user's id: alice is refused for bob although both are in branch 1,
      while carol, of branch 2, is let through for bob because her id happens
      to be 1. */
  lemma ActingGuardAsWrittenMisjudges()
    ensures ActingGuardAsWritten(SameBranchUsers, 7, "bob") == Err(NotPermitted)
    ensures ActingGuardAsWritten(OtherBranchUsers, 1, "bob").Ok?
  {
    assert FindUser(SameBranchUsers, "bob") == Some(SameBranchUsers[1]);
    assert FindUser(OtherBranchUsers, "bob") == Some(OtherBranchUsers[1]);
  }

  /** The acting user's row, looked up by primary key: the first of the
      rows carrying that id (there is at most one). */
  function FindUserById(users: seq<User>, userId: int32): (r: Option<User>)
    ensures r.Some? ==> r.value in users && r.value.userId == userId
    ensures r.None? <==> forall u :: u in users ==> u.userId != userId
  {
    var matching := Filter(users, (u: User) => u.userId == userId);
    if |matching| == 0 then None
    else
      assert matching[0] in matching;
      Some(matching[0])
  }

  /** The guard as intended: the acting user's own branch is looked up from
      the resolved id and compared with the target's branch; an acting id
      with no users row is a storage error. */
  function ActingGuard(users: seq<User>, actingUserId: int32, username: string): (r: Result<()>)
    ensures FindUserById(users, actingUserId).None? ==> r == Err(Sqlx(RowNotFound))
    ensures r.Ok? ==> exists a, u :: a in users && a.userId == actingUserId &&
                                     u in users && u.username == username && u.branchId == a.branchId
  {
    match FindUserById(users, actingUserId)
    case None => Err(Sqlx(RowNotFound))
    case Some(acting) => AdminBranchCheck(users, acting.branchId, username)
  }

  /** With a unique target username, the intended guard permits if and only
      if the target lives in the acting user's branch. */
  lemma ActingGuardExact(users: seq<User>, actingUserId: int32, username: string)
    requires UniqueUsername(users, username)
    requires FindUserById(users, actingUserId).Some?
    ensures ActingGuard(users, actingUserId, username).Ok? <==>
              exists u :: u in users && u.username == username &&
                          u.branchId == FindUserById(users, actingUserId).value.branchId
  {
    GuardExact(users, FindUserById(users, actingUserId).value.branchId, username);
  }

  /** The intended guard decides both examples the other way round. */
  lemma ActingGuardJudgesExamples()
    ensures ActingGuard(SameBranchUsers, 7, "bob").Ok?
    ensures ActingGuard(OtherBranchUsers, 1, "bob") == Err(NotPermitted)
  {
    assert FindUserById(SameBranchUsers, 7) == Some(SameBranchUsers[0]);
    assert FindUserById(OtherBranchUsers, 1) == Some(OtherBranchUsers[0]);
    assert FindUser(SameBranchUsers, "bob") == Some(SameBranchUsers[1]);
    assert FindUser(OtherBranchUsers, "bob") == Some(OtherBranchUsers[1]);
  }

  /** On the create path the row stores the form's password field as its
      hash. With a digest of fixed length 64 (hex SHA-256), a password of any
      other length never matches at login. */
  lemma CreatedRowRefusesItsPassword(form: NewUser, userId: int32, sha256: string -> string)
    requires forall s :: |sha256(s)| == 64
    requires |form.passwordhash| != 64
    ensures sha256(form.passwordhash) != InsertedUser(userId, form).passwordhash
  {
    assert |sha256(form.passwordhash)| == 64;
  }

  /** `new_user` as the handler computes it (and then leaves unused): the
      form record with its password replaced by the digest, or by "" for an
      empty password. */
  function HashedNewUser(form: NewUser, sha256: string -> string): (u: NewUser)
    ensures u.username == form.username && u.role == form.role && u.branchId == form.branchId
    ensures u.passwordhash == NewPasswordHash(form.passwordhash, sha256).GetOr("")
  {
    form.(passwordhash := NewPasswordHash(form.passwordhash, sha256).GetOr(""))
  }

  /** Created from `new_user`, the row accepts the password typed into the
      form. */
  lemma HashedRowAcceptsItsPassword(form: NewUser, userId: int32, sha256: string -> string)
    requires form.passwordhash != ""
    ensures sha256(form.passwordhash) == InsertedUser(userId, HashedNewUser(form, sha256)).passwordhash
  {
  }

  /** `admin_update_user`. Without a resolved id the reply is UNAUTHORIZED
      and no row is touched. Otherwise `create_user` is tried first with the
      form record as submitted (its password field unhashed); only if that
      fails is `update_user` tried, with the digest of a non-empty password,
      the form's role and branch. Both are guarded with the user id in the
      branch position; if both fail the reply is BAD_REQUEST. */
  method AdminUpdateUser(db: Database, session: SessionStore, cache: Cache, form: NewUser,
                         sha256: string -> string, accepted: bool)
    returns (r: Reply<User>)
    requires db.Valid()
    modifies db`users, db`nextUserId
    ensures db.Valid()
    ensures var id := GetUserId(session, cache);
            if !id.Known? then
              r == Status(Unauthorized) && db.users == old(db.users) && db.nextUserId == old(db.nextUserId)
            else if ActingGuardAsWritten(old(db.users), id.userId, form.username).Err? then
              r == Status(BadRequest) && db.users == old(db.users) && db.nextUserId == old(db.nextUserId)
            else if accepted && old(db.nextUserId) <= MaxInt32 then
              && r == Json(InsertedUser(old(db.nextUserId), form))
              && db.users == old(db.users) + [r.body]
              && db.nextUserId == old(db.nextUserId) + 1
            else
              var newHash := NewPasswordHash(form.passwordhash, sha256);
              && db.nextUserId == old(db.nextUserId)
              && db.users == UpdatedUsers(old(db.users), form.username, newHash, Some(form.role), Some(form.branchId))
              && r == Json(Coalesce(FindUser(old(db.users), form.username).value, form.username,
                                    newHash, Some(form.role), Some(form.branchId)))
  {
    var newHash := NewPasswordHash(form.passwordhash, sha256);
    var id := GetUserId(session, cache);
    if id.Known? {
      var created := CreateUser(db, id.userId, form, accepted);
      if created.Ok? {
        return Json(created.value);
      }
      var updated := UpdateUser(db, id.userId, form.username, newHash, Some(form.role), Some(form.branchId));
      if updated.Ok? {
        return Json(updated.value);
      }
      return Status(BadRequest);
    }
    r := Status(Unauthorized);
  }

  /** `master_complete_order`: without a resolved id the reply is
      UNAUTHORIZED and no order changes; otherwise the order gets the
      resolved id as its master, the completion time `now` and status
      "finished", and an unknown order id is BAD_REQUEST. */
  method MasterCompleteOrder(db: Database, session: SessionStore, cache: Cache, orderId: int32, now: Timestamp)
    returns (r: Reply<()>)
    modifies db`orders
    ensures var id := GetUserId(session, cache);
            if !id.Known? then
              r == Status(Unauthorized) && db.orders == old(db.orders)
            else
              && db.orders == UpdatedOrders(old(db.orders), orderId, Some(id.userId), Some(now), Some("finished"))
              && (FindOrder(old(db.orders), orderId).None? <==> r == Status(BadRequest))
              && (FindOrder(old(db.orders), orderId).Some? <==> r == Json(()))
    ensures r == Json(()) ==>
              exists o :: o in db.orders && o.orderId == orderId && o.status == "finished" &&
                          o.masterId == GetUserId(session, cache).userId && o.completionDate == Some(now)
  {
    var id := GetUserId(session, cache);
    if id.Known? {
      var updated := UpdateOrder(db, Some(id.userId), Some(now), Some("finished"), orderId);
      if updated.Ok? {
        return Json(());
      }
      return Status(BadRequest);
    }
    r := Status(Unauthorized);
  }
}
