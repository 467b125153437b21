# moto-auto access-control core, modelled in Dafny

moto-auto is the management backend of a multi-branch vehicle-service business. This project models its
session → identity → authorization → consistency path:

- **Identity cache and resolver.** Login stores a fresh API key in the caller's session under the attribute
  `"apikey"`. It then maps that key, in a process-wide cache, to the decimal text of the user id.
  `get_user_id` reads the key, looks it up and parses the text back as an `i32`.
- **Auth gate.** `auth_middleware` lets through any URI containing `"login"`. Other URIs pass only for a
  resolved user id; everything else is redirected to `/login`.
- **Branch authorization guard.** `admin_branch_check` compares the branch of the target user (looked up by
  username) with the `admin_branch_id` argument. It guards `create_user`, `update_user` and `delete_user`.
- **Single-city assignment rule.** `create_branch_employee`, in two copies, refuses to assign an employee to a
  branch when one of the employee's existing assignments lies in a branch of another city.
- **Branch provisioning.** `create_branch` inserts the branch and then a default `admin` user, with no guard
  and no transaction. `update_branch` is scoped to the caller's branch id and never writes `city`.

The Postgres tables are fields of one `Tables.Database` object: `users`, `branches`, `assignments`
(branch_employee) and `orders`, each a sequence of rows in table order, plus the next value of each serial id
sequence. Each SQL statement becomes a function on those sequences. Each Rust function that runs statements
becomes a method that `modifies` exactly the fields it writes. The session and the cache are the classes
`Session.SessionStore` and `Session.Cache`. The resolver, the gate and the read queries are functions.

Modules follow the source files:

- `Common`: `int32`, `DbError`, `Result`, `Filter`.
- `Decimal`: `i32::to_string` and `i32::from_str_radix`.
- `Tables`: the models and the database.
- `Session`: session/mod.rs and common.rs.
- `Middleware`: middlewares.rs.
- `UserStore`: user.rs.
- `BranchStore`: branch.rs.
- `CityRule`: the invariant of the join query.
- `BranchEmployeeStore`: branch_employee.rs.
- `EmployeeCrud`: the variant in employee_crud.rs.
- `OrderStore`: `update_order` of orders.rs.
- `Handlers`: handlers.rs.

Points where the code behaves differently than one might expect, each modelled as the code does it:

- A session with no API key resolves to the error outcome (`Err(())`), not to "no identity". Only a key
  unknown to the cache gives `Ok(None)`.
- The guard does not look up the acting admin's branch. It compares against whatever `admin_branch_id` the
  caller passes. `admin_update_user` passes the resolved *user id* there (see Findings).
- Login adds the cache entry before it matches the role, so a user with an unknown role is sent to `/login`
  with a live cache entry.
- The cross-city conflict is `DbError::BadInput` in branch_employee.rs and `SameCityError` in employee_crud.rs.
  `SameCityError` is not a variant of `DbError`, and that file is not declared in `src/database/mod.rs`.
- handlers.rs calls `get_user`, which src/database/user.rs does not define. The model reads it as the first
  users row with that username. It also passes `&user` where `create_user` takes the record by value; the
  model passes the form record.

## Model

| member | source | states |
|---|---|---|
| `Decimal.ParseI32` | src/web/api/common.rs:9-10 | Empty text is refused, and a negative result only comes from text that starts with `-` |
| `Decimal.ShowInt` | src/web/api/handlers.rs:38 | `i32::to_string`: a non-empty text that starts with `-` iff the id is negative, followed by a digit string whose value is the magnitude |
| `Decimal.ShowNatDigits` | src/web/api/handlers.rs:38 | The decimal rendering of a natural number is a non-empty digit string whose value is that number |
| `Decimal.ParseShow` | src/web/api/common.rs:9-11 | Round trip: for every i32 n, parsing `n.to_string()` gives back `Some(n)`, including negative ids and i32::MIN |
| `Decimal.ShowIntInjective` | src/web/api/handlers.rs:38 | Distinct user ids are stored as distinct cache texts |
| `Decimal.ParseRejects` | src/web/api/common.rs:9-10 | Empty text, a lone sign and a non-digit character are refused |
| `Decimal.ParseAcceptsExactly` | src/web/api/common.rs:9-10 | For every text: accepted iff it is an optional sign followed by a non-empty digit run whose signed value lies in the i32 range, and then the result is that value |
| `Decimal.ParseRejectsOverflow` | src/web/api/common.rs:9-10 | Any integer outside the i32 range, rendered in decimal, is refused |
| `Decimal.ParseAcceptsPlusAndZeros` | src/web/api/common.rs:9 | The parser also accepts a leading `+` and leading zeros, which `to_string` never produces |
| `Tables.FindUser` | src/database/user.rs:11-19 | The username lookup returns some row with that username, and returns none exactly when no row has it |
| `Tables.FindBranch` | src/database/branch_employee.rs:31-41 | The branch lookup returns a row with that id, and returns none exactly when no row has it |
| `Session.GetUserId` | src/web/api/common.rs:6-18 | Failing session or no key gives `Failed` (Err). A key unknown to the cache gives `Anonymous` (Ok(None)), and only then. Otherwise the cached text decides: `Known(n)` exactly when it parses to n, `Failed` when it does not parse |
| `Session.IdentityFor` | src/web/api/common.rs:8-14 | An absent entry is "no identity". A present entry gives its parsed id, or an error when the text does not parse |
| `Session.ResolvesRenderedId` | src/web/api/common.rs:9-11 | A session whose cache entry holds `n.to_string()` resolves to `Known(n)` |
| `Session.OnlyOwnEntryMatters` | src/web/api/common.rs:8 | Two caches that agree on the session's own key resolve alike |
| `Middleware.AuthMiddleware` | src/web/middlewares.rs:10-23 | A URI containing "login" passes. Any other URI passes iff the resolver gives a user id. Everything else is redirected to `/login` |
| `Middleware.NoKeyIsRedirected` | src/web/middlewares.rs:19-22 | A session with no API key is redirected on every URI that does not mention "login" |
| `Middleware.LoginAnywherePasses` | src/web/middlewares.rs:16-18 | The substring test is unanchored: `/x?next=login` passes as `/login` does, whatever the session |
| `Middleware.LoggedInSessionPasses` | src/web/middlewares.rs:19-20 | A session left as login leaves it passes the gate on every URI |
| `UserStore.AdminBranchCheck` | src/database/user.rs:6-29 | Three outcomes. A storage error iff no user has the name. `NotPermitted` only if a row with the name lies in another branch. Ok only if one lies in `admin_branch_id` |
| `UserStore.GuardExact` | src/database/user.rs:11-28 | With a unique username, the guard permits iff the user's branch equals `admin_branch_id`, and refuses with `NotPermitted` iff it differs |
| `UserStore.CreateUser` | src/database/user.rs:31-50 | A guard failure is returned with the table unchanged. A success appends exactly one row with the submitted fields and a fresh id. It succeeds only if a row with the SAME username already lives in `admin_branch_id` |
| `UserStore.Coalesce` | src/database/user.rs:64-78 | COALESCE on one row: user id and username never change, rows with another username are untouched, and all-None arguments change nothing |
| `UserStore.UpdatedUsers` | src/database/user.rs:64-78 | The UPDATE keeps the table's length and order and applies the COALESCE rewrite to each row in place |
| `UserStore.UpdateIdempotent` | src/database/user.rs:67-72 | Applying the same COALESCE update twice gives the same table as applying it once |
| `UserStore.UpdateUser` | src/database/user.rs:52-83 | Guard failure leaves the table unchanged. Success rewrites, in place, only the rows with that username (None keeps a column). It keeps every id and username and returns an updated row |
| `UserStore.MovedUserLeavesBranch` | src/database/user.rs:60-71 | The guard is checked before the update only: moving the user to another branch succeeds, and afterwards the same admin is refused |
| `UserStore.DeleteUser` | src/database/user.rs:85-105 | Guard failure leaves the table unchanged. Success removes exactly the rows with that username and keeps all others in order |
| `UserStore.GetUsers` | src/database/user.rs:107-119 | Exactly the users whose branch is `admin_branch_id`, each with its stored multiplicity |
| `CityRule.ConflictMeansOtherCity` | src/database/branch_employee.rs:43-58 | The EXISTS join reports a conflict iff the employee already has an assignment in a city other than the target's |
| `CityRule.NoAssignmentsNoConflict` | src/database/branch_employee.rs:43-58 | An employee with no assignments never conflicts, whatever the target city |
| `CityRule.InsertKeepsSingleCity` | src/database/branch_employee.rs:43-79 | Appending the row after a passed check keeps every employee's assigned branches in one city |
| `CityRule.RemovalKeepsSingleCity` | src/database/branch_employee.rs:12-23 | Removing assignments never breaks the single-city invariant |
| `CityRule.SameIdsAndCities` | src/database/branch.rs:59-66 | An in-place rewrite of branch rows that keeps ids and cities changes no employee's cities |
| `CityRule.NewBranchKeepsCities` | src/database/branch.rs:8-23 | A new branch with an id no assignment refers to changes no employee's cities |
| `BranchEmployeeStore.ConflictReported` | src/database/branch_employee.rs:60-65 | Only a definite `true` from the EXISTS query is a conflict; NULL counts as no conflict |
| `BranchEmployeeStore.CheckThenAssign` | src/database/branch_employee.rs:26-80 | Missing target branch gives a storage error with no insert. A cross-city conflict gives the conflict error with no insert. Otherwise exactly one (employee, branch) row with a fresh id is appended, duplicates included. The single-city invariant is kept |
| `BranchEmployeeStore.CreateBranchEmployee` | src/database/branch_employee.rs:26-80 | Four outcomes. A missing target branch gives `Sqlx(RowNotFound)`. A cross-city conflict gives `BadInput` (iff). A refused insert gives a storage error; each of these leaves table and id sequence unchanged. Otherwise exactly one (employee, branch) row with the next id is appended and the sequence advances. The invariant is kept |
| `BranchEmployeeStore.WithoutAssignment` | src/database/branch_employee.rs:12-16 | The DELETE keeps exactly the rows that do not match both ids, each with its multiplicity |
| `BranchEmployeeStore.DeleteBranchEmployee` | src/database/branch_employee.rs:7-24 | Removes exactly the rows matching both ids and keeps the single-city invariant |
| `BranchEmployeeStore.GetBranchEmployee` | src/database/branch_employee.rs:82-140 | Exactly the assignments matching every filter given, each with its stored multiplicity. With no filter, the whole table |
| `EmployeeCrud.CreateBranchEmployee` | src/database/employee_crud.rs:24-70 | The same four outcomes, with the conflict reported as `SameCityError` (iff). Without a conflict an accepted request appends the pair under the next id and advances the sequence. The invariant is kept |
| `EmployeeCrud.DeleteBranchEmployee` | src/database/employee_crud.rs:115-128 | The new table is the old one without the rows matching both ids; all other rows keep their multiplicity. The invariant is kept |
| `BranchStore.DefaultAdmin` | src/database/branch.rs:29-38 | The default row is an `admin` of the new branch whose stored hash equals its login name, the literal "admin" |
| `BranchStore.DefaultAdminCannotLogIn` | src/database/branch.rs:29-38 | The default admin's stored hash is the literal "admin". Against a 64-character SHA-256 hex digest, no password ever logs it in |
| `BranchStore.CreateBranch` | src/database/branch.rs:7-46 | A refused branch insert changes nothing. Otherwise one branch row is added. Then either one `admin`/`admin`/`admin` user of the new branch is added (no guard), or the error is returned and the branch row stays. No employee's cities change |
| `BranchStore.CoalesceBranch` | src/database/branch.rs:56-72 | The update never changes a row's id or city and leaves rows of other branches untouched |
| `BranchStore.UpdatedBranches` | src/database/branch.rs:56-72 | The UPDATE rewrites rows in place: length, every id and every city are kept, and rows of other branches are unchanged |
| `BranchStore.UpdateBranch` | src/database/branch.rs:48-77 | Only the caller's branch row changes (None keeps a column). The result is `Ok` with the updated row iff the branch exists, and `Sqlx(RowNotFound)` otherwise. No employee's cities change |
| `BranchStore.GetBranch` | src/database/branch.rs:79-109 | With a city: exactly the branches in that city, with multiplicity. Without one: all branches |
| `OrderStore.FindOrder` | src/database/orders.rs:44 | The order lookup returns a row with that id, and returns none exactly when no row has it |
| `OrderStore.UpdatedOrders` | src/database/orders.rs:36-54 | The UPDATE rewrites rows in place: every order id and client are kept, and other orders are unchanged |
| `OrderStore.CoalesceOrder` | src/database/orders.rs:39-44 | Only master, completion date and status of the selected order change |
| `OrderStore.UpdateOrder` | src/database/orders.rs:29-55 | Rewrites only the order with that id. An unknown id is a storage error and nothing changes |
| `Handlers.RoleRedirect` | src/web/api/handlers.rs:39-45 | Each of admin, master, analyst and manager goes to its own page. Any other role goes to `/login` |
| `Handlers.Login` | src/web/api/handlers.rs:25-49 | Unknown user or wrong digest: redirect to `/login`, nothing changes. Failing session store: panic before the cache is written. Otherwise session key := fresh key, cache[key] := decimal id, all other entries kept, redirect by role, and the session resolves to the user's id |
| `Handlers.NewPasswordHash` | src/web/api/handlers.rs:58-61 | Empty form password means "keep the stored hash". A non-empty one is replaced by its digest |
| `Handlers.ActingGuardAsWritten` | src/web/api/handlers.rs:64-65 | The handler's guard compares the target's branch with the acting USER id |
| `Handlers.ActingGuardAsWrittenMisjudges` | src/web/api/handlers.rs:65 | Concrete tables where the handler refuses an admin for a user of the admin's own branch, and permits an admin of another branch |
| `Handlers.ActingGuard` | src/database/user.rs:6-29 | Intended guard: an unknown acting id is a storage error. Ok only if the target lies in the acting user's own branch |
| `Handlers.ActingGuardExact` | src/database/user.rs:11-28 | With a unique target username, the intended guard permits iff the target's branch equals the acting user's branch |
| `Handlers.ActingGuardJudgesExamples` | src/web/api/handlers.rs:65 | On the same two tables, the intended guard gives the opposite decisions |
| `Handlers.CreatedRowRefusesItsPassword` | src/web/api/handlers.rs:65 | The create path stores the form password unhashed. With a 64-character digest, the typed password never matches at login |
| `Handlers.HashedNewUser` | src/web/api/handlers.rs:62-63 | `new_user` keeps the form's name, role and branch, with the password replaced by its digest (or "") |
| `Handlers.HashedRowAcceptsItsPassword` | src/web/api/handlers.rs:62-63 | A row created from `new_user` accepts the password typed into the form |
| `Handlers.AdminUpdateUser` | src/web/api/handlers.rs:51-85 | No identity: UNAUTHORIZED, table and id sequence untouched. Guard failure, evaluated with the user id as branch: BAD_REQUEST, table and sequence untouched. Otherwise create appends the unhashed form row and advances the sequence. If that insert is refused, the sequence stays and the update path applies the digest of a non-empty password, the form's role and its branch |
| `Handlers.MasterCompleteOrder` | src/web/api/handlers.rs:92-114 | No identity: UNAUTHORIZED, orders untouched. Otherwise the order gets master = resolved id, completion = now and status "finished". An unknown order gives BAD_REQUEST |

## Findings

| source | as written | input that shows it | evidently intended | confidence | as-written member | corrected member |
|---|---|---|---|---|---|---|
| src/web/api/handlers.rs:64-70 | The resolved user id is passed as `admin_branch_id` to `create_user` and `update_user`, so the guard compares the target's branch with a user id | alice (id 7, branch 1) is refused for bob (branch 1). carol (id 1, branch 2) is permitted for bob (branch 1) | Look up the acting user's own branch and compare it with the target's branch | high; not executed | `Handlers.ActingGuardAsWrittenMisjudges` | `Handlers.ActingGuardExact` |
| src/web/api/handlers.rs:58-65 | `new_user`, with the hashed password, is built and never used. `create_user` receives the form record, so the plain password is stored as the hash | Form password "secret" is stored as hash "secret". At login, sha256("secret") (64 hex characters) never equals it | Create from `new_user` | high; not executed | `Handlers.CreatedRowRefusesItsPassword` | `Handlers.HashedRowAcceptsItsPassword` |

`Handlers.AdminUpdateUser` keeps the code as written, so its contract describes what the handler does today.
The corrected definitions, `Handlers.ActingGuard` and `Handlers.HashedNewUser`, stand beside it with their
intended properties proved.

## Left out

- Concurrency: the `RwLock` around the cache, lock poisoning (`write().unwrap()`) and async scheduling. The
  cache is a plain map owned by one object. The check-then-insert race on assignments is not modelled, so two
  concurrent cross-city inserts are not ruled out here.
- sha256 is a function parameter. The only property used is a fixed 64-character output, and only in the lemmas
  that say so. The UUIDv4 key is the parameter `freshKey`; nothing about its uniqueness is used. `Utc::now()` is the
  parameter `now`.
- Timestamps and BigDecimal amounts are carried as opaque integers and never inspected.
- Storage failures that the data does not decide are not modelled for reads, UPDATEs and DELETEs. Examples are
  a lost connection or a schema constraint. An INSERT takes a boolean `accepted` for them, because the schema is
  not part of this model.
- Postgres returns rows of a multi-row `fetch_one` in no fixed order. The model takes the first row in table
  order. `UserStore.AdminBranchCheck` and `UserStore.GuardExact` say "some matching row" or require a unique
  username. Three contracts pin down the FIRST matching row, which matters for usernames such as `admin`
  that `create_branch` adds once per branch:
  - `UserStore.UpdateUser`: the returned row;
  - `Handlers.AdminUpdateUser`: the reply on the update path;
  - `Handlers.Login`: which user logs in.
  Postgres may pick another matching row.
- A failed INSERT still consumes a sequence value in Postgres. The model's counters advance only on success.
- `UserStore.GetUsers`, `BranchStore.GetBranch` and `BranchEmployeeStore.GetBranchEmployee`: return the rows
  directly. The `Err` of a failed SELECT is not modelled.
- `BranchEmployeeStore.DeleteBranchEmployee` and `EmployeeCrud.DeleteBranchEmployee`: always return `Ok`. A
  failed DELETE is not modelled.
- `Handlers.Login`: `get_user` is not part of this model. It is read as the first users row with that
  username; a lookup error beyond "no such row" is not modelled.
- The session store is reduced to a `failing` flag plus an attribute map. A value that does not deserialise
  as an API key is folded into `failing`, and session expiry is not modelled. The cache never evicts, as in
  the source.
- The HTTP server, routing, templates, logging and `main` are not modelled. So are the other CRUD files and the
  non-assignment functions of employee_crud.rs. From orders.rs only `update_order` is modelled, because
  `master_complete_order` calls it.
- Form fields the operations never read are dropped: `user_id` of a submitted `User`, and `branch_id` of a
  submitted `Branch`.
