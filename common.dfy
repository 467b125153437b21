/** Shared vocabulary of the model: fixed-width integers, the storage error
    taxonomy, result wrappers and the row filter that every SELECT/DELETE
    with a WHERE clause reduces to. */
module Common {

  /** Rust's i32 (and Postgres' int4). */
  type int32 = x: int | -0x8000_0000 <= x < 0x8000_0000

  const MaxInt32: int := 0x7fff_ffff

  datatype Option<T> = None | Some(value: T) {
    function GetOr(default: T): T {
      match this
      case Some(v) => v
      case None => default
    }
  }

  /** Why sqlx reported an error: `fetch_one` found no row, or Postgres refused
      the statement for a reason this model does not decide (a schema
      constraint, a lost connection, an exhausted sequence). */
  datatype SqlxError = RowNotFound | Rejected

  /** `DbError` of src/database/mod.rs, plus the `SameCityError` tag that the
      undeclared variant in employee_crud.rs returns. */
  datatype DbError = Sqlx(cause: SqlxError) | NotPermitted | BadInput | SameCityError

  datatype Result<T> = Ok(value: T) | Err(error: DbError)

  /** The rows of `s` that satisfy `p`, in table order. */
  function Filter<T(!new)>(s: seq<T>, p: T -> bool): (r: seq<T>)
    ensures |r| <= |s|
    ensures forall x :: x in r <==> x in s && p(x)
    ensures forall x :: multiset(r)[x] == if p(x) then multiset(s)[x] else 0
  {
    if s == [] then []
    else
      var rest := Filter(s[1..], p);
      assert s == [s[0]] + s[1..];
      assert multiset(s) == multiset{s[0]} + multiset(s[1..]);
      if p(s[0]) then [s[0]] + rest else rest
  }

  /** `sub` occurs in `s` starting at index `i`. */
  predicate OccursAt(s: string, sub: string, i: nat) {
    i + |sub| <= |s| && s[i..i + |sub|] == sub
  }

  /** Rust's `str::contains` with a string pattern. */
  predicate Contains(s: string, sub: string) {
    exists i: nat :: i <= |s| && OccursAt(s, sub, i)
  }
}
