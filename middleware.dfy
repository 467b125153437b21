/** `auth_middleware`: the gate in front of every route. */
module Middleware {
  import opened Common
  import opened Session
  import Decimal

  /** Either the request goes on to the next handler, or the caller is
      redirected. */
  datatype Response = Next | RedirectTo(location: string)

  /** A URI that mentions "login" anywhere passes unconditionally; any other
      passes only for a resolved user id and is otherwise sent to "/login".
      Being a function, it cannot change the session or the cache. */
  function AuthMiddleware(uri: string, session: SessionStore, cache: Cache): (r: Response)
    reads session, cache
    ensures Contains(uri, "login") ==> r == Next
    ensures !Contains(uri, "login") ==> (r == Next <==> GetUserId(session, cache).Known?)
    ensures r == Next || r == RedirectTo("/login")
  {
    if Contains(uri, "login") then Next
    else if GetUserId(session, cache).Known? then Next
    else RedirectTo("/login")
  }

  /** A request whose session has no API key (the resolver's error case) is
      redirected unless its URI mentions "login". */
  lemma NoKeyIsRedirected(uri: string, session: SessionStore, cache: Cache)
    requires ApiKeyAttr !in session.attrs
    requires !Contains(uri, "login")
    ensures AuthMiddleware(uri, session, cache) == RedirectTo("/login")
  {
  }

  /** The substring test is not anchored: "/x?next=login" bypasses the
      identity check just as "/login" does. */
  lemma LoginAnywherePasses(session: SessionStore, cache: Cache)
    ensures AuthMiddleware("/login", session, cache) == Next
    ensures AuthMiddleware("/x?next=login", session, cache) == Next
  {
    assert OccursAt("/login", "login", 1);
    assert OccursAt("/x?next=login", "login", 8);
  }

  /** A session whose key maps to a rendered user id, as login leaves it,
      passes the gate on every URI. */
  lemma LoggedInSessionPasses(uri: string, session: SessionStore, cache: Cache, n: int32)
    requires !session.failing && ApiKeyAttr in session.attrs
    requires session.attrs[ApiKeyAttr] in cache.entries
    requires cache.entries[session.attrs[ApiKeyAttr]] == Decimal.ShowInt(n)
    ensures AuthMiddleware(uri, session, cache) == Next
  {
    ResolvesRenderedId(session, cache, n);
  }
}
