/** The session attribute that holds a request's API key, the process-wide
    identity cache from API key to user id text, and the resolver
    `get_user_id` that reads them. */
module Session {
  import opened Common
  import opened Decimal

  /** Name of the session attribute holding the API key. */
  const ApiKeyAttr: string := "apikey"

  /** The per-request session (a cookie-backed key/value store). `failing`
      stands for a store that errors on access: its backend is down or the
      stored value does not deserialise. */
  class SessionStore {
    var failing: bool
    var attrs: map<string, string>

    constructor (failing: bool, attrs: map<string, string>)
      ensures this.failing == failing && this.attrs == attrs
    {
      this.failing := failing;
      this.attrs := attrs;
    }
  }

  /** The identity cache: API key to the decimal text of a user id. */
  class Cache {
    var entries: map<string, string>

    constructor (entries: map<string, string>)
      ensures this.entries == entries
    {
      this.entries := entries;
    }
  }

  /** The three outcomes of the resolver: `Err(())`, `Ok(None)` and
      `Ok(Some(id))`. */
  datatype Identity = Failed | Anonymous | Known(userId: int32)

  /** The cache's answer for one API key, as the resolver reads it. */
  function IdentityFor(entries: map<string, string>, key: string): (id: Identity)
    ensures key !in entries <==> id == Anonymous
    ensures key in entries && ParseI32(entries[key]).Some? ==> id == Known(ParseI32(entries[key]).value)
    ensures key in entries && ParseI32(entries[key]).None? ==> id == Failed
  {
    if key in entries then
      match ParseI32(entries[key])
      case Some(n) => Known(n)
      case None => Failed
    else Anonymous
  }

  /** `get_user_id`: a failing session or a session without an API key is an
      error; a key the cache does not know is "no identity"; a cached value
      is parsed as a base-10 i32, and text that does not parse is an error. */
  function GetUserId(session: SessionStore, cache: Cache): (id: Identity)
    reads session, cache
    ensures session.failing || ApiKeyAttr !in session.attrs ==> id == Failed
    ensures id.Known? ==>
              && !session.failing && ApiKeyAttr in session.attrs
              && session.attrs[ApiKeyAttr] in cache.entries
              && ParseI32(cache.entries[session.attrs[ApiKeyAttr]]) == Some(id.userId)
    ensures id == Anonymous <==>
              !session.failing && ApiKeyAttr in session.attrs && session.attrs[ApiKeyAttr] !in cache.entries
    ensures !session.failing && ApiKeyAttr in session.attrs ==> id == IdentityFor(cache.entries, session.attrs[ApiKeyAttr])
  {
    if !session.failing && ApiKeyAttr in session.attrs then
      IdentityFor(cache.entries, session.attrs[ApiKeyAttr])
    else Failed
  }

  /** A cache entry holding an i32 rendered by `to_string` resolves to that id. */
  lemma ResolvesRenderedId(session: SessionStore, cache: Cache, n: int32)
    requires !session.failing && ApiKeyAttr in session.attrs
    requires session.attrs[ApiKeyAttr] in cache.entries
    requires cache.entries[session.attrs[ApiKeyAttr]] == ShowInt(n)
    ensures GetUserId(session, cache) == Known(n)
  {
    ParseShow(n);
  }

  /** The result depends only on the cache entry under the session's own key:
      two caches that agree there resolve alike. */
  lemma OnlyOwnEntryMatters(session: SessionStore, c1: Cache, c2: Cache)
    requires !session.failing && ApiKeyAttr in session.attrs
    requires var k := session.attrs[ApiKeyAttr];
             (k in c1.entries <==> k in c2.entries) &&
             (k in c1.entries ==> c1.entries[k] == c2.entries[k])
    ensures GetUserId(session, c1) == GetUserId(session, c2)
  {
  }
}
