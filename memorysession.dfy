/**
 * The in-memory session store: sessions holding a loosely typed
 * attribute bag, and a manager that maps identifiers to sessions, mints
 * identifiers on a miss and sweeps out expired or idle sessions.
 *
 * Time is an explicit integer `now` (one unit is whatever the `timeout`
 * and `expiration` settings are measured in), and the entropy the
 * identifier generator draws on is an input.
 */
module MemorySession {
  import opened Wrappers
  import Hex

  /**
   * An attribute value. The store keeps arbitrary values; the ones it
   * inspects are booleans, integers and strings, and `Nil` is what `Get`
   * answers for a missing key. Any other value is an `Opaque` one.
   */
  datatype Value = Nil | Bool(b: bool) | Int(i: int) | Str(s: string) | Opaque(tag: nat)

  /** Reserved attribute keys behind the first-class accessors. */
  const AuthKey: string := "_isAuth"
  const UsernameKey: string := "_username"

  /** Name of the cookie that carries the session identifier. */
  const CookieName: string := "_s"

  /** A response cookie: name, value and path. */
  datatype Cookie = Cookie(name: string, value: string, path: string)

  class Session {
    const id: string
    var data: map<string, Value>
    const creationTime: int
    var accessTime: int

    /** `NewSession(id)`: a session with no attributes, created and accessed at `now`. */
    constructor (id: string, now: int)
      ensures this.id == id && data == map[]
      ensures creationTime == now && accessTime == now
    {
      this.id := id;
      data := map[];
      creationTime := now;
      accessTime := now;
    }

    /** The generic read: the stored value, `Nil` for a missing key. */
    function Get(key: string): (v: Value)
      reads this
      ensures key in data ==> v == data[key]
      ensures key !in data ==> v == Nil
    {
      if key in data then data[key] else Nil
    }

    /** The value under `key`, if any, is an integer (the Go type assertion succeeds). */
    predicate HoldsInt(key: string)
      reads this
    {
      key in data ==> data[key].Int?
    }

    /** The value under `key`, if any, is a string. */
    predicate HoldsString(key: string)
      reads this
    {
      key in data ==> data[key].Str?
    }

    /** The value under `key`, if any, is a boolean. */
    predicate HoldsBool(key: string)
      reads this
    {
      key in data ==> data[key].Bool?
    }

    /** The authentication flag; an absent flag reads as false. */
    function IsAuth(): (r: bool)
      reads this
      requires HoldsBool(AuthKey)
      ensures AuthKey in data ==> data[AuthKey] == Bool(r)
      ensures AuthKey !in data ==> !r
    {
      if AuthKey in data then data[AuthKey].b else false
    }

    /** The username; an absent one reads as the empty string. */
    function Username(): (r: string)
      reads this
      requires HoldsString(UsernameKey)
      ensures UsernameKey in data ==> data[UsernameKey] == Str(r)
      ensures UsernameKey !in data ==> r == ""
    {
      if UsernameKey in data then data[UsernameKey].s else ""
    }

    /** The integer under `key`; an absent key reads as 0. */
    function GetInt(key: string): (r: int)
      reads this
      requires HoldsInt(key)
      ensures key in data ==> data[key] == Int(r)
      ensures key !in data ==> r == 0
    {
      if key in data then data[key].i else 0
    }

    /** The string under `key`; an absent key reads as the empty string. */
    function GetString(key: string): (r: string)
      reads this
      requires HoldsString(key)
      ensures key in data ==> data[key] == Str(r)
      ensures key !in data ==> r == ""
    {
      if key in data then data[key].s else ""
    }

    /** Stores `val` under `key`; every other key keeps its value. */
    method Set(key: string, val: Value)
      modifies this`data
      ensures data == old(data)[key := val]
      ensures Get(key) == val
      ensures forall k :: k != key ==> Get(k) == old(Get(k))
    {
      data := data[key := val];
    }

    /** Stores the authentication flag under its reserved key. */
    method SetAuth(isAuth: bool)
      modifies this`data
      ensures data == old(data)[AuthKey := Bool(isAuth)]
      ensures HoldsBool(AuthKey) && IsAuth() == isAuth
      ensures Get(AuthKey) == Bool(isAuth)
      ensures forall k :: k != AuthKey ==> Get(k) == old(Get(k))
    {
      data := data[AuthKey := Bool(isAuth)];
    }

    /** Stores the username under its reserved key. */
    method SetUsername(username: string)
      modifies this`data
      ensures data == old(data)[UsernameKey := Str(username)]
      ensures HoldsString(UsernameKey) && Username() == username
      ensures Get(UsernameKey) == Str(username)
      ensures forall k :: k != UsernameKey ==> Get(k) == old(Get(k))
    {
      data := data[UsernameKey := Str(username)];
    }
  }

  /**
   * What the random source delivered for a 32-byte read: the bytes it
   * filled (their count is the read's `n`) and whether it reported an error.
   */
  datatype RandomRead = RandomRead(bytes: seq<Hex.byte>, failed: bool)

  /** A 16-byte MD5 digest. */
  type Digest = d: seq<Hex.byte> | |d| == 16 witness [0, 0, 0, 0, 0, 0, 0, 0, 0, 0, 0, 0, 0, 0, 0, 0]

  /**
   * The entropy `newSession` draws on: the outcome of the random read, and
   * the MD5 digest of the packed clock reading used when that read falls short.
   */
  datatype Entropy = Entropy(read: RandomRead, clockDigest: Digest)

  const IdBytes: nat := 32

  /** The random read delivered a full buffer without error. */
  predicate FullRead(read: RandomRead) {
    |read.bytes| == IdBytes && !read.failed
  }

  /**
   * The identifier `newSession` mints: the hex of the 32 random bytes, or
   * the hex of the clock digest when the read failed or came up short.
   */
  function NewSessionId(entropy: Entropy): (id: string)
    ensures Hex.IsLowerHex(id)
    ensures FullRead(entropy.read) ==> |id| == 64 && Hex.Decode(id) == Some(entropy.read.bytes)
    ensures !FullRead(entropy.read) ==> |id| == 32 && Hex.Decode(id) == Some(entropy.clockDigest)
  {
    var read := entropy.read;
    if |read.bytes| != IdBytes || read.failed then
      Hex.DecodeEncode(entropy.clockDigest);
      Hex.Encode(entropy.clockDigest)
    else
      Hex.DecodeEncode(read.bytes);
      Hex.Encode(read.bytes)
  }

  /** Two full reads of different random bytes give different identifiers. */
  lemma DistinctReadsDistinctIds(e1: Entropy, e2: Entropy)
    requires FullRead(e1.read) && FullRead(e2.read)
    requires e1.read.bytes != e2.read.bytes
    ensures NewSessionId(e1) != NewSessionId(e2)
  {
  }

  /** A full-read identifier and a fallback identifier never coincide. */
  lemma FallbackIdsAreShorter(e1: Entropy, e2: Entropy)
    requires FullRead(e1.read) && !FullRead(e2.read)
    ensures NewSessionId(e1) != NewSessionId(e2)
  {
  }

  /**
   * The sweep's test for one session: older than `expiration` since its
   * creation, or idle longer than `timeout` since its last access. A
   * setting that is not positive turns its test off.
   */
  predicate Stale(s: Session, now: int, timeout: int, expiration: int)
    reads s
  {
    (expiration > 0 && now - s.creationTime > expiration)
    || (timeout > 0 && now - s.accessTime > timeout)
  }

  /** No identifier occurs twice in `ids`. */
  predicate Distinct(ids: seq<string>) {
    forall i, j :: 0 <= i < j < |ids| ==> ids[i] != ids[j]
  }

  class SessionManager {
    var sessions: map<string, Session>

    /** Every session is registered under its own identifier. */
    ghost predicate Valid()
      reads this
    {
      forall k :: k in sessions ==> sessions[k].id == k
    }

    /** `NewSessionManager`: an empty store (the sweep is started separately, see `Sweep`). */
    constructor ()
      ensures Valid() && sessions == map[]
    {
      sessions := map[];
    }

    /** Whether a session is registered under `id`; reads only. */
    function Has(id: string): (r: bool)
      reads this
      requires Valid()
      ensures r <==> exists s :: s in sessions.Values && s.id == id
    {
      assert id in sessions ==> sessions[id] in sessions.Values;
      id in sessions
    }

    /**
     * `newSession`: mints an identifier, registers a fresh empty session
     * under it (replacing any session that already had that identifier)
     * and returns it with the cookie that hands the identifier to the client.
     */
    method CreateSession(now: int, entropy: Entropy) returns (s: Session, cookie: Cookie)
      requires Valid()
      modifies this
      ensures Valid()
      ensures fresh(s) && s.id == NewSessionId(entropy) && s.data == map[]
      ensures s.creationTime == now && s.accessTime == now
      ensures sessions == old(sessions)[s.id := s]
      ensures cookie == Cookie(CookieName, s.id, "/")
    {
      var id := NewSessionId(entropy);
      s := new Session(id, now);
      sessions := sessions[s.id := s];
      cookie := Cookie(CookieName, s.id, "/");
    }

    /**
     * `GetById`: the registered session for `id`, its access time moved to
     * `now`; on a miss, a newly created session and the cookie to set.
     */
    method GetById(id: string, now: int, entropy: Entropy) returns (s: Session, cookie: Option<Cookie>)
      requires Valid()
      modifies this, if id in sessions then {sessions[id]} else {}
      ensures Valid()
      ensures id in old(sessions) ==>
        && s == old(sessions[id])
        && sessions == old(sessions)
        && s.accessTime == now && s.data == old(s.data)
        && cookie == None
      ensures id !in old(sessions) ==>
        && fresh(s) && s.id == NewSessionId(entropy) && s.data == map[]
        && s.creationTime == now && s.accessTime == now
        && sessions == old(sessions)[s.id := s]
        && (forall k :: k in old(sessions) && k != s.id ==> sessions[k] == old(sessions[k]))
        && (s.id != id ==> id !in sessions)
        && cookie == Some(Cookie(CookieName, s.id, "/"))
    {
      if id in sessions {
        s := sessions[id];
        s.accessTime := now;
        cookie := None;
        return;
      }
      var c;
      s, c := CreateSession(now, entropy);
      cookie := Some(c);
    }

    /** The identifier a request carries: its `_s` cookie, or "" without one. */
    static function CookieId(sessionCookie: Option<string>): (id: string)
      ensures sessionCookie.Some? ==> id == sessionCookie.value
      ensures sessionCookie.None? ==> id == ""
    {
      sessionCookie.GetOr("")
    }

    /**
     * `Get`: resolves the session for a request whose `_s` cookie has the
     * value `sessionCookie` (`None` when the request has no such cookie).
     */
    method Get(sessionCookie: Option<string>, now: int, entropy: Entropy) returns (s: Session, cookie: Option<Cookie>)
      requires Valid()
      modifies this, if CookieId(sessionCookie) in sessions then {sessions[CookieId(sessionCookie)]} else {}
      ensures Valid()
      ensures CookieId(sessionCookie) in old(sessions) ==>
        && s == old(sessions[CookieId(sessionCookie)])
        && sessions == old(sessions)
        && s.accessTime == now && s.data == old(s.data)
        && cookie == None
      ensures CookieId(sessionCookie) !in old(sessions) ==>
        && fresh(s) && s.id == NewSessionId(entropy) && s.data == map[]
        && s.creationTime == now && s.accessTime == now
        && sessions == old(sessions)[s.id := s]
        && cookie == Some(Cookie(CookieName, s.id, "/"))
    {
      s, cookie := GetById(CookieId(sessionCookie), now, entropy);
    }

    /**
     * The cookie protocol end to end: a request without a cookie gets a new
     * session and the cookie naming it; a username stored on that session
     * is seen by a later request presenting the cookie, which resolves to
     * the same session without setting a new cookie.
     */
    method ResumeWithCookie(now: int, later: int, entropy: Entropy, username: string)
      returns (first: Session, cookie: Cookie, second: Session)
      requires Valid() && "" !in sessions
      modifies this
      ensures Valid()
      ensures fresh(first) && first.id == NewSessionId(entropy)
      ensures FullRead(entropy.read) ==> |first.id| == 64
      ensures cookie == Cookie(CookieName, first.id, "/")
      ensures second == first && Has(first.id)
      ensures second.accessTime == later && second.creationTime == now
      ensures second.HoldsString(UsernameKey) && second.Username() == username
    {
      var set1: Option<Cookie>;
      first, set1 := Get(None, now, entropy);
      cookie := set1.value;
      first.SetUsername(username);
      var set2: Option<Cookie>;
      second, set2 := Get(Some(cookie.value), later, entropy);
      assert set2 == None;
    }

    /** `Set`: registers `session` under its identifier, replacing any previous entry. */
    method Set(session: Session)
      requires Valid()
      modifies this
      ensures Valid()
      ensures sessions == old(sessions)[session.id := session]
      ensures Has(session.id) && sessions[session.id] == session
      ensures forall k :: k in old(sessions) && k != session.id ==> k in sessions && sessions[k] == old(sessions[k])
    {
      sessions := sessions[session.id := session];
    }

    /** The identifiers the sweep selects at time `now`. */
    function StaleIds(now: int, timeout: int, expiration: int): (ids: set<string>)
      reads this, sessions.Values
      ensures ids <= sessions.Keys
      ensures forall k :: k in sessions ==> (k in ids <==> Stale(sessions[k], now, timeout, expiration))
    {
      set k | k in sessions && Stale(sessions[k], now, timeout, expiration)
    }

    /** With both checks turned off the sweep selects nothing. */
    lemma NothingStaleWhenDisabled(now: int, timeout: int, expiration: int)
      requires timeout <= 0 && expiration <= 0
      ensures StaleIds(now, timeout, expiration) == {}
    {
    }

    /**
     * The scan phase of `gc`: visits every entry once, in no particular
     * order, and lists the stale ones; an entry that fails the expiration
     * test is listed without its timeout being tested.
     */
    method CollectStale(now: int, timeout: int, expiration: int) returns (deleteList: seq<string>)
      ensures forall k :: k in deleteList <==> k in StaleIds(now, timeout, expiration)
      ensures Distinct(deleteList)
    {
      deleteList := [];
      var pending := sessions.Keys;
      while pending != {}
        invariant pending <= sessions.Keys
        invariant forall k :: k in deleteList <==>
          k in sessions && k !in pending && Stale(sessions[k], now, timeout, expiration)
        invariant Distinct(deleteList)
        decreases pending
      {
        var k :| k in pending;
        var v := sessions[k];
        pending := pending - {k};
        if expiration > 0 {
          if now - v.creationTime > expiration {
            deleteList := deleteList + [k];
            continue;
          }
        }
        if timeout > 0 {
          if now - v.accessTime > timeout {
            deleteList := deleteList + [k];
          }
        }
      }
    }

    /** The delete phase of `gc`: removes every listed identifier. */
    method DeleteSessions(deleteList: seq<string>)
      requires Valid()
      modifies this
      ensures Valid()
      ensures sessions == old(sessions) - (set k | k in deleteList)
    {
      if |deleteList| > 0 {
        for i := 0 to |deleteList|
          invariant Valid()
          invariant sessions == old(sessions) - (set k | k in deleteList[..i])
        {
          assert deleteList[..i + 1] == deleteList[..i] + [deleteList[i]];
          sessions := sessions - {deleteList[i]};
        }
        assert deleteList[..|deleteList|] == deleteList;
      }
    }

    /**
     * One pass of `gc` at time `now`: exactly the stale sessions are
     * removed, every other entry stays as it was, and with both checks
     * turned off nothing is removed.
     */
    method Sweep(now: int, timeout: int, expiration: int)
      requires Valid()
      modifies this
      ensures Valid()
      ensures sessions == old(sessions) - old(StaleIds(now, timeout, expiration))
      ensures forall k :: k in sessions <==>
        k in old(sessions) && !old(Stale(sessions[k], now, timeout, expiration))
      ensures forall k :: k in sessions ==> sessions[k] == old(sessions[k])
      ensures timeout <= 0 && expiration <= 0 ==> sessions == old(sessions)
    {
      var deleteList := CollectStale(now, timeout, expiration);
      DeleteSessions(deleteList);
      assert (set k | k in deleteList) == old(StaleIds(now, timeout, expiration));
    }
  }
}
