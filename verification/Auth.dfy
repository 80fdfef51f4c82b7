/** Passwordless login: magic links, sessions, logout, and authenticating a session token. */
module Auth {
  import opened Basics
  import opened Domain
  import opened UserTable

  const MINUTE := 60_000_000_000
  const MAGIC_LINK_TTL := 15 * MINUTE
  const SESSION_TTL := 24 * 60 * MINUTE

  /** Hashing never maps two tokens to one value. */
  datatype Digest = Hash(token: int)

  datatype MagicLink = MagicLink(userId: int, tokenHash: Digest, expiresAt: int)

  datatype Session = Session(id: int, userId: int, tokenHash: Digest, expiresAt: int)

  /** The login tables, and the supply of random tokens: every token generated is a new one. */
  datatype Tables = Tables(users: seq<User>, links: seq<MagicLink>, sessions: seq<Session>, nextToken: int)

  // ---- Statements ----

  function StoreLink(t: Tables, userId: int, now: int): Tables {
    t.(links := t.links + [MagicLink(userId, Hash(t.nextToken), now + MAGIC_LINK_TTL)], nextToken := t.nextToken + 1)
  }

  predicate Usable(link: MagicLink, hash: Digest, now: int) {
    link.tokenHash == hash && link.expiresAt > now
  }

  /** The rows a DELETE leaves. */
  function LinksLeft(links: seq<MagicLink>, hash: Digest, now: int): (r: seq<MagicLink>)
    ensures forall l :: l in r <==> l in links && !Usable(l, hash, now)
  {
    if links == [] then []
    else
      var init, last := links[..|links| - 1], links[|links| - 1];
      assert links == init + [last];
      var left := LinksLeft(init, hash, now);
      if Usable(last, hash, now) then left else left + [last]
  }

  /** The first row a DELETE ... RETURNING gives back. */
  function FirstUsable(links: seq<MagicLink>, hash: Digest, now: int): (r: Option<MagicLink>)
    ensures r.Some? ==> r.value in links && Usable(r.value, hash, now)
    ensures r.None? ==> forall l | l in links :: !Usable(l, hash, now)
  {
    if links == [] then None
    else if Usable(links[0], hash, now) then Some(links[0])
    else
      assert links == [links[0]] + links[1..];
      FirstUsable(links[1..], hash, now)
  }

  function UseLink(t: Tables, raw: int, now: int): (Tables, Option<MagicLink>) {
    (t.(links := LinksLeft(t.links, Hash(raw), now)), FirstUsable(t.links, Hash(raw), now))
  }

  /** Two tokens are drawn: the session's id, then its token. */
  function OpenSession(t: Tables, userId: int, now: int): Tables {
    t.(sessions := t.sessions + [Session(t.nextToken, userId, Hash(t.nextToken + 1), now + SESSION_TTL)],
       nextToken := t.nextToken + 2)
  }

  function FindSession(sessions: seq<Session>, hash: Digest): (r: Option<Session>)
    ensures r.Some? ==> r.value in sessions && r.value.tokenHash == hash
    ensures r.None? <==> forall s | s in sessions :: s.tokenHash != hash
  {
    if sessions == [] then None
    else if sessions[0].tokenHash == hash then Some(sessions[0])
    else
      assert sessions == [sessions[0]] + sessions[1..];
      FindSession(sessions[1..], hash)
  }

  /** The lookup accepts a session up to and including the instant it expires. */
  function LookUp(t: Tables, raw: int, now: int): Outcome<Session> {
    match FindSession(t.sessions, Hash(raw))
    case None => Err(NotFound)
    case Some(s) => if s.expiresAt < now then Err(Invalid) else Ok(s)
  }

  function LoadUser(t: Tables, s: Session): Outcome<CurrentUser> {
    match FindById(t.users, s.userId)
    case None => Err(NotFound)
    case Some(u) => if u.isEnabled then Ok(CurrentUser(u.id, u.email, u.role)) else Err(Forbidden)
  }

  /** Both halves of an authentication on one state of the tables. */
  function Authentication(t: Tables, raw: int, now: int): Outcome<CurrentUser> {
    match LookUp(t, raw, now)
    case Err(e) => Err(e)
    case Ok(s) => LoadUser(t, s)
  }

  function SessionsLeft(sessions: seq<Session>, userId: int): (r: seq<Session>)
    ensures forall s :: s in r <==> s in sessions && s.userId != userId
  {
    if sessions == [] then []
    else
      var init, last := sessions[..|sessions| - 1], sessions[|sessions| - 1];
      assert sessions == init + [last];
      var left := SessionsLeft(init, userId);
      if last.userId == userId then left else left + [last]
  }

  function EndSessions(t: Tables, userId: int): Tables {
    t.(sessions := SessionsLeft(t.sessions, userId))
  }

  predicate DistinctLinks(links: seq<MagicLink>) {
    forall i, j | 0 <= i < j < |links| :: links[i].tokenHash != links[j].tokenHash
  }

  predicate DistinctIds(users: seq<User>) {
    forall i, j | 0 <= i < j < |users| :: users[i].id != users[j].id
  }

  predicate DistinctSessions(sessions: seq<Session>) {
    forall i, j | 0 <= i < j < |sessions| :: sessions[i].tokenHash != sessions[j].tokenHash
  }

  lemma {:induction false} LinksLeftDistinct(links: seq<MagicLink>, hash: Digest, now: int)
    requires DistinctLinks(links)
    ensures DistinctLinks(LinksLeft(links, hash, now))
  {
    if links != [] {
      var init := links[..|links| - 1];
      LinksLeftDistinct(init, hash, now);
      forall l | l in LinksLeft(init, hash, now) ensures l.tokenHash != links[|links| - 1].tokenHash {
        var i :| 0 <= i < |init| && init[i] == l;
        assert links[i] == l;
      }
    }
  }

  lemma {:induction false} SessionsLeftDistinct(sessions: seq<Session>, userId: int)
    requires DistinctSessions(sessions)
    ensures DistinctSessions(SessionsLeft(sessions, userId))
  {
    if sessions != [] {
      var init := sessions[..|sessions| - 1];
      SessionsLeftDistinct(init, userId);
      forall s | s in SessionsLeft(init, userId) ensures s.tokenHash != sessions[|sessions| - 1].tokenHash {
        var i :| 0 <= i < |init| && init[i] == s;
        assert sessions[i] == s;
      }
    }
  }

  // ---- The service, one caller at a time ----

  class Service {
    var users: seq<User>
    var links: seq<MagicLink>
    var sessions: seq<Session>
    var nextToken: int

    constructor (users: seq<User>)
      requires DistinctIds(users)
      ensures Valid() && State() == Tables(users, [], [], 0)
    {
      this.users := users;
      links, sessions, nextToken := [], [], 0;
    }

    /** User ids and session token hashes are unique, and tokens yet to be drawn are in no session. */
    predicate Valid()
      reads this
    {
      && DistinctIds(users) && DistinctSessions(sessions)
      && forall s | s in sessions :: s.tokenHash.token < nextToken
    }

    function State(): Tables
      reads this
    {
      Tables(users, links, sessions, nextToken)
    }

    method GenerateToken() returns (token: int)
      modifies this`nextToken
      ensures token == old(nextToken) && nextToken == old(nextToken) + 1
    {
      token := nextToken;
      nextToken := nextToken + 1;
    }

    /** Sends a link to an enabled user; a disabled one gets neither a link nor an error. A link that is stored but
        cannot be sent stays stored. */
    method RequestLogin(email: string, now: int, stores: bool, sends: bool) returns (r: Outcome<bool>)
      requires Valid()
      modifies this`links, this`nextToken
      ensures Valid()
      ensures var user := FindByEmail(users, email);
              if user.None? then r == Err(NotFound) && State() == old(State())
              else if !user.value.isEnabled then r == Ok(false) && State() == old(State())
              else
                && r == (if stores && sends then Ok(true) else Err(Storage))
                && State() == if stores then StoreLink(old(State()), user.value.id, now) else old(State())
    {
      var user := FindByEmail(users, email);
      if user.None? {
        return Err(NotFound);
      }
      if !user.value.isEnabled {
        return Ok(false);
      }
      if !stores {
        return Err(Storage);
      }
      var token := GenerateToken();
      links := links + [MagicLink(user.value.id, Hash(token), now + MAGIC_LINK_TTL)];
      if !sends {
        return Err(Storage);
      }
      r := Ok(true);
    }

    /** Trades an unexpired link for a session. The link is gone even if the session cannot be opened then. */
    method VerifyMagicLink(raw: int, now: int, opens: bool) returns (r: Outcome<int>)
      requires Valid()
      modifies this`links, this`sessions, this`nextToken
      ensures Valid()
      ensures var (used, link) := UseLink(old(State()), raw, now);
              if link.None? then r == Err(Invalid) && State() == used
              else if !opens then r == Err(Storage) && State() == used
              else
                && State() == OpenSession(used, link.value.userId, now)
                && r == Ok(old(nextToken) + 1)
    {
      var link := FirstUsable(links, Hash(raw), now);
      links := LinksLeft(links, Hash(raw), now);
      if link.None? {
        return Err(Invalid);
      }
      if !opens {
        return Err(Storage);
      }
      var id := GenerateToken();
      var token := GenerateToken();
      sessions := sessions + [Session(id, link.value.userId, Hash(token), now + SESSION_TTL)];
      r := Ok(token);
    }

    method Logout(userId: int)
      requires Valid()
      modifies this`sessions
      ensures Valid()
      ensures State() == EndSessions(old(State()), userId)
    {
      SessionsLeftDistinct(sessions, userId);
      sessions := SessionsLeft(sessions, userId);
    }

    /** A stored session with this token. */
    predicate Opens(s: Session, raw: int)
      reads this
    {
      s in sessions && s.tokenHash == Hash(raw)
    }

    predicate Owns(u: User, s: Session)
      reads this
    {
      u in users && u.id == s.userId
    }

    /** Answers exactly the holder of an unexpired session whose user is enabled, with that user's row of now. */
    method AuthenticateSession(raw: int, now: int) returns (r: Outcome<CurrentUser>)
      requires Valid()
      ensures r.Ok? <==> exists s, u :: Opens(s, raw) && s.expiresAt >= now && Owns(u, s) && u.isEnabled
      ensures r.Ok? ==> exists s, u :: Opens(s, raw) && Owns(u, s) && r.value == CurrentUser(u.id, u.email, u.role)
      ensures r == Err(Invalid) <==> exists s :: Opens(s, raw) && s.expiresAt < now
      ensures r == Err(Forbidden) <==> exists s, u :: Opens(s, raw) && s.expiresAt >= now && Owns(u, s) && !u.isEnabled
      ensures r.Err? ==> r.error in {NotFound, Invalid, Forbidden}
      ensures r == Authentication(State(), raw, now)
    {
      var session := FindSession(sessions, Hash(raw));
      if session.None? {
        return Err(NotFound);
      }
      assert Opens(session.value, raw);
      if session.value.expiresAt < now {
        return Err(Invalid);
      }
      var user := FindById(users, session.value.userId);
      if user.None? {
        return Err(NotFound);
      }
      assert Owns(user.value, session.value);
      if !user.value.isEnabled {
        return Err(Forbidden);
      }
      r := Ok(CurrentUser(user.value.id, user.value.email, user.value.role));
    }
  }
}
