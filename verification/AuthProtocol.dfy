/** Any number of logins, verifications, authentications and logouts at once, each split at its statements, while
    the users table changes freely. Every clock reading and every presented token is arbitrary. */
module AuthProtocol {
  import opened Basics
  import opened Domain
  import opened UserTable
  import opened Auth

  datatype Job =
    | LoginRead(email: string)
    | LoginStore(user: User)
    | VerifyUse(raw: int)
    | VerifyOpen(link: int, userId: int, now: int)  // the link is consumed; its session is not stored yet
    | AuthFind(raw: int)
    | AuthLoad(session: Session, now: int)
    | Ended

  /** History: who requested each link and when, when it was consumed, which link each session came from, and
      who was authenticated. */
  datatype Request = Request(user: User, at: int)
  datatype Use = Use(userId: int, at: int)
  datatype Authenticated = Authenticated(token: int, user: CurrentUser, at: int)

  datatype World = World(
    tables: Tables,
    jobs: seq<Job>,
    everUsers: seq<User>,
    requests: map<int, Request>,
    uses: map<int, Use>,
    origin: map<int, int>,
    auths: seq<Authenticated>)

  datatype Step =
    | Begin(job: Job)
    | Users(users: seq<User>)             // the users table changes, in any way
    | Logout(userId: int)
    | Advance(index: nat, now: int, ok: bool) // not ok: a token could not be drawn or the statement failed

  const START := World(Tables([], [], [], 0), [], [], map[], map[], map[], [])

  function Put(w: World, j: nat, job: Job): World
    requires j < |w.jobs|
  {
    w.(jobs := w.jobs[j := job])
  }

  function Continue(w: World, j: nat, now: int): World
    requires j < |w.jobs|
  {
    var t := w.tables;
    match w.jobs[j]
    case LoginRead(email) =>
      var user := FindByEmail(t.users, email);
      Put(w, j, if user.Some? && user.value.isEnabled then LoginStore(user.value) else Ended)
    case LoginStore(user) =>
      Put(w, j, Ended).(tables := StoreLink(t, user.id, now), requests := w.requests[t.nextToken := Request(user, now)])
    case VerifyUse(raw) =>
      var (t', link) := UseLink(t, raw, now);
      if link.None? then Put(w, j, Ended).(tables := t')
      else Put(w, j, VerifyOpen(raw, link.value.userId, now))
              .(tables := t', uses := w.uses[raw := Use(link.value.userId, now)])
    case VerifyOpen(link, userId, usedAt) =>
      Put(w, j, Ended).(tables := OpenSession(t, userId, usedAt), origin := w.origin[t.nextToken + 1 := link])
    case AuthFind(raw) =>
      (match LookUp(t, raw, now)
       case Ok(s) => Put(w, j, AuthLoad(s, now))
       case Err(_) => Put(w, j, Ended))
    case AuthLoad(s, at) =>
      (match LoadUser(t, s)
       case Ok(user) => Put(w, j, Ended).(auths := w.auths + [Authenticated(s.tokenHash.token, user, at)])
       case Err(_) => Put(w, j, Ended))
    case Ended => w
  }

  function Next(w: World, step: Step): World {
    match step
    case Begin(job) =>
      if job.LoginRead? || job.VerifyUse? || job.AuthFind? then w.(jobs := w.jobs + [job]) else w
    case Users(users) => w.(tables := w.tables.(users := users), everUsers := w.everUsers + users)
    case Logout(userId) => w.(tables := EndSessions(w.tables, userId))
    case Advance(j, now, ok) =>
      if j >= |w.jobs| then w
      else if !ok then Put(w, j, Ended)
      else Continue(w, j, now)
  }

  function Run(steps: seq<Step>): World {
    if steps == [] then START else Next(Run(steps[..|steps| - 1]), steps[|steps| - 1])
  }

  // ---- The invariant ----

  predicate RequestsOk(w: World) {
    && (forall u | u in w.tables.users :: u in w.everUsers)
    && (forall t | t in w.requests ::
          t < w.tables.nextToken && w.requests[t].user.isEnabled && w.requests[t].user in w.everUsers)
    && (forall t | t in w.uses ::
          && t in w.requests && w.uses[t].userId == w.requests[t].user.id
          && w.uses[t].at < w.requests[t].at + MAGIC_LINK_TTL)
  }

  /** A stored link is one that was requested and has not been consumed. */
  predicate LinkOk(w: World, l: MagicLink) {
    var t := l.tokenHash.token;
    && t in w.requests && t !in w.uses
    && l.userId == w.requests[t].user.id && l.expiresAt == w.requests[t].at + MAGIC_LINK_TTL
  }

  /** A session is the one opened with a consumed link. */
  predicate SessionOk(w: World, s: Session) {
    var t := s.tokenHash.token;
    && t in w.origin && w.origin[t] in w.uses
    && s.userId == w.uses[w.origin[t]].userId && s.expiresAt == w.uses[w.origin[t]].at + SESSION_TTL
  }

  predicate Unopened(w: World, link: int) {
    forall t | t in w.origin :: w.origin[t] != link
  }

  predicate JobOk(w: World, job: Job) {
    match job
    case LoginStore(user) => user.isEnabled && user in w.everUsers
    case VerifyOpen(link, userId, now) => link in w.uses && w.uses[link] == Use(userId, now) && Unopened(w, link)
    case AuthLoad(s, now) => SessionOk(w, s) && now <= s.expiresAt
    case _ => true
  }

  predicate LinksOk(w: World) {
    && (forall l | l in w.tables.links :: LinkOk(w, l))
    && DistinctLinks(w.tables.links)
  }

  predicate SessionsOk(w: World) {
    && (forall s | s in w.tables.sessions :: SessionOk(w, s))
    && DistinctSessions(w.tables.sessions)
    && (forall t | t in w.origin :: t < w.tables.nextToken && w.origin[t] in w.uses)
    && (forall t, t' | t in w.origin && t' in w.origin && t != t' :: w.origin[t] != w.origin[t'])
  }

  predicate JobsOk(w: World) {
    && (forall j | 0 <= j < |w.jobs| :: JobOk(w, w.jobs[j]))
    && (forall i, j | 0 <= i < j < |w.jobs| && w.jobs[i].VerifyOpen? && w.jobs[j].VerifyOpen? ::
          w.jobs[i].link != w.jobs[j].link)
  }

  predicate AuthenticatedOk(w: World, a: Authenticated) {
    && a.token in w.origin && w.origin[a.token] in w.uses
    && a.user.id == w.uses[w.origin[a.token]].userId
    && a.at <= w.uses[w.origin[a.token]].at + SESSION_TTL
    && User(a.user.id, a.user.email, a.user.role, true) in w.everUsers
  }

  predicate Inv(w: World) {
    && RequestsOk(w) && LinksOk(w) && SessionsOk(w) && JobsOk(w)
    && forall i | 0 <= i < |w.auths| :: AuthenticatedOk(w, w.auths[i])
  }

  lemma ContinueKeepsInv(w: World, j: nat, now: int)
    requires Inv(w) && j < |w.jobs|
    ensures Inv(Continue(w, j, now))
  {
    assert JobOk(w, w.jobs[j]);
    match w.jobs[j]
    case LoginRead(email) => PutKeepsInv(w, j, Continue(w, j, now).jobs[j]);
    case LoginStore(user) => LoginStoreKeepsInv(w, j, now);
    case VerifyUse(raw) => VerifyUseKeepsInv(w, j, now);
    case VerifyOpen(_, _, _) => VerifyOpenKeepsInv(w, j, now);
    case AuthFind(raw) => PutKeepsInv(w, j, Continue(w, j, now).jobs[j]);
    case AuthLoad(s, at) => AuthLoadKeepsInv(w, j, now);
    case Ended =>
  }

  // A step that only moves one job on keeps the invariant.
  lemma PutKeepsInv(w: World, j: nat, job: Job)
    requires Inv(w) && j < |w.jobs| && JobOk(w, job) && !job.VerifyOpen?
    ensures Inv(Put(w, j, job))
  {
    var w' := Put(w, j, job);
    forall i | 0 <= i < |w'.jobs| ensures JobOk(w', w'.jobs[i]) {
      assert JobOk(w, w.jobs[i]);
    }
    forall i | 0 <= i < |w'.auths| ensures AuthenticatedOk(w', w'.auths[i]) {
      assert AuthenticatedOk(w, w.auths[i]);
    }
  }

  lemma AuthLoadKeepsInv(w: World, j: nat, now: int)
    requires Inv(w) && j < |w.jobs| && w.jobs[j].AuthLoad?
    ensures Inv(Continue(w, j, now))
  {
    var w' := Continue(w, j, now);
    assert JobOk(w, w.jobs[j]);
    PutKeepsInv(w, j, Ended);
    forall i | 0 <= i < |w'.auths| ensures AuthenticatedOk(w', w'.auths[i]) {
      assert i < |w.auths| ==> AuthenticatedOk(w, w.auths[i]);
    }
    forall i | 0 <= i < |w'.jobs| ensures JobOk(w', w'.jobs[i]) {
      assert JobOk(w, w.jobs[i]);
    }
  }

  lemma LoginStoreKeepsInv(w: World, j: nat, now: int)
    requires Inv(w) && j < |w.jobs| && w.jobs[j].LoginStore?
    ensures Inv(Continue(w, j, now))
  {
    var w' := Continue(w, j, now);
    assert JobOk(w, w.jobs[j]);
    forall i | 0 <= i < |w'.jobs| ensures JobOk(w', w'.jobs[i]) {
      assert JobOk(w, w.jobs[i]);
    }
    forall l | l in w'.tables.links ensures LinkOk(w', l) {
      assert l in w.tables.links ==> LinkOk(w, l);
    }
    forall i | 0 <= i < |w.tables.links| ensures w.tables.links[i].tokenHash.token < w.tables.nextToken {
      assert w.tables.links[i] in w.tables.links;
      assert LinkOk(w, w.tables.links[i]);
    }
    forall i | 0 <= i < |w'.auths| ensures AuthenticatedOk(w', w'.auths[i]) {
      assert AuthenticatedOk(w, w.auths[i]);
    }
  }

  // The link used was requested and not used before, and no link with its token is left.
  lemma UsedLinkIsRemoved(w: World, raw: int, now: int)
    requires Inv(w)
    ensures var found := FirstUsable(w.tables.links, Hash(raw), now);
            found.Some? ==>
              && LinkOk(w, found.value) && found.value.tokenHash == Hash(raw) && now < found.value.expiresAt
              && forall l | l in LinksLeft(w.tables.links, Hash(raw), now) :: l.tokenHash != Hash(raw)
  {
    var found := FirstUsable(w.tables.links, Hash(raw), now);
    if found.Some? {
      forall l | l in w.tables.links && l.tokenHash == Hash(raw) ensures l == found.value {
        SameLink(w.tables.links, l, found.value);
      }
    }
  }

  lemma VerifyUseKeepsJobs(w: World, j: nat, now: int)
    requires Inv(w) && j < |w.jobs| && w.jobs[j].VerifyUse?
    ensures JobsOk(Continue(w, j, now))
  {
    var w' := Continue(w, j, now);
    UsedLinkIsRemoved(w, w.jobs[j].raw, now);
    forall i | 0 <= i < |w'.jobs| ensures JobOk(w', w'.jobs[i]) {
      assert JobOk(w, w.jobs[i]);
    }
  }

  lemma VerifyUseKeepsInv(w: World, j: nat, now: int)
    requires Inv(w) && j < |w.jobs| && w.jobs[j].VerifyUse?
    ensures Inv(Continue(w, j, now))
  {
    var w' := Continue(w, j, now);
    var raw := w.jobs[j].raw;
    UsedLinkIsRemoved(w, raw, now);
    VerifyUseKeepsJobs(w, j, now);
    forall l | l in w'.tables.links ensures LinkOk(w', l) {
      assert LinkOk(w, l);
    }
    LinksLeftDistinct(w.tables.links, Hash(raw), now);
    forall i | 0 <= i < |w'.auths| ensures AuthenticatedOk(w', w'.auths[i]) {
      assert AuthenticatedOk(w, w.auths[i]);
    }
  }

  lemma SameLink(links: seq<MagicLink>, a: MagicLink, b: MagicLink)
    requires DistinctLinks(links)
    requires a in links && b in links && a.tokenHash == b.tokenHash
    ensures a == b
  {
  }

  lemma VerifyOpenKeepsInv(w: World, j: nat, now: int)
    requires Inv(w) && j < |w.jobs| && w.jobs[j].VerifyOpen?
    ensures Inv(Continue(w, j, now))
  {
    var w' := Continue(w, j, now);
    assert JobOk(w, w.jobs[j]);
    forall i | 0 <= i < |w'.jobs| ensures JobOk(w', w'.jobs[i]) {
      assert JobOk(w, w.jobs[i]);
    }
    forall s | s in w'.tables.sessions ensures SessionOk(w', s) {
      assert s in w.tables.sessions ==> SessionOk(w, s);
    }
    forall i | 0 <= i < |w.tables.sessions| ensures w.tables.sessions[i].tokenHash.token < w.tables.nextToken {
      assert w.tables.sessions[i] in w.tables.sessions;
      assert SessionOk(w, w.tables.sessions[i]);
    }
    forall i | 0 <= i < |w'.auths| ensures AuthenticatedOk(w', w'.auths[i]) {
      assert AuthenticatedOk(w, w.auths[i]);
    }
  }

  lemma UsersKeepInv(w: World, users: seq<User>)
    requires Inv(w)
    ensures Inv(Next(w, Users(users)))
  {
    var w' := Next(w, Users(users));
    forall i | 0 <= i < |w'.jobs| ensures JobOk(w', w'.jobs[i]) {
      assert JobOk(w, w.jobs[i]);
    }
    forall i | 0 <= i < |w'.auths| ensures AuthenticatedOk(w', w'.auths[i]) {
      assert AuthenticatedOk(w, w.auths[i]);
    }
  }

  lemma LogoutKeepsInv(w: World, userId: int)
    requires Inv(w)
    ensures Inv(Next(w, Logout(userId)))
  {
    var w' := Next(w, Logout(userId));
    SessionsLeftDistinct(w.tables.sessions, userId);
    forall s | s in w'.tables.sessions ensures SessionOk(w', s) {
      assert SessionOk(w, s);
    }
    forall i | 0 <= i < |w'.jobs| ensures JobOk(w', w'.jobs[i]) {
      assert JobOk(w, w.jobs[i]);
    }
    forall i | 0 <= i < |w'.auths| ensures AuthenticatedOk(w', w'.auths[i]) {
      assert AuthenticatedOk(w, w.auths[i]);
    }
  }

  lemma BeginKeepsInv(w: World, job: Job)
    requires Inv(w)
    ensures Inv(Next(w, Begin(job)))
  {
    var w' := Next(w, Begin(job));
    forall i | 0 <= i < |w'.jobs| ensures JobOk(w', w'.jobs[i]) {
      assert i < |w.jobs| ==> JobOk(w, w.jobs[i]);
    }
    forall i | 0 <= i < |w'.auths| ensures AuthenticatedOk(w', w'.auths[i]) {
      assert AuthenticatedOk(w, w.auths[i]);
    }
  }

  lemma NextKeepsInv(w: World, step: Step)
    requires Inv(w)
    ensures Inv(Next(w, step))
  {
    match step
    case Begin(job) => BeginKeepsInv(w, job);
    case Users(users) => UsersKeepInv(w, users);
    case Logout(userId) => LogoutKeepsInv(w, userId);
    case Advance(j, now, ok) =>
      if j < |w.jobs| {
        if ok {
          ContinueKeepsInv(w, j, now);
        } else {
          PutKeepsInv(w, j, Ended);
        }
      }
  }

  lemma {:induction false} RunKeepsInv(steps: seq<Step>)
    ensures Inv(Run(steps))
  {
    if steps != [] {
      RunKeepsInv(steps[..|steps| - 1]);
      NextKeepsInv(Run(steps[..|steps| - 1]), steps[|steps| - 1]);
    }
  }

  // ---- Theorems ----

  // An authentication is appended only by a step that finds the session's enabled user in the table of that moment.
  lemma ContinueAuthenticates(w: World, j: nat, now: int)
    requires j < |w.jobs|
    ensures var w' := Continue(w, j, now);
            || w'.auths == w.auths
            || (w.jobs[j].AuthLoad?
                && var s := w.jobs[j].session;
                   && LoadUser(w.tables, s).Ok?
                   && w'.auths == w.auths +
                        [Authenticated(s.tokenHash.token, LoadUser(w.tables, s).value, w.jobs[j].now)])
  {
  }

  lemma StepAuthenticates(w: World, step: Step)
    ensures var w' := Next(w, step);
            || w'.auths == w.auths
            || (step.Advance? && step.index < |w.jobs| && w.jobs[step.index].AuthLoad?
                && var s := w.jobs[step.index].session;
                   && LoadUser(w.tables, s).Ok?
                   && w'.auths == w.auths +
                        [Authenticated(s.tokenHash.token, LoadUser(w.tables, s).value, w.jobs[step.index].now)])
  {
    if step.Advance? && step.index < |w.jobs| && step.ok {
      ContinueAuthenticates(w, step.index, step.now);
    }
  }

  lemma RunSnoc(steps: seq<Step>, step: Step)
    ensures Run(steps + [step]) == Next(Run(steps), step)
  {
    assert (steps + [step])[..|steps|] == steps;
  }

  predicate CompletedAt(steps: seq<Step>, i: nat, n: nat)
    requires i < |Run(steps).auths|
  {
    && n < |steps|
    && var (before, a) := (Run(steps[..n]), Run(steps).auths[i]);
       && |before.auths| == i && Run(steps[..n + 1]).auths == before.auths + [a]
       && FindById(before.tables.users, a.user.id) == Some(User(a.user.id, a.user.email, a.user.role, true))
  }

  /** In every run the user an authentication returns is the enabled row that the users table holds in the very state in
      which the authentication completes. */
  lemma {:induction false} AuthenticationReturnsTheLiveUser(steps: seq<Step>, i: nat) returns (n: nat)
    requires i < |Run(steps).auths|
    ensures CompletedAt(steps, i, n)
  {
    var last := |steps| - 1;
    StepAuthenticates(Run(steps[..last]), steps[last]);
    assert steps[..last + 1] == steps;
    if i < |Run(steps[..last]).auths| {
      n := AuthenticationReturnsTheLiveUser(steps[..last], i);
      assert steps[..last][..n] == steps[..n] && steps[..last][..n + 1] == steps[..n + 1];
    } else {
      n := last;
    }
  }

  /** Whoever is authenticated at time t requested a link while enabled, strictly later than t minus 24 h 15 min, and is
      returned as the enabled row that the users table holds when the authentication completes. */
  lemma AuthenticationProvenance(steps: seq<Step>, i: nat)
    requires i < |Run(steps).auths|
    ensures var w := Run(steps);
            var a := w.auths[i];
            && (exists n :: CompletedAt(steps, i, n))
            && exists link :: link in w.requests
                 && w.requests[link].user.id == a.user.id
                 && w.requests[link].user.isEnabled && w.requests[link].user in w.everUsers
                 && w.requests[link].at > a.at - 87_300_000_000_000
  {
    RunKeepsInv(steps);
    var n := AuthenticationReturnsTheLiveUser(steps, i);
    var w := Run(steps);
    assert AuthenticatedOk(w, w.auths[i]);
    var link := w.origin[w.auths[i].token];
    assert link in w.uses && link in w.requests;
    assert w.requests[link].at > w.auths[i].at - 87_300_000_000_000;
  }

  /** Every stored session was opened with a link its user had requested and that was then consumed in time; and no two
      sessions ever opened, stored or not, came from the same link. */
  lemma SessionsComeFromOwnLinks(steps: seq<Step>)
    ensures var w := Run(steps);
            && (forall s | s in w.tables.sessions ::
                  && s.tokenHash.token in w.origin
                  && var link := w.origin[s.tokenHash.token];
                     && link in w.uses && link in w.requests && s.userId == w.requests[link].user.id
                     && w.uses[link].at < w.requests[link].at + MAGIC_LINK_TTL
                     && s.expiresAt == w.uses[link].at + SESSION_TTL)
            && (forall t, t' | t in w.origin && t' in w.origin && w.origin[t] == w.origin[t'] :: t == t')
            && (forall i, j | 0 <= i < j < |w.tables.sessions| ::
                  w.tables.sessions[i].tokenHash != w.tables.sessions[j].tokenHash)
  {
    RunKeepsInv(steps);
    var w := Run(steps);
    forall s | s in w.tables.sessions ensures SessionOk(w, s) {}
  }

  lemma UsedLinkIsUnusable(w: World, raw: int, now: int)
    requires Inv(w) && raw in w.uses
    ensures FirstUsable(w.tables.links, Hash(raw), now).None?
  {
  }

  lemma UseStays(w: World, step: Step, raw: int)
    requires Inv(w) && raw in w.uses
    ensures raw in Next(w, step).uses && Next(w, step).uses[raw] == w.uses[raw]
  {
    if step.Advance? {
      UsedLinkIsUnusable(w, raw, step.now);
    }
  }

  lemma UseStaysAfter(steps: seq<Step>, step: Step, raw: int)
    requires raw in Run(steps).uses
    ensures raw in Next(Run(steps), step).uses && Next(Run(steps), step).uses[raw] == Run(steps).uses[raw]
  {
    RunKeepsInv(steps);
    UseStays(Run(steps), step, raw);
  }

  lemma RunContinues(steps: seq<Step>, more: seq<Step>)
    requires more != []
    ensures Run(steps + more) == Next(Run(steps + more[..|more| - 1]), more[|more| - 1])
  {
    assert (steps + more)[..|steps + more| - 1] == steps + more[..|more| - 1];
  }

  lemma {:induction false} UseStaysInRuns(steps: seq<Step>, more: seq<Step>, raw: int)
    requires raw in Run(steps).uses
    ensures raw in Run(steps + more).uses && Run(steps + more).uses[raw] == Run(steps).uses[raw]
  {
    if more == [] {
      assert steps + more == steps;
    } else {
      UseStaysInRuns(steps, more[..|more| - 1], raw);
      UseStaysAfter(steps + more[..|more| - 1], more[|more| - 1], raw);
      RunContinues(steps, more);
    }
  }

  /** However many verifications race, and even if the session could not be stored, a link once consumed is never
      usable again, at any clock reading, and its consumption stays the only one. */
  lemma LinkIsUsedOnce(steps: seq<Step>, more: seq<Step>, raw: int, now: int)
    requires raw in Run(steps).uses
    ensures var w := Run(steps + more);
            && raw in w.uses && w.uses[raw] == Run(steps).uses[raw]
            && FirstUsable(w.tables.links, Hash(raw), now).None?
  {
    UseStaysInRuns(steps, more, raw);
    RunKeepsInv(steps + more);
    UsedLinkIsUnusable(Run(steps + more), raw, now);
  }

  // ---- Logging in works, and for how long ----

  /** The tables after an undisturbed request for a link, and after an undisturbed verification. */
  function AfterRequest(t: Tables, email: string, now: int): Tables {
    var user := FindByEmail(t.users, email);
    if user.Some? && user.value.isEnabled then StoreLink(t, user.value.id, now) else t
  }

  function AfterVerify(t: Tables, raw: int, now: int): Tables {
    var (used, link) := UseLink(t, raw, now);
    if link.None? then used else OpenSession(used, link.value.userId, now)
  }

  /** What presenting a token undisturbed adds to the record. */
  function Recorded(t: Tables, raw: int, now: int): seq<Authenticated> {
    var user := Authentication(t, raw, now);
    if user.Ok? then [Authenticated(raw, user.value, now)] else []
  }

  function RequestSteps(j: nat, email: string, now: int): seq<Step> {
    [Begin(LoginRead(email)), Advance(j, now, true), Advance(j, now, true)]
  }

  function VerifySteps(j: nat, raw: int, now: int): seq<Step> {
    [Begin(VerifyUse(raw)), Advance(j, now, true), Advance(j, now, true)]
  }

  function PresentSteps(j: nat, raw: int, now: int): seq<Step> {
    [Begin(AuthFind(raw)), Advance(j, now, true), Advance(j, now, true)]
  }

  lemma RunTwo(steps: seq<Step>, a: Step, b: Step)
    ensures Run(steps + [a, b]) == Next(Next(Run(steps), a), b)
  {
    RunSnoc(steps, a);
    RunSnoc(steps + [a], b);
    assert steps + [a] + [b] == steps + [a, b];
  }

  lemma RunThree(steps: seq<Step>, a: Step, b: Step, c: Step)
    ensures Run(steps + [a, b, c]) == Next(Next(Next(Run(steps), a), b), c)
  {
    RunTwo(steps, a, b);
    RunSnoc(steps + [a, b], c);
    assert steps + [a, b] + [c] == steps + [a, b, c];
  }

  lemma RequestedNext(w: World, email: string, now: int)
    ensures var step := Advance(|w.jobs|, now, true);
            var w' := Next(Next(Next(w, Begin(LoginRead(email))), step), step);
            |w'.jobs| == |w.jobs| + 1 && w'.auths == w.auths && w'.tables == AfterRequest(w.tables, email, now)
  {
    var step := Advance(|w.jobs|, now, true);
    var begun := Next(w, Begin(LoginRead(email)));
    var user := FindByEmail(w.tables.users, email);
    assert begun == w.(jobs := w.jobs + [LoginRead(email)]);
    assert Next(begun, step) ==
      w.(jobs := w.jobs + [if user.Some? && user.value.isEnabled then LoginStore(user.value) else Ended]);
  }

  lemma Requests(steps: seq<Step>, email: string, now: int)
    ensures var (w, j) := (Run(steps), |Run(steps).jobs|);
            var w' := Run(steps + RequestSteps(j, email, now));
            |w'.jobs| == j + 1 && w'.auths == w.auths && w'.tables == AfterRequest(w.tables, email, now)
  {
    RequestedNext(Run(steps), email, now);
    var step := Advance(|Run(steps).jobs|, now, true);
    RunThree(steps, Begin(LoginRead(email)), step, step);
  }

  lemma VerifiedNext(w: World, raw: int, now: int)
    ensures var step := Advance(|w.jobs|, now, true);
            var w' := Next(Next(Next(w, Begin(VerifyUse(raw))), step), step);
            |w'.jobs| == |w.jobs| + 1 && w'.auths == w.auths && w'.tables == AfterVerify(w.tables, raw, now)
  {
    var step := Advance(|w.jobs|, now, true);
    var begun := Next(w, Begin(VerifyUse(raw)));
    var (used, link) := UseLink(w.tables, raw, now);
    var used' := Next(begun, step);
    assert begun == w.(jobs := w.jobs + [VerifyUse(raw)]);
    assert used'.jobs == w.jobs + [if link.Some? then VerifyOpen(raw, link.value.userId, now) else Ended];
    assert used'.tables == used && used'.auths == w.auths;
  }

  lemma Verifies(steps: seq<Step>, raw: int, now: int)
    ensures var (w, j) := (Run(steps), |Run(steps).jobs|);
            var w' := Run(steps + VerifySteps(j, raw, now));
            |w'.jobs| == j + 1 && w'.auths == w.auths && w'.tables == AfterVerify(w.tables, raw, now)
  {
    VerifiedNext(Run(steps), raw, now);
    var step := Advance(|Run(steps).jobs|, now, true);
    RunThree(steps, Begin(VerifyUse(raw)), step, step);
  }

  lemma PresentedNext(w: World, raw: int, now: int)
    ensures var step := Advance(|w.jobs|, now, true);
            var w' := Next(Next(Next(w, Begin(AuthFind(raw))), step), step);
            w'.auths == w.auths + Recorded(w.tables, raw, now)
  {
    var step := Advance(|w.jobs|, now, true);
    var begun := Next(w, Begin(AuthFind(raw)));
    var found := LookUp(w.tables, raw, now);
    assert begun == w.(jobs := w.jobs + [AuthFind(raw)]);
    assert Next(begun, step) == w.(jobs := w.jobs + [if found.Ok? then AuthLoad(found.value, now) else Ended]);
  }

  lemma Presents(steps: seq<Step>, raw: int, now: int)
    ensures var (w, j) := (Run(steps), |Run(steps).jobs|);
            var w' := Run(steps + PresentSteps(j, raw, now));
            w'.auths == w.auths + Recorded(w.tables, raw, now)
  {
    PresentedNext(Run(steps), raw, now);
    var step := Advance(|Run(steps).jobs|, now, true);
    RunThree(steps, Begin(AuthFind(raw)), step, step);
  }

  lemma FreshTokens(w: World)
    requires Inv(w)
    ensures forall l | l in w.tables.links :: l.tokenHash.token < w.tables.nextToken
    ensures forall s | s in w.tables.sessions :: s.tokenHash.token < w.tables.nextToken
  {
  }

  /** What a whole login comes to on the tables. The link is the next token drawn, and the session's the next but
      two. */
  lemma LoginOnTables(t: Tables, token: int, email: string, t0: int, t1: int, later: seq<User>, t2: int)
    requires forall l | l in t.links :: l.tokenHash.token < t.nextToken
    requires forall s | s in t.sessions :: s.tokenHash.token < t.nextToken
    requires token == t.nextToken + 2
    ensures Recorded(LoginTables(t, email, t0, t1, later), token, t2) ==
              match LoginResult(t, email, t0, t1, later, t2)
              case None => []
              case Some(u) => [Authenticated(token, CurrentUser(u.id, u.email, u.role), t2)]
  {
    var user := FindByEmail(t.users, email);
    if user.Some? && user.value.isEnabled {
      NewLinkIsUsed(t, user.value.id, t0, t1);
      NewSessionIsFound(UseLink(StoreLink(t, user.value.id, t0), t.nextToken, t1).0, user.value.id, t1, t2);
    }
  }

  /** A login that nobody disturbs, in state w: a link is requested for an email at t0 and used at t1, then the users
      table changes in any way. (At t2 the session is presented.) */
  function OpenSteps(w: World, email: string, t0: int, t1: int, later: seq<User>): seq<Step> {
    RequestSteps(|w.jobs|, email, t0) + VerifySteps(|w.jobs| + 1, w.tables.nextToken, t1) + [Users(later)]
  }

  lemma LoginOpensSession(steps: seq<Step>, w: World, email: string, t0: int, t1: int, later: seq<User>)
    requires w == Run(steps)
    ensures var w' := Run(steps + OpenSteps(w, email, t0, t1, later));
            && |w'.jobs| == |w.jobs| + 2 && w'.auths == w.auths
            && w'.tables == LoginTables(w.tables, email, t0, t1, later)
  {
    var request, verify := RequestSteps(|w.jobs|, email, t0), VerifySteps(|w.jobs| + 1, w.tables.nextToken, t1);
    Requests(steps, email, t0);
    Verifies(steps + request, w.tables.nextToken, t1);
    RunSnoc(steps + request + verify, Users(later));
    assert steps + request + verify + [Users(later)] == steps + (request + verify + [Users(later)]);
  }

  lemma PresentsAfter(prior: seq<Step>, tables: Tables, auths: seq<Authenticated>, j: nat, raw: int, now: int)
    requires Run(prior).tables == tables && Run(prior).auths == auths && |Run(prior).jobs| == j
    ensures Run(prior + PresentSteps(j, raw, now)).auths == auths + Recorded(tables, raw, now)
  {
    Presents(prior, raw, now);
  }

  /** The tables when the session is presented. */
  function LoginTables(t: Tables, email: string, t0: int, t1: int, later: seq<User>): Tables {
    AfterVerify(AfterRequest(t, email, t0), t.nextToken, t1).(users := later)
  }

  // The run of a login ends with the authentication that its tables give.
  lemma LoginRuns(steps: seq<Step>, w: World, j: nat, token: int,
                  email: string, t0: int, t1: int, later: seq<User>, t2: int)
    requires w == Run(steps) && j == |w.jobs| + 2
    ensures Run(steps + OpenSteps(w, email, t0, t1, later) + PresentSteps(j, token, t2)).auths ==
              w.auths + Recorded(LoginTables(w.tables, email, t0, t1, later), token, t2)
  {
    LoginOpensSession(steps, w, email, t0, t1, later);
    PresentsAfter(steps + OpenSteps(w, email, t0, t1, later), LoginTables(w.tables, email, t0, t1, later), w.auths,
                  j, token, t2);
  }

  lemma ReachableTokensAreFresh(steps: seq<Step>)
    ensures var t := Run(steps).tables;
            && (forall l | l in t.links :: l.tokenHash.token < t.nextToken)
            && (forall s | s in t.sessions :: s.tokenHash.token < t.nextToken)
  {
    RunKeepsInv(steps);
    FreshTokens(Run(steps));
  }

  /** The row a login is authenticated as, if it is. Fifteen minutes and a day, in nanoseconds. */
  function LoginResult(t: Tables, email: string, t0: int, t1: int, later: seq<User>, t2: int): Option<User> {
    var user := FindByEmail(t.users, email);
    if user.Some? && user.value.isEnabled && t1 < t0 + 900_000_000_000 && t2 <= t1 + 86_400_000_000_000 then
      var live := FindById(later, user.value.id);
      if live.Some? && live.value.isEnabled then live else None
    else None
  }

  /** From any reachable state such a login, whose session token is the third token drawn, is authenticated exactly when
      the email was an enabled user's, the link is used strictly within 15 minutes, the session is presented within 24
      hours of that, inclusively, and the user's row is enabled then; and it is authenticated as that row. */
  lemma LoginWorksExactlyInTime(steps: seq<Step>, w: World, j: nat, token: int,
                                email: string, t0: int, t1: int, later: seq<User>, t2: int)
    requires w == Run(steps) && j == |w.jobs| + 2 && token == w.tables.nextToken + 2
    ensures Run(steps + OpenSteps(w, email, t0, t1, later) + PresentSteps(j, token, t2)).auths == w.auths +
              match LoginResult(w.tables, email, t0, t1, later, t2)
              case None => []
              case Some(u) => [Authenticated(token, CurrentUser(u.id, u.email, u.role), t2)]
  {
    ReachableTokensAreFresh(steps);
    LoginOnTables(w.tables, token, email, t0, t1, later, t2);
    LoginRuns(steps, w, j, token, email, t0, t1, later, t2);
  }

  lemma NewLinkIsUsed(t: Tables, userId: int, t0: int, t1: int)
    requires forall l | l in t.links :: l.tokenHash.token < t.nextToken
    ensures var link := MagicLink(userId, Hash(t.nextToken), t0 + MAGIC_LINK_TTL);
            UseLink(StoreLink(t, userId, t0), t.nextToken, t1).1 == if t1 < link.expiresAt then Some(link) else None
    ensures var used := UseLink(StoreLink(t, userId, t0), t.nextToken, t1).0;
            used.sessions == t.sessions && used.users == t.users && used.nextToken == t.nextToken + 1
  {
  }

  lemma NewSessionIsFound(t: Tables, userId: int, t1: int, t2: int)
    requires forall s | s in t.sessions :: s.tokenHash.token < t.nextToken
    ensures var session := Session(t.nextToken, userId, Hash(t.nextToken + 1), t1 + SESSION_TTL);
            LookUp(OpenSession(t, userId, t1), t.nextToken + 1, t2) ==
              if session.expiresAt < t2 then Err(Invalid) else Ok(session)
  {
  }

  // ---- Logout ----

  /** The token belongs to no stored session, and never will: tokens drawn later are different. */
  predicate Gone(w: World, token: int) {
    token < w.tables.nextToken && forall s | s in w.tables.sessions :: s.tokenHash != Hash(token)
  }

  lemma GoneStays(w: World, step: Step, token: int)
    requires Gone(w, token)
    ensures Gone(Next(w, step), token)
  {
  }

  lemma {:induction false} GoneStaysGone(steps: seq<Step>, more: seq<Step>, token: int)
    requires Gone(Run(steps), token)
    ensures Gone(Run(steps + more), token)
  {
    if more == [] {
      assert steps + more == steps;
    } else {
      GoneStaysGone(steps, more[..|more| - 1], token);
      GoneStays(Run(steps + more[..|more| - 1]), more[|more| - 1], token);
      RunContinues(steps, more);
    }
  }

  lemma GoneAfterLogout(before: seq<Step>, userId: int, s: Session)
    requires s in Run(before).tables.sessions && s.userId == userId
    ensures Gone(Run(before + [Logout(userId)]), s.tokenHash.token)
  {
    RunKeepsInv(before);
    RunSnoc(before, Logout(userId));
    var w := Run(before);
    assert SessionOk(w, s);
    forall r | r in SessionsLeft(w.tables.sessions, userId) ensures r.tokenHash != s.tokenHash {
      if r.tokenHash == s.tokenHash {
        SameSession(w.tables.sessions, r, s);
      }
    }
  }

  /** Every lookup fails: no session its user had before is found in any later state, whatever happens in between, at
      any clock reading. */
  lemma LogoutIsFinal(before: seq<Step>, userId: int, after: seq<Step>, s: Session, now: int)
    requires s in Run(before).tables.sessions && s.userId == userId
    ensures var w := Run(before + [Logout(userId)] + after);
            && s !in w.tables.sessions
            && LookUp(w.tables, s.tokenHash.token, now) == Err(NotFound)
  {
    GoneAfterLogout(before, userId, s);
    GoneStaysGone(before + [Logout(userId)], after, s.tokenHash.token);
  }

  lemma SameSession(sessions: seq<Session>, a: Session, b: Session)
    requires DistinctSessions(sessions)
    requires a in sessions && b in sessions && a.tokenHash == b.tokenHash
    ensures a == b
  {
  }

  /** Job j is an authentication that has found the session with this token and has yet to load its user. */
  predicate InFlight(w: World, j: nat, token: int) {
    j < |w.jobs| && w.jobs[j].AuthLoad? && w.jobs[j].session.tokenHash == Hash(token)
  }

  ghost predicate FromInFlight(w: World, a: Authenticated) {
    exists j: nat :: InFlight(w, j, a.token) && w.jobs[j].now == a.at
  }

  /** Since state w0 this token has been authenticated, and can still be, only by jobs in flight in w0. */
  ghost predicate OnlyFinishes(w0: World, w: World, token: int) {
    && w0.auths <= w.auths
    && (forall j: nat | InFlight(w, j, token) :: j < |w0.jobs| && w0.jobs[j] == w.jobs[j])
    && (forall i | |w0.auths| <= i < |w.auths| && w.auths[i].token == token :: FromInFlight(w0, w.auths[i]))
  }

  lemma StepOnlyFinishes(w0: World, w: World, step: Step, token: int)
    requires OnlyFinishes(w0, w, token) && Gone(w, token)
    ensures OnlyFinishes(w0, Next(w, step), token)
  {
    var w' := Next(w, step);
    StepAuthenticates(w, step);
    forall j: nat | InFlight(w', j, token) ensures j < |w0.jobs| && w0.jobs[j] == w'.jobs[j] {
      NoNewFlight(w, step, j, token);
    }
    forall i | |w0.auths| <= i < |w'.auths| && w'.auths[i].token == token ensures FromInFlight(w0, w'.auths[i]) {
      if i == |w.auths| {
        assert InFlight(w, step.index, token);
        assert InFlight(w0, step.index, token);
      }
    }
  }

  lemma GoneIsNotFound(w: World, token: int)
    requires Gone(w, token)
    ensures forall raw, now | LookUp(w.tables, raw, now).Ok? ::
              LookUp(w.tables, raw, now).value.tokenHash != Hash(token)
  {
  }

  // A job comes past its lookup only by finding a stored session.
  lemma NoFlightBegins(w: World, j: nat, now: int, token: int)
    requires Gone(w, token) && j < |w.jobs|
    ensures !InFlight(Continue(w, j, now), j, token)
  {
    GoneIsNotFound(w, token);
  }

  lemma NoNewFlight(w: World, step: Step, j: nat, token: int)
    requires Gone(w, token)
    ensures InFlight(Next(w, step), j, token) ==> InFlight(w, j, token) && Next(w, step).jobs[j] == w.jobs[j]
  {
    if step.Advance? && step.ok && step.index == j && j < |w.jobs| {
      NoFlightBegins(w, j, step.now, token);
    }
  }

  lemma {:induction false} RunOnlyFinishes(w0: World, steps: seq<Step>, more: seq<Step>, token: int)
    requires OnlyFinishes(w0, Run(steps), token) && Gone(Run(steps), token)
    ensures OnlyFinishes(w0, Run(steps + more), token)
  {
    if more == [] {
      assert steps + more == steps;
    } else {
      var init := more[..|more| - 1];
      RunOnlyFinishes(w0, steps, init, token);
      GoneStaysGone(steps, init, token);
      StepOnlyFinishes(w0, Run(steps + init), more[|more| - 1], token);
      RunContinues(steps, more);
    }
  }

  /** Logout is final but for what is in flight: a session its user had before is authenticated afterwards, in any
      continuation, only by an authentication that had found it before the logout, and with the clock reading of
      then. */
  lemma AuthenticatedAfterLogout(before: seq<Step>, userId: int, after: seq<Step>, s: Session, i: nat)
    requires s in Run(before).tables.sessions && s.userId == userId
    requires var w := Run(before + [Logout(userId)] + after);
             |Run(before).auths| <= i < |w.auths| && w.auths[i].token == s.tokenHash.token
    ensures Run(before).auths <= Run(before + [Logout(userId)] + after).auths
    ensures var a := Run(before + [Logout(userId)] + after).auths[i];
            exists j: nat :: InFlight(Run(before), j, s.tokenHash.token) && Run(before).jobs[j].now == a.at
  {
    var token := s.tokenHash.token;
    GoneAfterLogout(before, userId, s);
    RunSnoc(before, Logout(userId));
    RunOnlyFinishes(Run(before), before + [Logout(userId)], after, token);
    assert FromInFlight(Run(before), Run(before + [Logout(userId)] + after).auths[i]);
  }

  /** And every such authentication does complete when it is continued while its user is enabled. */
  lemma AuthenticationInFlightCompletes(before: seq<Step>, userId: int, after: seq<Step>, j: nat, now: int)
    requires var w0 := Run(before); var w := Run(before + [Logout(userId)] + after);
             && j < |w0.jobs| && j < |w.jobs| && w0.jobs[j].AuthLoad? && w.jobs[j] == w0.jobs[j]
             && LoadUser(w.tables, w0.jobs[j].session).Ok?
    ensures var job := Run(before).jobs[j]; var w := Run(before + [Logout(userId)] + after);
            Run(before + [Logout(userId)] + after + [Advance(j, now, true)]).auths ==
              w.auths + [Authenticated(job.session.tokenHash.token, LoadUser(w.tables, job.session).value, job.now)]
  {
    RunSnoc(before + [Logout(userId)] + after, Advance(j, now, true));
  }

  /** In this continuation of the logout, the session is authenticated after it. */
  predicate AuthenticatesAfter(before: seq<Step>, s: Session, after: seq<Step>) {
    var w := Run(before + [Logout(s.userId)] + after);
    exists i :: |Run(before).auths| <= i < |w.auths| && w.auths[i].token == s.tokenHash.token
  }

  /** So a logout stops a stored session for good exactly if no authentication with it is in flight at that moment. */
  lemma LogoutStopsSessionIff(before: seq<Step>, s: Session)
    requires s in Run(before).tables.sessions
    ensures (forall after :: !AuthenticatesAfter(before, s, after)) <==>
              (forall j: nat :: !InFlight(Run(before), j, s.tokenHash.token))
  {
    forall after | AuthenticatesAfter(before, s, after)
      ensures exists j: nat :: InFlight(Run(before), j, s.tokenHash.token)
    {
      var w := Run(before + [Logout(s.userId)] + after);
      var i :| |Run(before).auths| <= i < |w.auths| && w.auths[i].token == s.tokenHash.token;
      AuthenticatedAfterLogout(before, s.userId, after, s, i);
    }
    if j: nat :| InFlight(Run(before), j, s.tokenHash.token) {
      FlightCompletes(before, s, j);
    }
  }

  lemma FlightLands(w: World, userId: int, j: nat, token: int)
    requires InFlight(w, j, token)
    ensures var enabled := Users([User(w.jobs[j].session.userId, "", MEMBER, true)]);
            var w' := Next(Next(Next(w, Logout(userId)), enabled), Advance(j, 0, true));
            |w'.auths| == |w.auths| + 1 && w'.auths[|w.auths|].token == token
  {
  }

  lemma FlightCompletes(before: seq<Step>, s: Session, j: nat)
    requires InFlight(Run(before), j, s.tokenHash.token)
    ensures exists after :: AuthenticatesAfter(before, s, after)
  {
    var logout, finish := Logout(s.userId), Advance(j, 0, true);
    var enable := Users([User(Run(before).jobs[j].session.userId, "", MEMBER, true)]);
    RunThree(before, logout, enable, finish);
    assert before + [logout] + [enable, finish] == before + [logout, enable, finish];
    FlightLands(Run(before), s.userId, j, s.tokenHash.token);
    assert AuthenticatesAfter(before, s, [enable, finish]);
  }

  const HOST := User(1, "host", MEMBER, true)
  const LINK := MagicLink(1, Hash(0), MAGIC_LINK_TTL)
  const SESSION := Session(1, 1, Hash(2), 1 + SESSION_TTL)

  predicate Reaches(steps: seq<Step>, tables: Tables, jobs: seq<Job>) {
    Run(steps).tables == tables && Run(steps).jobs == jobs && Run(steps).auths == []
  }

  lemma OnlyRowDeleted(link: MagicLink, session: Session, now: int)
    ensures now < link.expiresAt ==> LinksLeft([link], link.tokenHash, now) == []
    ensures SessionsLeft([session], session.userId) == []
  {
    assert [link][..0] == [];
    assert [session][..0] == [];
  }

  lemma HostAsks() returns (steps: seq<Step>)
    ensures Reaches(steps, Tables([HOST], [], [], 0), [LoginRead("host")]) && Run(steps).origin == map[]
  {
    steps := [];
    var s0, s1 := Users([HOST]), Begin(LoginRead("host"));
    RunSnoc(steps, s0); steps := steps + [s0];
    assert Reaches(steps, Tables([HOST], [], [], 0), []);
    RunSnoc(steps, s1); steps := steps + [s1];
  }

  lemma HostRequestsLink() returns (steps: seq<Step>)
    ensures Reaches(steps, Tables([HOST], [LINK], [], 1), [Ended]) && Run(steps).origin == map[]
  {
    steps := HostAsks();
    var s2, s3 := Advance(0, 0, true), Advance(0, 0, true);
    assert FindByEmail([HOST], "host") == Some(HOST);
    RunSnoc(steps, s2); steps := steps + [s2];
    assert Reaches(steps, Tables([HOST], [], [], 0), [LoginStore(HOST)]);
    RunSnoc(steps, s3); steps := steps + [s3];
  }

  lemma HostUsesLink() returns (steps: seq<Step>)
    ensures Reaches(steps, Tables([HOST], [], [], 1), [Ended, VerifyOpen(0, 1, 1)])
    ensures 0 in Run(steps).uses && Run(steps).origin == map[]
  {
    steps := HostRequestsLink();
    var s4, s5 := Begin(VerifyUse(0)), Advance(1, 1, true);
    RunSnoc(steps, s4); steps := steps + [s4];
    assert Reaches(steps, Tables([HOST], [LINK], [], 1), [Ended, VerifyUse(0)]);
    OnlyRowDeleted(LINK, SESSION, 1);
    RunSnoc(steps, s5); steps := steps + [s5];
  }

  lemma HostVerifies() returns (steps: seq<Step>)
    ensures Reaches(steps, Tables([HOST], [], [SESSION], 3), [Ended, Ended])
  {
    steps := HostUsesLink();
    var s6 := Advance(1, 1, true);
    RunSnoc(steps, s6); steps := steps + [s6];
  }

  /** A run in which storing the session fails: the link is consumed, there is no session, and the link stays
      unusable. */
  lemma LinkLostWithoutSession() returns (steps: seq<Step>)
    ensures 0 in Run(steps).uses && Run(steps).origin == map[]
    ensures Reaches(steps, Tables([HOST], [], [], 1), [Ended, Ended])
  {
    steps := HostUsesLink();
    var fail := Advance(1, 1, false);
    RunSnoc(steps, fail); steps := steps + [fail];
  }

  lemma HostPresentsSession() returns (steps: seq<Step>)
    ensures Reaches(steps, Tables([HOST], [], [SESSION], 3), [Ended, Ended, AuthLoad(SESSION, 2)])
  {
    steps := HostVerifies();
    var s7, s8 := Begin(AuthFind(2)), Advance(2, 2, true);
    RunSnoc(steps, s7); steps := steps + [s7];
    assert Reaches(steps, Tables([HOST], [], [SESSION], 3), [Ended, Ended, AuthFind(2)]);
    RunSnoc(steps, s8); steps := steps + [s8];
  }

  /** A run in which it happens: a user logs in, presents the session, logs out before the user's row is loaded, and is
      authenticated all the same. */
  lemma LogoutMissesAnAuthentication() returns (before: seq<Step>, s: Session, after: seq<Step>)
    ensures s in Run(before).tables.sessions && s.userId == 1 && Run(before).auths == []
    ensures Run(before + [Logout(1)] + after).tables.sessions == []
    ensures Run(before + [Logout(1)] + after).auths ==
              [Authenticated(s.tokenHash.token, CurrentUser(1, "host", MEMBER), 2)]
  {
    before := HostPresentsSession();
    s, after := SESSION, [Advance(2, 2, true)];
    RunSnoc(before, Logout(1));
    OnlyRowDeleted(LINK, SESSION, 1);
    assert Reaches(before + [Logout(1)], Tables([HOST], [], [], 3), [Ended, Ended, AuthLoad(SESSION, 2)]);
    RunSnoc(before + [Logout(1)], after[0]);
  }

  /** Logging one user out leaves every other user's sessions exactly as findable as before. */
  lemma LogoutSparesOthers(steps: seq<Step>, userId: int, raw: int, now: int)
    ensures var t := Run(steps).tables; var t' := Next(Run(steps), Logout(userId)).tables;
            && (LookUp(t, raw, now).Ok? && LookUp(t, raw, now).value.userId != userId ==>
                  LookUp(t', raw, now) == LookUp(t, raw, now))
            && (LookUp(t', raw, now).Ok? ==>
                  LookUp(t', raw, now) == LookUp(t, raw, now) && LookUp(t', raw, now).value.userId != userId)
  {
    RunKeepsInv(steps);
    var t := Run(steps).tables;
    var found, left := FindSession(t.sessions, Hash(raw)), FindSession(SessionsLeft(t.sessions, userId), Hash(raw));
    if found.Some? && left.Some? {
      SameSession(t.sessions, found.value, left.value);
    }
  }
}
