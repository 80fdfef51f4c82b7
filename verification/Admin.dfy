/** User administration: the users table's writes, who may make them, and the listing's order. */
module Admin {
  import opened Basics
  import opened Domain
  import opened Authorization
  import opened Casbin
  import opened UserTable
  import opened Sorting
  import opened Strings

  /** The users table and its AUTOINCREMENT counter. */
  datatype UserStore = UserStore(rows: seq<User>, nextId: int)

  const EMPTY := UserStore([], 1)

  // ---- Statements ----

  predicate HasEmail(s: UserStore, email: string) {
    FindByEmail(s.rows, email).Some?
  }

  function AppendUser(s: UserStore, email: string, role: string): UserStore {
    UserStore(s.rows + [User(s.nextId, email, role, true)], s.nextId + 1)
  }

  /** INSERT, which the UNIQUE constraint on email may refuse, or which may fail otherwise. */
  function InsertUser(s: UserStore, email: string, role: string, fails: bool): Outcome<UserStore> {
    if fails || HasEmail(s, email) then Err(Storage) else Ok(AppendUser(s, email, role))
  }

  /** INSERT ... ON CONFLICT (email) DO NOTHING */
  function ImportOne(s: UserStore, email: string): UserStore {
    if HasEmail(s, email) then s else AppendUser(s, email, MEMBER)
  }

  function ImportAll(s: UserStore, emails: seq<string>): UserStore {
    if emails == [] then s else ImportOne(ImportAll(s, emails[..|emails| - 1]), emails[|emails| - 1])
  }

  function Updated(u: User, id: int, role: Option<string>, enabled: Option<bool>): User {
    if u.id != id then u
    else
      var u' := if role.Some? then u.(role := role.value) else u;
      if enabled.Some? then u'.(isEnabled := enabled.value) else u'
  }

  /** The three UPDATE statements, chosen by what is given; with nothing given, no statement and no error. */
  function UpdateRows(s: UserStore, id: int, role: Option<string>, enabled: Option<bool>): UserStore {
    s.(rows := seq(|s.rows|, i requires 0 <= i < |s.rows| => Updated(s.rows[i], id, role, enabled)))
  }

  function UpdateResult(s: UserStore, id: int, role: Option<string>, enabled: Option<bool>): Outcome<Unit> {
    if role.None? && enabled.None? then Ok(Unit)
    else if FindById(s.rows, id).None? then Err(NotFound)
    else Ok(Unit)
  }

  class UserRepository {
    var rows: seq<User>
    var nextId: int

    constructor ()
      ensures State() == EMPTY
    {
      rows, nextId := [], 1;
    }

    function State(): UserStore
      reads this
    {
      UserStore(rows, nextId)
    }

    method CreateUser(email: string, role: string, fails: bool) returns (r: Outcome<User>)
      modifies this
      ensures fails || HasEmail(old(State()), email) ==> r == Err(Storage) && State() == old(State())
      ensures !fails && !HasEmail(old(State()), email) ==>
                State() == AppendUser(old(State()), email, role) && r == Ok(User(old(nextId), email, role, true))
    {
      if fails || FindByEmail(rows, email).Some? {
        return Err(Storage);
      }
      var user := User(nextId, email, role, true);
      rows, nextId := rows + [user], nextId + 1;
      r := Ok(user);
    }

    /** One UPDATE statement: the given columns of the rows with this id. */
    method ExecUpdate(id: int, role: Option<string>, enabled: Option<bool>) returns (affected: bool)
      modifies this`rows
      ensures affected == exists u | u in old(rows) :: u.id == id
      ensures |rows| == |old(rows)|
      ensures forall i | 0 <= i < |rows| ::
                rows[i] == if old(rows)[i].id != id then old(rows)[i] else
                             User(id, old(rows)[i].email,
                                  if role.Some? then role.value else old(rows)[i].role,
                                  if enabled.Some? then enabled.value else old(rows)[i].isEnabled)
      ensures State() == UpdateRows(old(State()), id, role, enabled)
    {
      affected := false;
      ghost var before := rows;
      for n := 0 to |rows|
        invariant |rows| == |before|
        invariant affected <==> exists k | 0 <= k < n :: before[k].id == id
        invariant forall k | 0 <= k < |rows| ::
            rows[k] == if k < n then Updated(before[k], id, role, enabled) else before[k]
      {
        if rows[n].id == id {
          affected := true;
          var u := rows[n];
          if role.Some? {
            u := u.(role := role.value);
          }
          if enabled.Some? {
            u := u.(isEnabled := enabled.value);
          }
          rows := rows[n := u];
        }
      }
      assert rows == UpdateRows(old(State()), id, role, enabled).rows;
    }

    method UpdateUser(id: int, role: Option<string>, enabled: Option<bool>) returns (r: Outcome<Unit>)
      modifies this`rows
      ensures State() == UpdateRows(old(State()), id, role, enabled)
      ensures r == UpdateResult(old(State()), id, role, enabled)
    {
      if role.None? && enabled.None? {
        assert rows == UpdateRows(State(), id, role, enabled).rows;
        return Ok(Unit);
      }
      var affected := ExecUpdate(id, role, enabled);
      r := if affected then Ok(Unit) else Err(NotFound);
    }

    /** One transaction: either every email is imported, or a failing statement or commit rolls all of them back. */
    method ImportUsers(emails: seq<string>, failsAt: Option<nat>) returns (r: Outcome<Unit>)
      modifies this
      ensures r == if emails == [] || failsAt.None? then Ok(Unit) else Err(Storage)
      ensures State() == if r.Ok? then ImportAll(old(State()), emails) else old(State())
    {
      if emails == [] {
        return Ok(Unit);
      }
      var tx := State();
      for i := 0 to |emails|
        invariant tx == ImportAll(old(State()), emails[..i])
        invariant State() == old(State())
      {
        if failsAt == Some(i) {
          return Err(Storage);
        }
        tx := ImportOne(tx, emails[i]);
        assert emails[..i + 1][..i] == emails[..i];
      }
      assert emails[..|emails|] == emails;
      if failsAt.Some? {
        return Err(Storage);
      }
      rows, nextId := tx.rows, tx.nextId;
      r := Ok(Unit);
    }
  }

  // ---- Use cases. A check made before a write may have seen an older table, `seen`. ----

  function Creation(s: UserStore, seen: UserStore, viewer: CurrentUser, email: string, role: string, fails: bool)
    : (UserStore, Outcome<Unit>)
  {
    var wanted := if role == "" then MEMBER else role;
    if !Allowed(viewer, USER_CREATE, AdminResource()) then (s, Err(Forbidden))
    else if email == "" || !ValidRole(wanted) then (s, Err(Invalid))
    else if HasEmail(seen, email) then (s, Err(AlreadyExists))
    else match InsertUser(s, email, wanted, fails)
      case Err(e) => (s, Err(e))
      case Ok(s') => (s', Ok(Unit))
  }

  function Alteration(s: UserStore, viewer: CurrentUser, id: int, role: Option<string>, enabled: Option<bool>)
    : (UserStore, Outcome<Unit>)
  {
    var disable := enabled == Some(false);
    if role.Some? && !ValidRole(role.value) then (s, Err(Invalid))
    else if disable && id == viewer.id then (s, Err(Forbidden))
    else if !Allowed(viewer, USER_UPDATE, UserResource(id, disable)) then (s, Err(Forbidden))
    else (UpdateRows(s, id, role, enabled), UpdateResult(s, id, role, enabled))
  }

  /** The emails that are more than space. */
  function NonBlank(emails: seq<string>): (r: seq<string>)
    ensures forall e :: e in r <==> e in emails && TrimSpace(e) != ""
  {
    if emails == [] then []
    else
      var init, last := emails[..|emails| - 1], emails[|emails| - 1];
      assert emails == init + [last];
      if TrimSpace(last) == "" then NonBlank(init) else NonBlank(init) + [last]
  }

  /** The persona emails are imported if the viewer may create users. Without a catalog, or when it fails, there is
      nothing to import and no error; a failed import changes nothing. */
  function Importing(s: UserStore, viewer: CurrentUser, personas: Option<seq<string>>, fails: bool)
    : (UserStore, Outcome<Unit>)
  {
    if !Allowed(viewer, USER_CREATE, AdminResource()) then (s, Err(Forbidden))
    else if personas.None? || NonBlank(personas.value) == [] then (s, Ok(Unit))
    else if fails then (s, Err(Storage))
    else (ImportAll(s, NonBlank(personas.value)), Ok(Unit))
  }

  /** The master user is created as an admin unless the email is empty or taken. */
  function MasterCreation(s: UserStore, seen: UserStore, email: string, fails: bool): (UserStore, Outcome<Unit>) {
    if email == "" || HasEmail(seen, email) then (s, Ok(Unit))
    else match InsertUser(s, email, ADMIN, fails)
      case Err(e) => (s, Err(e))
      case Ok(s') => (s', Ok(Unit))
  }

  /** Exactly when creating a user succeeds, and what it adds. */
  lemma CreateUserMeaning(s: UserStore, seen: UserStore, viewer: CurrentUser, email: string, role: string, fails: bool)
    ensures var (s', r) := Creation(s, seen, viewer, email, role, fails);
            && (r.Ok? <==> viewer.role == ADMIN && email != "" && role in {"", ADMIN, MEMBER}
                           && !HasEmail(seen, email) && !HasEmail(s, email) && !fails)
            && (r.Ok? ==> s'.rows == s.rows + [User(s.nextId, email, if role == ADMIN then ADMIN else MEMBER, true)])
            && (r.Err? ==> s' == s)
            && (r == Err(Forbidden) <==> viewer.role != ADMIN)
            && (r == Err(Invalid) <==> viewer.role == ADMIN && (email == "" || role !in {"", ADMIN, MEMBER}))
            && (r == Err(AlreadyExists) <==>
                  viewer.role == ADMIN && email != "" && role in {"", ADMIN, MEMBER} && HasEmail(seen, email))
            && (r.Err? ==> r.error in {Forbidden, Invalid, AlreadyExists, Storage})
  {
  }

  /** Exactly when an update succeeds: an admin may do anything but give an unknown role or disable themselves. A user
      who is not there is reported, unless nothing was to be changed; and no row but that user's changes. */
  lemma UpdateUserMeaning(s: UserStore, viewer: CurrentUser, id: int, role: Option<string>, enabled: Option<bool>)
    ensures var (s', r) := Alteration(s, viewer, id, role, enabled);
            && (r.Ok? <==> viewer.role == ADMIN && (role.Some? ==> role.value in {ADMIN, MEMBER})
                           && !(enabled == Some(false) && id == viewer.id)
                           && ((role.None? && enabled.None?) || exists u :: u in s.rows && u.id == id))
            && (r == Err(Invalid) <==> role.Some? && role.value !in {ADMIN, MEMBER})
            && (r == Err(Forbidden) <==>
                  (role.Some? ==> role.value in {ADMIN, MEMBER})
                  && (viewer.role != ADMIN || (enabled == Some(false) && id == viewer.id)))
            && (r.Err? ==> r.error in {Invalid, Forbidden, NotFound})
            && (r.Err? && r.error != NotFound ==> s' == s)
            && |s'.rows| == |s.rows| && s'.nextId == s.nextId
            && (forall i | 0 <= i < |s.rows| && (s.rows[i].id != id || r.Err?) :: s'.rows[i] == s.rows[i])
            && (r.Ok? ==> forall i | 0 <= i < |s.rows| && s.rows[i].id == id ::
                  s'.rows[i] == User(id, s.rows[i].email,
                                     if role.Some? then role.value else s.rows[i].role,
                                     if enabled.Some? then enabled.value else s.rows[i].isEnabled))
  {
  }

  /** A start-up fails exactly when it has to insert the master user and cannot, and then changes nothing. After one
      that succeeds the master email, if given, has a user, a new one being an admin; a user already there is left
      alone, and the next start-up does nothing. `seen` is the table in which the email was looked for. */
  lemma MasterUserMeaning(s: UserStore, seen: UserStore, email: string, fails: bool)
    ensures var (s', r) := MasterCreation(s, seen, email, fails);
            && (r.Err? <==> email != "" && !HasEmail(seen, email) && (fails || HasEmail(s, email)))
            && (r.Err? ==> r.error == Storage && s' == s)
            && (s' != s <==> email != "" && !HasEmail(seen, email) && !HasEmail(s, email) && !fails)
            && (s' != s ==> s' == UserStore(s.rows + [User(s.nextId, email, ADMIN, true)], s.nextId + 1))
            && (r.Ok? && email != "" && (HasEmail(seen, email) ==> HasEmail(s, email)) ==> HasEmail(s', email))
            && (r.Ok? && HasEmail(s', email) ==> MasterCreation(s', s', email, fails) == (s', Ok(Unit)))
  {
    var (s', r) := MasterCreation(s, seen, email, fails);
    if email != "" && !HasEmail(seen, email) && !HasEmail(s, email) && !fails {
      assert User(s.nextId, email, ADMIN, true) in s'.rows;
      assert |s'.rows| == |s.rows| + 1;
    }
  }

  datatype Step =
    | Create(viewer: CurrentUser, email: string, role: string, seen: UserStore, failed: bool)
    | Update(viewer: CurrentUser, id: int, newRole: Option<string>, enabled: Option<bool>)
    | Import(viewer: CurrentUser, personas: Option<seq<string>>, failed: bool)
    | Bootstrap(email: string, seen: UserStore, failed: bool)

  function Next(s: UserStore, step: Step): UserStore {
    match step
    case Create(viewer, email, role, seen, fails) => Creation(s, seen, viewer, email, role, fails).0
    case Update(viewer, id, role, enabled) => Alteration(s, viewer, id, role, enabled).0
    case Import(viewer, personas, fails) => Importing(s, viewer, personas, fails).0
    case Bootstrap(email, seen, fails) => MasterCreation(s, seen, email, fails).0
  }

  function Run(steps: seq<Step>): UserStore {
    if steps == [] then EMPTY else Next(Run(steps[..|steps| - 1]), steps[|steps| - 1])
  }

  /** Each step of a run is a whole command on the table the run has come to. */
  lemma StepsAreCommands(steps: seq<Step>, step: Step)
    ensures var (s, s') := (Run(steps), Run(steps + [step]));
            && (step.Create? ==> s' == Creation(s, step.seen, step.viewer, step.email, step.role, step.failed).0)
            && (step.Update? ==> s' == Alteration(s, step.viewer, step.id, step.newRole, step.enabled).0)
            && (step.Import? ==> s' == Importing(s, step.viewer, step.personas, step.failed).0)
            && (step.Bootstrap? ==> s' == MasterCreation(s, step.seen, step.email, step.failed).0)
  {
    assert (steps + [step])[..|steps|] == steps;
  }

  predicate Sound(s: UserStore) {
    && (forall u | u in s.rows :: ValidRole(u.role))
    && (forall i | 0 <= i < |s.rows| :: s.rows[i].id < s.nextId)
    && (forall i, j | 0 <= i < j < |s.rows| :: s.rows[i].id < s.rows[j].id && s.rows[i].email != s.rows[j].email)
  }

  lemma AppendKeepsSound(s: UserStore, email: string, role: string)
    requires Sound(s) && ValidRole(role) && !HasEmail(s, email)
    ensures Sound(AppendUser(s, email, role))
  {
  }

  lemma {:induction false} ImportKeepsSound(s: UserStore, emails: seq<string>)
    requires Sound(s)
    ensures Sound(ImportAll(s, emails))
  {
    if emails != [] {
      var init, last := emails[..|emails| - 1], emails[|emails| - 1];
      ImportKeepsSound(s, init);
      if !HasEmail(ImportAll(s, init), last) {
        AppendKeepsSound(ImportAll(s, init), last, MEMBER);
      }
    }
  }

  lemma UpdateKeepsSound(s: UserStore, id: int, role: Option<string>, enabled: Option<bool>)
    requires Sound(s) && (role.Some? ==> ValidRole(role.value))
    ensures Sound(UpdateRows(s, id, role, enabled))
  {
    var s' := UpdateRows(s, id, role, enabled);
    forall i | 0 <= i < |s'.rows|
      ensures s'.rows[i] == Updated(s.rows[i], id, role, enabled) && ValidRole(s'.rows[i].role)
    {
      assert s.rows[i] in s.rows;
    }
  }

  lemma NextKeepsSound(s: UserStore, step: Step)
    requires Sound(s)
    ensures Sound(Next(s, step))
  {
    match step
    case Create(viewer, email, role, seen, fails) =>
      if Next(s, step) != s {
        AppendKeepsSound(s, email, if role == "" then MEMBER else role);
      }
    case Update(viewer, id, role, enabled) =>
      if role.Some? ==> ValidRole(role.value) {
        UpdateKeepsSound(s, id, role, enabled);
      }
    case Import(viewer, personas, fails) =>
      if personas.Some? {
        ImportKeepsSound(s, NonBlank(personas.value));
      }
    case Bootstrap(email, seen, fails) =>
      if Next(s, step) != s {
        AppendKeepsSound(s, email, ADMIN);
      }
  }

  /** In every run stored roles stay admin or member, ids and emails stay unique, whatever the checks had seen. */
  lemma {:induction false} RolesStayValid(steps: seq<Step>)
    ensures Sound(Run(steps))
    ensures forall u | u in Run(steps).rows :: u.role == "admin" || u.role == "member"
  {
    if steps != [] {
      RolesStayValid(steps[..|steps| - 1]);
      NextKeepsSound(Run(steps[..|steps| - 1]), steps[|steps| - 1]);
    }
  }

  lemma {:induction false} AllImported(s: UserStore, emails: seq<string>)
    ensures var s' := ImportAll(s, emails);
            && s.rows <= s'.rows
            && (forall i | |s.rows| <= i < |s'.rows| ::
                  s'.rows[i].role == MEMBER && s'.rows[i].isEnabled && s'.rows[i].email in emails
                  && !HasEmail(s, s'.rows[i].email))
            && (forall e | e in emails :: HasEmail(s', e))
  {
    if emails != [] {
      var init, last := emails[..|emails| - 1], emails[|emails| - 1];
      AllImported(s, init);
      var mid, end := ImportAll(s, init), ImportAll(s, emails);
      assert emails == init + [last];
      forall e | e in emails ensures HasEmail(end, e) {
        if HasEmail(mid, e) {
          HasEmailStays(mid, end, e);
        } else {
          assert end.rows[|mid.rows|].email == e && end.rows[|mid.rows|] in end.rows;
        }
      }
      if HasEmail(s, last) {
        HasEmailStays(s, mid, last);
      }
    }
  }

  /** The catalog lists a persona with this email, and it is more than space. */
  predicate Wanted(personas: Option<seq<string>>, email: string) {
    personas.Some? && email in personas.value && TrimSpace(email) != ""
  }

  /** Exactly when an import succeeds. Then it keeps every row as it was, adds only enabled members with persona emails
      that were not there, and leaves every persona's email in the table; otherwise it changes nothing. */
  lemma ImportMeaning(s: UserStore, viewer: CurrentUser, personas: Option<seq<string>>, fails: bool)
    ensures var (s', r) := Importing(s, viewer, personas, fails);
            && (r.Ok? <==> viewer.role == ADMIN && !(fails && exists e :: Wanted(personas, e)))
            && (r.Err? ==> s' == s && (r.error == Forbidden <==> viewer.role != ADMIN))
            && s.rows <= s'.rows
            && (forall i | |s.rows| <= i < |s'.rows| ::
                  s'.rows[i].role == MEMBER && s'.rows[i].isEnabled && Wanted(personas, s'.rows[i].email)
                  && !HasEmail(s, s'.rows[i].email))
            && (r.Ok? ==> forall e | Wanted(personas, e) :: HasEmail(s', e))
  {
    if personas.Some? {
      var emails := NonBlank(personas.value);
      AllImported(s, emails);
      assert emails != [] ==> Wanted(personas, emails[0]);
    }
  }

  lemma HasEmailStays(s: UserStore, s': UserStore, email: string)
    requires s.rows <= s'.rows && HasEmail(s, email)
    ensures HasEmail(s', email)
  {
  }

  // ---- Deactivation ----

  function CanDeactivate(a: Authorizer, viewer: CurrentUser, user: User): bool {
    if user.isEnabled && user.id == viewer.id then false
    else a.Authorizes(viewer, USER_UPDATE, UserResource(user.id, user.isEnabled))
  }

  /** The flag is shown exactly when toggling the user's enabled bit would succeed, which then changes that bit only. */
  lemma CanDeactivateExact(a: Authorizer, s: UserStore, viewer: CurrentUser, user: User)
    requires a.Seeded() && user in s.rows
    ensures var (s', r) := Alteration(s, viewer, user.id, None, Some(!user.isEnabled));
            && (CanDeactivate(a, viewer, user) <==> r.Ok?)
            && (r.Err? ==> s' == s)
            && (r.Ok? ==> |s'.rows| == |s.rows| && forall i | 0 <= i < |s.rows| ::
                  s'.rows[i] == if s.rows[i].id == user.id then s.rows[i].(isEnabled := !user.isEnabled) else s.rows[i])
  {
    if a.PolicyTable? {
      SeededTableExact(a.policies, viewer, USER_UPDATE, UserResource(user.id, user.isEnabled));
    }
  }

  // ---- The listing's order ----

  /** The comparator of the listing, for any way of lower-casing. */
  predicate UserLess(lower: string -> string, u: User, v: User) {
    if u.isEnabled != v.isEnabled then u.isEnabled
    else if !u.isEnabled then LexLess(lower(u.email), lower(v.email))
    else if u.role != v.role then u.role == ADMIN
    else LexLess(lower(u.email), lower(v.email))
  }

  /** Enabled admins, then enabled members, then everyone disabled. */
  function Rank(u: User): nat {
    if !u.isEnabled then 2 else if u.role == ADMIN then 0 else 1
  }

  lemma ByRankThenEmail(lower: string -> string, u: User, v: User)
    requires ValidRole(u.role) && ValidRole(v.role)
    ensures UserLess(lower, u, v) <==>
              Rank(u) < Rank(v) || (Rank(u) == Rank(v) && LexLess(lower(u.email), lower(v.email)))
  {
  }

  lemma UserOrderIsWeak(lower: string -> string, users: seq<User>)
    requires forall u | u in users :: ValidRole(u.role)
    ensures WeakOrderOn((u, v) => UserLess(lower, u, v), users)
  {
    var less := (u, v) => UserLess(lower, u, v);
    forall a, b | a in users && b in users && less(a, b) ensures !less(b, a) {
      ByRankThenEmail(lower, a, b);
      ByRankThenEmail(lower, b, a);
      if LexLess(lower(a.email), lower(b.email)) {
        LexAsymmetric(lower(a.email), lower(b.email));
      }
    }
    forall a, b, c | a in users && b in users && c in users && !less(a, b) && !less(b, c) ensures !less(a, c) {
      ByRankThenEmail(lower, a, b);
      ByRankThenEmail(lower, b, c);
      ByRankThenEmail(lower, a, c);
      if !LexLess(lower(a.email), lower(b.email)) && !LexLess(lower(b.email), lower(c.email)) {
        LexNegativelyTransitive(lower(a.email), lower(b.email), lower(c.email));
      }
    }
  }

  /** The comparator is a strict weak order on all users whose roles are in the set. */
  ghost predicate OrdersRoles(lower: string -> string, roles: set<string>) {
    && (forall a: User, b: User | a.role in roles && b.role in roles && UserLess(lower, a, b) :: !UserLess(lower, b, a))
    && (forall a: User, b: User, c: User | a.role in roles && b.role in roles && c.role in roles
                                           && !UserLess(lower, a, b) && !UserLess(lower, b, c) ::
                                               !UserLess(lower, a, c))
  }

  /** It is one exactly when the set has at most one role besides admin: so it is for the stored roles, and it would not
      be with a third. */
  lemma OrderNeedsTwoRoles(lower: string -> string, roles: set<string>, e1: string, e2: string)
    requires Precedes(lower(e1), lower(e2))
    ensures OrdersRoles(lower, roles) <==>
              (forall r, r' | r in roles && r' in roles && r != ADMIN && r' != ADMIN :: r == r')
  {
    LexLessIsPrecedes(lower(e1), lower(e2));
    if r, r' :| r in roles && r' in roles && r != ADMIN && r' != ADMIN && r != r' {
      var a, b, c := User(1, e1, r, true), User(2, e1 + e2 + ".", r', true), User(3, e2, r, true);
      assert !UserLess(lower, a, b) && !UserLess(lower, b, c) && UserLess(lower, a, c);
    } else {
      forall a: User, b: User | a.role in roles && b.role in roles && UserLess(lower, a, b)
        ensures !UserLess(lower, b, a)
      {
        if LexLess(lower(a.email), lower(b.email)) {
          LexAsymmetric(lower(a.email), lower(b.email));
        }
      }
      forall a: User, b: User, c: User | a.role in roles && b.role in roles && c.role in roles
                                         && !UserLess(lower, a, b) && !UserLess(lower, b, c)
        ensures !UserLess(lower, a, c)
      {
        if !LexLess(lower(a.email), lower(b.email)) && !LexLess(lower(b.email), lower(c.email)) {
          LexNegativelyTransitive(lower(a.email), lower(b.email), lower(c.email));
        }
      }
    }
  }

  /** With a third role there are three users with different emails of whom the first is not put before the second, nor
      the second before the third, and yet the first before the third. */
  lemma ThirdRoleBreaksOrder()
    ensures var lower := (text: string) => text;
            var a, b, c := User(1, "a", MEMBER, true), User(2, "b", "guest", true), User(3, "c", MEMBER, true);
            !UserLess(lower, a, b) && !UserLess(lower, b, c) && UserLess(lower, a, c)
  {
  }

  /** sortUsers: a permutation, ordered as enabled admins, enabled members, disabled users, each by lower-cased
      email. */
  method SortUsers(users: array<User>, lower: string -> string)
    requires forall u | u in users[..] :: ValidRole(u.role)
    modifies users
    ensures multiset(users[..]) == multiset(old(users[..]))
    ensures forall i, j | 0 <= i < j < users.Length ::
              Rank(users[i]) < Rank(users[j])
              || (Rank(users[i]) == Rank(users[j]) && !Precedes(lower(users[j].email), lower(users[i].email)))
  {
    UserOrderIsWeak(lower, users[..]);
    var less := (u, v) => UserLess(lower, u, v);
    SortSlice(users, less);
    MultisetMembers(users[..], old(users[..]));
    forall i, j | 0 <= i < j < users.Length
      ensures Rank(users[i]) < Rank(users[j])
              || (Rank(users[i]) == Rank(users[j]) && !Precedes(lower(users[j].email), lower(users[i].email)))
    {
      assert users[..][i] in users[..] && users[..][j] in users[..];
      assert !less(users[..][j], users[..][i]);
      ByRankThenEmail(lower, users[j], users[i]);
      LexLessIsPrecedes(lower(users[j].email), lower(users[i].email));
    }
  }

  datatype UserReadModel = UserReadModel(user: User, canDeactivate: bool)

  /** The listing: refused to anyone but an admin; otherwise every user once, in order, with its exact flag. */
  method ListUsers(repo: UserRepository, a: Authorizer, viewer: CurrentUser, lower: string -> string)
    returns (r: Outcome<seq<UserReadModel>>)
    requires a.Seeded() && forall u | u in repo.rows :: ValidRole(u.role)
    ensures r.Err? <==> !viewer.IsAdmin()
    ensures r.Err? ==> r.error == Forbidden
    ensures r.Ok? ==>
              && multiset(seq(|r.value|, i requires 0 <= i < |r.value| => r.value[i].user)) == multiset(repo.rows)
              && (forall i | 0 <= i < |r.value| :: r.value[i].canDeactivate <==>
                    Alteration(repo.State(), viewer, r.value[i].user.id, None, Some(!r.value[i].user.isEnabled)).1.Ok?)
              && (forall i, j | 0 <= i < j < |r.value| ::
                    var u, v := r.value[i].user, r.value[j].user;
                    Rank(u) < Rank(v) || (Rank(u) == Rank(v) && !Precedes(lower(v.email), lower(u.email))))
  {
    if a.PolicyTable? {
      SeededTableExact(a.policies, viewer, USER_LIST, AdminResource());
    }
    if !a.Authorizes(viewer, USER_LIST, AdminResource()) {
      return Err(Forbidden);
    }
    var rows := repo.rows;
    var users := new User[|rows|](i requires 0 <= i < |rows| => rows[i]);
    assert users[..] == rows;
    SortUsers(users, lower);
    MultisetMembers(users[..], rows);
    var models: seq<UserReadModel> := [];
    for i := 0 to users.Length
      invariant |models| == i
      invariant forall k | 0 <= k < i :: models[k] == UserReadModel(users[k], CanDeactivate(a, viewer, users[k]))
    {
      models := models + [UserReadModel(users[i], CanDeactivate(a, viewer, users[i]))];
    }
    forall i | 0 <= i < |models|
      ensures models[i].canDeactivate <==>
                Alteration(repo.State(), viewer, models[i].user.id, None, Some(!models[i].user.isEnabled)).1.Ok?
    {
      assert users[..][i] in users[..];
      CanDeactivateExact(a, repo.State(), viewer, users[i]);
    }
    assert seq(|models|, i requires 0 <= i < |models| => models[i].user) == users[..];
    r := Ok(models);
  }

  // ---- The commands, one caller at a time ----

  class Service {
    const repo: UserRepository
    const authorizer: Authorizer

    constructor (repo: UserRepository, authorizer: Authorizer)
      ensures this.repo == repo && this.authorizer == authorizer
    {
      this.repo := repo;
      this.authorizer := authorizer;
    }

    lemma AuthorizerAgrees(viewer: CurrentUser, target: int, disable: bool)
      requires authorizer.Seeded()
      ensures authorizer.Authorizes(viewer, USER_CREATE, AdminResource()) <==>
                Allowed(viewer, USER_CREATE, AdminResource())
      ensures authorizer.Authorizes(viewer, USER_UPDATE, UserResource(target, disable)) <==>
                Allowed(viewer, USER_UPDATE, UserResource(target, disable))
    {
      if authorizer.PolicyTable? {
        SeededTableExact(authorizer.policies, viewer, USER_CREATE, AdminResource());
        SeededTableExact(authorizer.policies, viewer, USER_UPDATE, UserResource(target, disable));
      }
    }

    method CreateUser(viewer: CurrentUser, email: string, role: string, fails: bool) returns (r: Outcome<Unit>)
      requires authorizer.Seeded()
      modifies repo
      ensures (repo.State(), r) == Creation(old(repo.State()), old(repo.State()), viewer, email, role, fails)
    {
      AuthorizerAgrees(viewer, 0, false);
      if !authorizer.Authorizes(viewer, USER_CREATE, AdminResource()) {
        return Err(Forbidden);
      }
      var wanted := if role == "" then MEMBER else role;
      if email == "" || !ValidRole(wanted) {
        return Err(Invalid);
      }
      if FindByEmail(repo.rows, email).Some? {
        return Err(AlreadyExists);
      }
      var created := repo.CreateUser(email, wanted, fails);
      r := if created.Ok? then Ok(Unit) else Err(created.error);
    }

    method UpdateUser(viewer: CurrentUser, id: int, role: Option<string>, enabled: Option<bool>)
      returns (r: Outcome<Unit>)
      requires authorizer.Seeded()
      modifies repo
      ensures (repo.State(), r) == Alteration(old(repo.State()), viewer, id, role, enabled)
    {
      if role.Some? && !ValidRole(role.value) {
        return Err(Invalid);
      }
      var disable := enabled == Some(false);
      if disable && id == viewer.id {
        return Err(Forbidden);
      }
      AuthorizerAgrees(viewer, id, disable);
      if !authorizer.Authorizes(viewer, USER_UPDATE, UserResource(id, disable)) {
        return Err(Forbidden);
      }
      r := repo.UpdateUser(id, role, enabled);
    }

    /** `personas` is what the catalog lists: none if it is not configured or fails. */
    method ImportCatalogUsers(viewer: CurrentUser, personas: Option<seq<string>>, failsAt: Option<nat>)
      returns (r: Outcome<Unit>)
      requires authorizer.Seeded()
      modifies repo
      ensures (repo.State(), r) == Importing(old(repo.State()), viewer, personas, failsAt.Some?)
    {
      AuthorizerAgrees(viewer, 0, false);
      if !authorizer.Authorizes(viewer, USER_CREATE, AdminResource()) {
        return Err(Forbidden);
      }
      if personas.None? {
        return Ok(Unit);
      }
      var emails: seq<string> := [];
      for i := 0 to |personas.value|
        invariant emails == NonBlank(personas.value[..i])
        invariant repo.State() == old(repo.State())
      {
        assert personas.value[..i + 1][..i] == personas.value[..i];
        if TrimSpace(personas.value[i]) != "" {
          emails := emails + [personas.value[i]];
        }
      }
      assert personas.value[..|personas.value|] == personas.value;
      r := repo.ImportUsers(emails, failsAt);
    }
  }

  /** The start-up step, on the table as it is. */
  method EnsureMasterUser(repo: UserRepository, email: string, fails: bool) returns (r: Outcome<Unit>)
    modifies repo
    ensures (repo.State(), r) == MasterCreation(old(repo.State()), old(repo.State()), email, fails)
  {
    if email == "" || FindByEmail(repo.rows, email).Some? {
      return Ok(Unit);
    }
    var created := repo.CreateUser(email, ADMIN, fails);
    r := if created.Ok? then Ok(Unit) else Err(created.error);
  }
}
