/** The sub-request use cases: creating, taking, releasing and deleting requests. */
module SubRequestService {
  import opened Basics
  import opened Domain
  import opened Authorization
  import opened SubRequestStore
  import opened Strconv
  import opened Casbin

  const MAX_CREATE_NOTES_LENGTH := 1000
  const ACTION_TAKE := "take"
  const ACTION_UNTAKE := "untake"

  datatype CreateInput = CreateInput(showId: int, startTime: int, endTime: int, notes: seq<byte>)

  /** What asking the catalog for the shows gives. */
  datatype CatalogAnswer = NotConfigured | Failed | Listed(shows: seq<Show>)

  datatype Command =
    | Create(input: CreateInput)
    | Apply(id: int, action: string)
    | Delete(id: int)

  predicate ValidAction(action: string) {
    action == ACTION_TAKE || action == ACTION_UNTAKE
  }

  predicate ShowExists(shows: seq<Show>, showId: int) {
    exists i | 0 <= i < |shows| :: Atoi(shows[i].id) == Some(showId)
  }

  function ValidateCreate(input: CreateInput, now: int, catalog: CatalogAnswer): Option<AppError> {
    if input.showId <= 0 then Some(Invalid)
    else if !(input.startTime > now) then Some(Invalid)
    else if !(input.endTime > input.startTime) then Some(Invalid)
    else if |input.notes| > MAX_CREATE_NOTES_LENGTH then Some(Invalid)
    else match catalog
      case NotConfigured => None
      case Failed => Some(Catalog)
      case Listed(shows) => if ShowExists(shows, input.showId) then None else Some(Invalid)
  }

  function NewRow(viewer: CurrentUser, input: CreateInput, now: int): SubRequest {
    SubRequest(0, input.showId, viewer.id, None, input.startTime, input.endTime, input.notes, now, now)
  }

  // A command runs in up to three steps that other clients may come between: it loads (validates, or reads
  // the request and authorizes on what it read), it writes with one statement, and if that statement
  // affected nothing it may read again to name the error.

  /** The first step, on the table as it is then, under an authorizer. */
  function LoadStepBy(a: Authorizer, s: Store, viewer: CurrentUser, cmd: Command, now: int, catalog: CatalogAnswer)
    : Outcome<Option<SubRequest>>
  {
    match cmd
    case Create(input) =>
      (match ValidateCreate(input, now, catalog)
       case Some(e) => Err(e)
       case None => Ok(None))
    case Apply(id, action) =>
      if !ValidAction(action) then Err(Invalid)
      else if id !in s.rows then Err(NotFound)
      else
        var resource := SubRequestResource(s.rows[id]);
        if action == ACTION_TAKE && s.rows[id].takenBy.Some? then Err(Conflict)
        else if action == ACTION_TAKE && !a.Authorizes(viewer, SUBREQUEST_TAKE, resource) then Err(Forbidden)
        else if action == ACTION_UNTAKE && !a.Authorizes(viewer, SUBREQUEST_UNTAKE, resource) then Err(Forbidden)
        else Ok(Some(s.rows[id]))
    case Delete(id) =>
      if id !in s.rows then Err(NotFound)
      else if !a.Authorizes(viewer, SUBREQUEST_DELETE, SubRequestResource(s.rows[id])) then Err(Forbidden)
      else Ok(Some(s.rows[id]))
  }

  function LoadStep(s: Store, viewer: CurrentUser, cmd: Command, now: int, catalog: CatalogAnswer)
    : Outcome<Option<SubRequest>>
  {
    LoadStepBy(BuiltIn, s, viewer, cmd, now, catalog)
  }

  /** The write statement. It looks at the table only through its own WHERE clause. */
  function WriteStep(s: Store, viewer: CurrentUser, cmd: Command, now: int): Written {
    match cmd
    case Create(input) => Written(InsertRow(s, NewRow(viewer, input, now)), true)
    case Apply(id, action) =>
      if action == ACTION_TAKE then TakeRow(s, id, viewer.id, now)
      else if action == ACTION_UNTAKE then UntakeRow(s, id, viewer.id, now)
      else Written(s, false)
    case Delete(id) => DeleteRow(s, id)
  }

  /** The error of a write that affected nothing. */
  function MissError(s: Store, cmd: Command): AppError {
    if cmd.Apply? then MissedWrite(s, cmd.id) else NotFound
  }

  /** A command with nobody else active: the clock is read when loading and again when writing. */
  function ExecuteBy(a: Authorizer, s: Store, viewer: CurrentUser, cmd: Command,
                     loadNow: int, catalog: CatalogAnswer, writeNow: int)
    : (Store, Outcome<Unit>)
  {
    match LoadStepBy(a, s, viewer, cmd, loadNow, catalog)
    case Err(e) => (s, Err(e))
    case Ok(_) =>
      var w := WriteStep(s, viewer, cmd, writeNow);
      (w.store, if w.affected then Ok(Unit) else Err(MissError(w.store, cmd)))
  }

  /** The same under the built-in rules. */
  function Execute(s: Store, viewer: CurrentUser, cmd: Command, loadNow: int, catalog: CatalogAnswer, writeNow: int)
    : (Store, Outcome<Unit>)
  {
    ExecuteBy(BuiltIn, s, viewer, cmd, loadNow, catalog, writeNow)
  }

  /** A table that holds the seeded rows decides every command as the built-in rules do. */
  lemma SeededTableExecutes(a: Authorizer, s: Store, viewer: CurrentUser, cmd: Command,
                            t0: int, c: CatalogAnswer, t1: int)
    requires a.Seeded()
    ensures ExecuteBy(a, s, viewer, cmd, t0, c, t1) == Execute(s, viewer, cmd, t0, c, t1)
  {
    if a.PolicyTable? && !cmd.Create? && cmd.id in s.rows {
      TableAgreesOnApplicationResources(a.policies, viewer, s.rows[cmd.id], 0, false);
    }
  }

  /** Exactly when an action succeeds, what it then changes, and which error it gives otherwise. */
  lemma ApplyMeaning(s: Store, viewer: CurrentUser, id: int, action: string, t0: int, c: CatalogAnswer, t1: int)
    ensures var (after, r) := Execute(s, viewer, Apply(id, action), t0, c, t1);
            && (r.Ok? <==> id in s.rows
                           && ((action == "take" && s.rows[id].takenBy.None? && s.rows[id].postedBy != viewer.id)
                               || (action == "untake" && s.rows[id].takenBy == Some(viewer.id))))
            && (r.Ok? ==>
                  && after.nextId == s.nextId && after.rows.Keys == s.rows.Keys
                  && (forall other | other in s.rows && other != id :: after.rows[other] == s.rows[other])
                  && after.rows[id].takenBy == (if action == "take" then Some(viewer.id) else None)
                  && after.rows[id].updatedAt == t1
                  && after.rows[id].(takenBy := None, updatedAt := 0) == s.rows[id].(takenBy := None, updatedAt := 0))
            && (r.Err? ==>
                  && after == s
                  && (r.error == Invalid <==> action !in {"take", "untake"})
                  && (r.error == NotFound <==> action in {"take", "untake"} && id !in s.rows)
                  && (r.error == Conflict <==> action == "take" && id in s.rows && s.rows[id].takenBy.Some?)
                  && r.error in {Invalid, NotFound, Conflict, Forbidden})
  {
  }

  lemma DeleteMeaning(s: Store, viewer: CurrentUser, id: int, t0: int, c: CatalogAnswer, t1: int)
    ensures var (after, r) := Execute(s, viewer, Delete(id), t0, c, t1);
            && (r.Ok? <==> id in s.rows && (s.rows[id].postedBy == viewer.id || viewer.role == "admin"))
            && (r.Ok? ==> after.nextId == s.nextId && after.rows == s.rows - {id})
            && (r.Err? ==> after == s && r.error == if id in s.rows then Forbidden else NotFound)
  {
  }

  lemma CreateMeaning(s: Store, viewer: CurrentUser, input: CreateInput, t0: int, c: CatalogAnswer, t1: int)
    requires s.nextId !in s.rows
    ensures var (after, r) := Execute(s, viewer, Create(input), t0, c, t1);
            && (r.Ok? <==> input.showId > 0 && t0 < input.startTime < input.endTime && |input.notes| <= 1000
                           && (c.NotConfigured? || (c.Listed? && exists show :: show in c.shows
                                                                         && Atoi(show.id) == Some(input.showId))))
            && (r.Ok? ==>
                  && s.rows.Keys <= after.rows.Keys && after.rows.Keys - s.rows.Keys == {s.nextId}
                  && (forall id | id in s.rows :: after.rows[id] == s.rows[id])
                  && after.nextId == s.nextId + 1
                  && after.rows[s.nextId] == SubRequest(s.nextId, input.showId, viewer.id, None, input.startTime,
                                                        input.endTime, input.notes, t1, t1))
            && (r.Err? ==> after == s && r.error in {Invalid, Catalog})
            && (r == Err(AppError.Catalog) <==>
                  c.Failed? && input.showId > 0 && t0 < input.startTime < input.endTime && |input.notes| <= 1000)
  {
  }

  /** Validation and creation read the clock separately: a stored request starts after its creation exactly if the
      second reading is still before the start. */
  lemma StartsAfterCreationIff(s: Store, viewer: CurrentUser, input: CreateInput, t0: int, c: CatalogAnswer, t1: int)
    requires Execute(s, viewer, Create(input), t0, c, t1).1.Ok?
    ensures var row := Execute(s, viewer, Create(input), t0, c, t1).0.rows[s.nextId];
            && t0 < row.startTime
            && (row.createdAt < row.startTime <==> t1 < input.startTime)
  {
  }

  // ---- Capabilities shown to a viewer ----

  datatype Capabilities = Capabilities(canDelete: bool, canTake: bool, canUntake: bool)

  function CapabilitiesFor(a: Authorizer, viewer: CurrentUser, sr: SubRequest): Capabilities {
    Capabilities(
      a.Authorizes(viewer, SUBREQUEST_DELETE, SubRequestResource(sr)),
      sr.takenBy.None? && a.Authorizes(viewer, SUBREQUEST_TAKE, SubRequestResource(sr)),
      a.Authorizes(viewer, SUBREQUEST_UNTAKE, SubRequestResource(sr)))
  }

  /** Under any policy table whatever, can-take and can-delete are shown exactly when the command, issued on the same
      state, succeeds. Can-untake is so exactly if the table lets nobody but the taker untake this request; a table with
      the seeded rows does. */
  lemma CapabilitiesExact(a: Authorizer, s: Store, viewer: CurrentUser, id: int, t0: int, c: CatalogAnswer, t1: int)
    requires id in s.rows
    ensures var caps := CapabilitiesFor(a, viewer, s.rows[id]);
            && (caps.canTake <==> ExecuteBy(a, s, viewer, Apply(id, ACTION_TAKE), t0, c, t1).1.Ok?)
            && (caps.canDelete <==> ExecuteBy(a, s, viewer, Delete(id), t0, c, t1).1.Ok?)
            && ((caps.canUntake <==> ExecuteBy(a, s, viewer, Apply(id, ACTION_UNTAKE), t0, c, t1).1.Ok?) <==>
                  (a.Authorizes(viewer, SUBREQUEST_UNTAKE, SubRequestResource(s.rows[id])) ==>
                     s.rows[id].takenBy == Some(viewer.id)))
            && (a.Seeded() ==>
                  (caps.canUntake <==> ExecuteBy(a, s, viewer, Apply(id, ACTION_UNTAKE), t0, c, t1).1.Ok?))
  {
    assert |ACTION_TAKE| != |ACTION_UNTAKE|;
    if a.Seeded() && a.PolicyTable? {
      TableAgreesOnApplicationResources(a.policies, viewer, s.rows[id], 0, false);
    }
  }

  class Service {
    const repo: Repository
    const authorizer: Authorizer

    constructor (repo: Repository, authorizer: Authorizer)
      ensures this.repo == repo && this.authorizer == authorizer
    {
      this.repo := repo;
      this.authorizer := authorizer;
    }

    method Create(viewer: CurrentUser, input: CreateInput, validateNow: int, catalog: CatalogAnswer, now: int)
      returns (r: Outcome<Unit>)
      modifies repo
      ensures (repo.State(), r) ==
                ExecuteBy(authorizer, old(repo.State()), viewer, Command.Create(input), validateNow, catalog, now)
    {
      var invalid := ValidateCreate(input, validateNow, catalog);
      if invalid.Some? {
        return Err(invalid.value);
      }
      var id := repo.CreateSubRequest(NewRow(viewer, input, now));
      r := Ok(Unit);
    }

    method Delete(viewer: CurrentUser, id: int) returns (r: Outcome<Unit>)
      modifies repo
      ensures forall t0, c, t1 ::
                (repo.State(), r) == ExecuteBy(authorizer, old(repo.State()), viewer, Command.Delete(id), t0, c, t1)
    {
      var found := repo.GetSubRequestByID(id);
      if found.Err? {
        return Err(found.error);
      }
      if !authorizer.Authorizes(viewer, SUBREQUEST_DELETE, SubRequestResource(found.value)) {
        return Err(Forbidden);
      }
      r := repo.DeleteSubRequest(id);
    }

    method ApplyAction(viewer: CurrentUser, id: int, action: string, now: int) returns (r: Outcome<Unit>)
      modifies repo
      ensures forall t0, c ::
                (repo.State(), r) == ExecuteBy(authorizer, old(repo.State()), viewer, Apply(id, action), t0, c, now)
    {
      if !ValidAction(action) {
        return Err(Invalid);
      }
      var found := repo.GetSubRequestByID(id);
      if found.Err? {
        return Err(found.error);
      }
      var sr := found.value;
      if action == ACTION_TAKE {
        assert |ACTION_TAKE| != |ACTION_UNTAKE|;
        if sr.takenBy.Some? {
          return Err(Conflict);
        }
        if !authorizer.Authorizes(viewer, SUBREQUEST_TAKE, SubRequestResource(sr)) {
          return Err(Forbidden);
        }
        r := repo.TakeSubRequest(id, viewer.id, now);
      } else {
        if !authorizer.Authorizes(viewer, SUBREQUEST_UNTAKE, SubRequestResource(sr)) {
          return Err(Forbidden);
        }
        r := repo.UntakeSubRequest(id, viewer.id, now);
      }
    }
  }
}
