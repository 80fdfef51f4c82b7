/** Any number of clients running commands at once. Each SQL statement is one atomic step; between a client's
    steps any other client may take any number of its own, so every decision is made on a possibly stale snapshot.
    The log records the writes that took effect. */
module SubRequestProtocol {
  import opened Basics
  import opened Domain
  import opened Authorization
  import opened SubRequestStore
  import opened SubRequestService

  /** A statement may be lost before it takes effect, or take effect without the client learning of it. */
  datatype Fault = Fine | Lost | Unconfirmed

  datatype Phase =
    | Loading
    | Writing(snapshot: Option<SubRequest>)
    | Rereading
    | Finished(result: Outcome<Unit>)

  datatype Client = Client(viewer: CurrentUser, cmd: Command, phase: Phase)

  datatype Change =
    | Created(row: SubRequest)
    | Taken(user: int)
    | Released(user: int)
    | Deleted(actor: CurrentUser)

  datatype Event = Event(client: nat, id: int, change: Change)

  datatype World = World(store: Store, clients: seq<Client>, log: seq<Event>)

  datatype Label =
    | Arrive(viewer: CurrentUser, cmd: Command)
    | Advance(client: nat, now: int, catalog: CatalogAnswer, fault: Fault)

  const START := World(EMPTY, [], [])

  predicate ReadsTable(cmd: Command) {
    cmd.Delete? || (cmd.Apply? && ValidAction(cmd.action))
  }

  function EffectOf(s: Store, c: nat, cl: Client, now: int): Event {
    match cl.cmd
    case Create(input) => Event(c, s.nextId, Created(NewRow(cl.viewer, input, now).(id := s.nextId)))
    case Apply(id, action) =>
      Event(c, id, if action == ACTION_TAKE then Taken(cl.viewer.id) else Released(cl.viewer.id))
    case Delete(id) => Event(c, id, Deleted(cl.viewer))
  }

  function MoveTo(w: World, c: nat, phase: Phase): World
    requires c < |w.clients|
  {
    w.(clients := w.clients[c := w.clients[c].(phase := phase)])
  }

  function Load(w: World, c: nat, now: int, catalog: CatalogAnswer, fault: Fault): World
    requires c < |w.clients|
  {
    var cl := w.clients[c];
    if fault != Fine && ReadsTable(cl.cmd) then MoveTo(w, c, Finished(Err(Storage)))
    else match LoadStep(w.store, cl.viewer, cl.cmd, now, catalog)
      case Err(e) => MoveTo(w, c, Finished(Err(e)))
      case Ok(snapshot) => MoveTo(w, c, Writing(snapshot))
  }

  function Write(w: World, c: nat, now: int, fault: Fault): World
    requires c < |w.clients|
  {
    var cl := w.clients[c];
    if fault == Lost then MoveTo(w, c, Finished(Err(Storage)))
    else
      var written := WriteStep(w.store, cl.viewer, cl.cmd, now);
      var phase :=
        if fault == Unconfirmed then Finished(Err(Storage))
        else if written.affected then Finished(Ok(Unit))
        else if cl.cmd.Apply? then Rereading
        else Finished(Err(NotFound));
      var log := if written.affected then w.log + [EffectOf(w.store, c, cl, now)] else w.log;
      MoveTo(w, c, phase).(store := written.store, log := log)
  }

  function Reread(w: World, c: nat, fault: Fault): World
    requires c < |w.clients|
  {
    MoveTo(w, c, Finished(Err(if fault == Fine then MissError(w.store, w.clients[c].cmd) else Storage)))
  }

  function Next(w: World, step: Label): World {
    match step
    case Arrive(viewer, cmd) => w.(clients := w.clients + [Client(viewer, cmd, Loading)])
    case Advance(c, now, catalog, fault) =>
      if c >= |w.clients| then w
      else match w.clients[c].phase
        case Loading => Load(w, c, now, catalog, fault)
        case Writing(_) => Write(w, c, now, fault)
        case Rereading => Reread(w, c, fault)
        case Finished(_) => w
  }

  /** What faults do. A read or re-read that fails, and a write that is lost, leave the table alone; an unconfirmed
      write is made. In each case the client is told a storage error and is done. */
  lemma FaultsAreStorageErrors(w: World, c: nat, now: int, catalog: CatalogAnswer, fault: Fault)
    requires c < |w.clients| && fault != Fine && !w.clients[c].phase.Finished?
    requires w.clients[c].phase.Loading? ==>
               w.clients[c].cmd.Delete? || (w.clients[c].cmd.Apply? && w.clients[c].cmd.action in {"take", "untake"})
    ensures var (cl, w') := (w.clients[c], Next(w, Advance(c, now, catalog, fault)));
            && w'.clients == w.clients[c := cl.(phase := Finished(Err(Storage)))]
            && w'.store == (if cl.phase.Writing? && fault == Unconfirmed
                            then WriteStep(w.store, cl.viewer, cl.cmd, now).store else w.store)
  {
  }

  function Run(labels: seq<Label>): World {
    if labels == [] then START
    else Next(Run(labels[..|labels| - 1]), labels[|labels| - 1])
  }

  // ---- What the log says about one id ----

  datatype Life = Unborn | Live(row: SubRequest, holder: Option<int>) | Dead(row: SubRequest)

  predicate Legal(life: Life, e: Event) {
    match e.change
    case Created(row) => life.Unborn? && row.id == e.id && row.takenBy.None?
    case Taken(user) => life.Live? && life.holder.None? && life.row.postedBy != user
    case Released(user) => life.Live? && life.holder == Some(user)
    case Deleted(actor) => life.Live? && (actor.id == life.row.postedBy || actor.IsAdmin())
  }

  function Lived(life: Life, e: Event): Life {
    match e.change
    case Created(row) => Live(row, None)
    case Taken(user) => if life.Live? then life.(holder := Some(user)) else life
    case Released(_) => if life.Live? then life.(holder := None) else life
    case Deleted(_) => if life.Live? then Dead(life.row) else life
  }

  function LifeOf(log: seq<Event>, id: int): Life {
    if log == [] then Unborn
    else
      var before := LifeOf(log[..|log| - 1], id);
      var e := log[|log| - 1];
      if e.id == id then Lived(before, e) else before
  }

  lemma LifeSnoc(log: seq<Event>, e: Event, id: int)
    ensures LifeOf(log + [e], id) == if e.id == id then Lived(LifeOf(log, id), e) else LifeOf(log, id)
  {
  }

  predicate LegalHistory(log: seq<Event>) {
    forall j | 0 <= j < |log| :: Legal(LifeOf(log[..j], log[j].id), log[j])
  }

  lemma LegalSnoc(log: seq<Event>, e: Event)
    requires LegalHistory(log) && Legal(LifeOf(log, e.id), e)
    ensures LegalHistory(log + [e])
  {
    forall j | 0 <= j < |log + [e]|
      ensures Legal(LifeOf((log + [e])[..j], (log + [e])[j].id), (log + [e])[j])
    {
      assert (log + [e])[..j] == if j < |log| then log[..j] else log;
    }
  }

  /** The part of a row no statement changes after the insert. */
  function Fixed(row: SubRequest): SubRequest {
    row.(takenBy := None, updatedAt := 0)
  }

  // ---- The invariant ----

  predicate ValidRow(row: SubRequest) {
    row.showId > 0 && row.startTime < row.endTime && |row.notes| <= MAX_CREATE_NOTES_LENGTH
  }

  /** One id's row and its history tell the same story. */
  predicate Coupled(s: Store, log: seq<Event>, id: int) {
    match LifeOf(log, id)
    case Unborn => id !in s.rows
    case Dead(_) => id !in s.rows && 1 <= id < s.nextId
    case Live(row, holder) =>
      && 1 <= id < s.nextId && id in s.rows
      && Fixed(s.rows[id]) == Fixed(row) && s.rows[id].takenBy == holder
      && row.id == id && ValidRow(row) && holder != Some(row.postedBy)
  }

  predicate ClientOk(log: seq<Event>, cl: Client) {
    match cl.phase
    case Writing(None) => cl.cmd.Create? && ValidRow(NewRow(cl.viewer, cl.cmd.input, 0))
    case Writing(Some(snapshot)) =>
      && !cl.cmd.Create? && snapshot.id == cl.cmd.id
      && (cl.cmd.Apply? ==> ValidAction(cl.cmd.action))
      && !LifeOf(log, cl.cmd.id).Unborn?
      && Fixed(LifeOf(log, cl.cmd.id).row) == Fixed(snapshot)
      && (cl.cmd.Apply? && cl.cmd.action == ACTION_TAKE ==> snapshot.postedBy != cl.viewer.id)
      && (cl.cmd.Delete? ==> snapshot.postedBy == cl.viewer.id || cl.viewer.IsAdmin())
    case _ => true
  }

  /** An event is the one effect of its client's command, which has finished, successfully or unconfirmed. */
  predicate EventOf(clients: seq<Client>, e: Event) {
    && e.client < |clients|
    && var cl := clients[e.client];
       && (cl.phase == Finished(Ok(Unit)) || cl.phase == Finished(Err(Storage)))
       && match e.change
          case Created(row) => cl.cmd.Create? && row == NewRow(cl.viewer, cl.cmd.input, row.createdAt).(id := e.id)
          case Taken(user) => cl.cmd == Apply(e.id, ACTION_TAKE) && user == cl.viewer.id
          case Released(user) => cl.cmd == Apply(e.id, ACTION_UNTAKE) && user == cl.viewer.id
          case Deleted(actor) => cl.cmd == Delete(e.id) && actor == cl.viewer
  }

  predicate HasEffect(log: seq<Event>, c: nat) {
    exists i | 0 <= i < |log| :: log[i].client == c
  }

  /** Each command has at most one effect, and a command reported successful has had it. */
  predicate EffectsMatchCommands(clients: seq<Client>, log: seq<Event>) {
    && (forall i | 0 <= i < |log| :: EventOf(clients, log[i]))
    && (forall i, j | 0 <= i < j < |log| :: log[i].client != log[j].client)
    && (forall c | 0 <= c < |clients| && clients[c].phase == Finished(Ok(Unit)) :: HasEffect(log, c))
  }

  predicate CreationsAscend(log: seq<Event>, nextId: int) {
    && (forall i, j | 0 <= i < j < |log| && log[i].change.Created? && log[j].change.Created? :: log[i].id < log[j].id)
    && (forall i | 0 <= i < |log| && log[i].change.Created? :: log[i].id < nextId)
  }

  ghost predicate Inv(w: World) {
    && w.store.nextId >= 1
    && (forall id :: Coupled(w.store, w.log, id))
    && LegalHistory(w.log)
    && (forall c | 0 <= c < |w.clients| :: ClientOk(w.log, w.clients[c]))
    && EffectsMatchCommands(w.clients, w.log)
    && CreationsAscend(w.log, w.store.nextId)
  }

  // A move that only changes one client's phase keeps the invariant.
  lemma PhaseKeepsInv(w: World, c: nat, phase: Phase)
    requires Inv(w) && c < |w.clients| && !w.clients[c].phase.Finished?
    requires ClientOk(w.log, w.clients[c].(phase := phase)) && phase != Finished(Ok(Unit))
    ensures Inv(MoveTo(w, c, phase))
  {
    var w' := MoveTo(w, c, phase);
    forall d | 0 <= d < |w'.clients| && w'.clients[d].phase == Finished(Ok(Unit)) ensures HasEffect(w'.log, d) {
      assert w.clients[d].phase == Finished(Ok(Unit));
    }
    forall i | 0 <= i < |w'.log| ensures EventOf(w'.clients, w'.log[i]) {
      assert EventOf(w.clients, w.log[i]);
    }
  }

  lemma LoadKeepsInv(w: World, c: nat, now: int, catalog: CatalogAnswer, fault: Fault)
    requires Inv(w) && c < |w.clients| && w.clients[c].phase.Loading?
    ensures Inv(Load(w, c, now, catalog, fault))
  {
    var cl := w.clients[c];
    if fault != Fine && ReadsTable(cl.cmd) {
      PhaseKeepsInv(w, c, Finished(Err(Storage)));
    } else {
      match LoadStep(w.store, cl.viewer, cl.cmd, now, catalog)
      case Err(e) => PhaseKeepsInv(w, c, Finished(Err(e)));
      case Ok(snapshot) =>
        if !cl.cmd.Create? {
          assert Coupled(w.store, w.log, cl.cmd.id);
        }
        PhaseKeepsInv(w, c, Writing(snapshot));
    }
  }

  /** The heart of the argument: a write that affects a row is legal on the live history, however stale
      the snapshot it was authorized on. */
  lemma EffectIsLegal(w: World, c: nat, now: int)
    requires Inv(w) && c < |w.clients| && w.clients[c].phase.Writing?
    requires WriteStep(w.store, w.clients[c].viewer, w.clients[c].cmd, now).affected
    ensures var e := EffectOf(w.store, c, w.clients[c], now);
            Legal(LifeOf(w.log, e.id), e)
  {
    var cl := w.clients[c];
    assert ClientOk(w.log, cl);
    assert Coupled(w.store, w.log, EffectOf(w.store, c, cl, now).id);
  }

  lemma EffectKeepsCoupling(w: World, c: nat, now: int, id: int)
    requires Inv(w) && c < |w.clients| && w.clients[c].phase.Writing?
    requires WriteStep(w.store, w.clients[c].viewer, w.clients[c].cmd, now).affected
    ensures var cl := w.clients[c];
            Coupled(WriteStep(w.store, cl.viewer, cl.cmd, now).store, w.log + [EffectOf(w.store, c, cl, now)], id)
  {
    var cl := w.clients[c];
    var e := EffectOf(w.store, c, cl, now);
    EffectIsLegal(w, c, now);
    LifeSnoc(w.log, e, id);
    assert ClientOk(w.log, cl);
    assert Coupled(w.store, w.log, id);
    assert |ACTION_TAKE| != |ACTION_UNTAKE|;
  }

  lemma WriteKeepsInv(w: World, c: nat, now: int, fault: Fault)
    requires Inv(w) && c < |w.clients| && w.clients[c].phase.Writing?
    ensures Inv(Write(w, c, now, fault))
  {
    var cl := w.clients[c];
    var written := WriteStep(w.store, cl.viewer, cl.cmd, now);
    var w' := Write(w, c, now, fault);
    if fault == Lost || !written.affected {
      assert written.affected || written.store == w.store;
      PhaseKeepsInv(w, c, w'.clients[c].phase);
      assert w' == MoveTo(w, c, w'.clients[c].phase);
    } else {
      EffectKeepsInv(w, c, now, fault);
    }
  }

  // A snapshot's fixed part stays the fixed part of that id's row, whatever happens to any id.
  lemma EffectKeepsClient(log: seq<Event>, e: Event, cl: Client)
    requires ClientOk(log, cl) && Legal(LifeOf(log, e.id), e)
    ensures ClientOk(log + [e], cl)
  {
  }

  lemma EffectKeepsClients(w: World, c: nat, now: int, fault: Fault)
    requires Inv(w) && c < |w.clients| && w.clients[c].phase.Writing? && fault != Lost
    requires WriteStep(w.store, w.clients[c].viewer, w.clients[c].cmd, now).affected
    ensures var w' := Write(w, c, now, fault); forall d | 0 <= d < |w'.clients| :: ClientOk(w'.log, w'.clients[d])
  {
    var w' := Write(w, c, now, fault);
    EffectIsLegal(w, c, now);
    forall d | 0 <= d < |w'.clients| ensures ClientOk(w'.log, w'.clients[d]) {
      if d != c {
        EffectKeepsClient(w.log, EffectOf(w.store, c, w.clients[c], now), w.clients[d]);
      }
    }
  }

  lemma EffectKeepsCreations(w: World, c: nat, now: int, fault: Fault)
    requires CreationsAscend(w.log, w.store.nextId) && c < |w.clients| && w.clients[c].phase.Writing? && fault != Lost
    requires WriteStep(w.store, w.clients[c].viewer, w.clients[c].cmd, now).affected
    ensures var w' := Write(w, c, now, fault);
            CreationsAscend(w'.log, w'.store.nextId) && w'.store.nextId >= w.store.nextId
  {
  }

  lemma EffectKeepsInv(w: World, c: nat, now: int, fault: Fault)
    requires Inv(w) && c < |w.clients| && w.clients[c].phase.Writing? && fault != Lost
    requires WriteStep(w.store, w.clients[c].viewer, w.clients[c].cmd, now).affected
    ensures Inv(Write(w, c, now, fault))
  {
    var e := EffectOf(w.store, c, w.clients[c], now);
    var w' := Write(w, c, now, fault);
    assert LegalHistory(w'.log) by {
      EffectIsLegal(w, c, now);
      LegalSnoc(w.log, e);
    }
    forall id ensures Coupled(w'.store, w'.log, id) {
      EffectKeepsCoupling(w, c, now, id);
    }
    EffectKeepsClients(w, c, now, fault);
    EffectKeepsCreations(w, c, now, fault);
    EffectMatchesItsCommand(w, c, now, fault);
  }

  lemma EffectMatchesItsCommand(w: World, c: nat, now: int, fault: Fault)
    requires Inv(w) && c < |w.clients| && w.clients[c].phase.Writing? && fault != Lost
    requires WriteStep(w.store, w.clients[c].viewer, w.clients[c].cmd, now).affected
    ensures var w' := Write(w, c, now, fault); EffectsMatchCommands(w'.clients, w'.log)
  {
    var cl := w.clients[c];
    var e := EffectOf(w.store, c, cl, now);
    var w' := Write(w, c, now, fault);
    forall i | 0 <= i < |w.log| ensures w.log[i].client != c && EventOf(w'.clients, w.log[i]) {
      assert EventOf(w.clients, w.log[i]);
    }
    assert EventOf(w'.clients, e) by {
      assert ClientOk(w.log, cl);
      assert |ACTION_TAKE| != |ACTION_UNTAKE|;
    }
    forall d | 0 <= d < |w'.clients| && w'.clients[d].phase == Finished(Ok(Unit)) ensures HasEffect(w'.log, d) {
      if d == c {
        assert w'.log[|w.log|].client == c;
      } else {
        assert HasEffect(w.log, d);
        var i :| 0 <= i < |w.log| && w.log[i].client == d;
        assert w'.log[i].client == d;
      }
    }
  }

  lemma NextKeepsInv(w: World, step: Label)
    requires Inv(w)
    ensures Inv(Next(w, step))
  {
    match step
    case Arrive(viewer, cmd) =>
      var w' := Next(w, step);
      forall i | 0 <= i < |w'.log| ensures EventOf(w'.clients, w'.log[i]) {
        assert EventOf(w.clients, w.log[i]);
      }
      forall d | 0 <= d < |w'.clients| && w'.clients[d].phase == Finished(Ok(Unit)) ensures HasEffect(w'.log, d) {
        assert w.clients[d].phase == Finished(Ok(Unit));
      }
    case Advance(c, now, catalog, fault) =>
      if c < |w.clients| {
        match w.clients[c].phase
        case Loading => LoadKeepsInv(w, c, now, catalog, fault);
        case Writing(_) => WriteKeepsInv(w, c, now, fault);
        case Rereading => PhaseKeepsInv(w, c, Reread(w, c, fault).clients[c].phase);
        case Finished(_) =>
      }
  }

  lemma {:induction false} RunKeepsInv(labels: seq<Label>)
    ensures Inv(Run(labels))
  {
    if labels != [] {
      RunKeepsInv(labels[..|labels| - 1]);
      NextKeepsInv(Run(labels[..|labels| - 1]), labels[|labels| - 1]);
    }
  }
}
