/** The errors clients are told under interleaving: which of them the command done at once would have given, at some
    moment of the client's run. */
module SubRequestReports {
  import opened Basics
  import opened Domain
  import opened SubRequestStore
  import opened SubRequestService
  import opened SubRequestProtocol
  import opened SubRequestSafety

  /** After the first n steps client c has arrived and has not finished. */
  predicate Active(labels: seq<Label>, c: nat, n: nat) {
    n <= |labels| && c < |Run(labels[..n]).clients| && !Run(labels[..n]).clients[c].phase.Finished?
  }

  predicate Fails(s: Store, viewer: CurrentUser, cmd: Command, t0: int, catalog: CatalogAnswer, t1: int, e: AppError) {
    Execute(s, viewer, cmd, t0, catalog, t1).1 == Err(e)
  }

  /** The command done at once by client c at a moment of its own run gives this error. */
  ghost predicate GivesAt(labels: seq<Label>, c: nat, n: nat, e: AppError) {
    && Active(labels, c, n)
    && var (w, cl) := (Run(labels[..n]), Run(labels[..n]).clients[c]);
       exists t0, catalog, t1 :: Fails(w.store, cl.viewer, cl.cmd, t0, catalog, t1, e)
  }

  lemma FailsAtMoment(labels: seq<Label>, c: nat, n: nat, t0: int, catalog: CatalogAnswer, t1: int, e: AppError)
    requires Active(labels, c, n)
    requires var (w, cl) := (Run(labels[..n]), Run(labels[..n]).clients[c]);
             Fails(w.store, cl.viewer, cl.cmd, t0, catalog, t1, e)
    ensures GivesAt(labels, c, n, e)
  {
  }

  lemma FailsNow(labels: seq<Label>, step: Label, c: nat, t0: int, catalog: CatalogAnswer, e: AppError)
    requires c < |Run(labels).clients| && !Run(labels).clients[c].phase.Finished?
    requires var (w, cl) := (Run(labels), Run(labels).clients[c]);
             Execute(w.store, cl.viewer, cl.cmd, t0, catalog, 0).1 == Err(e)
    ensures GivesAt(labels + [step], c, |labels|, e)
  {
    assert (labels + [step])[..|labels|] == labels;
    FailsAtMoment(labels + [step], c, |labels|, t0, catalog, 0, e);
  }

  /** Told Conflict, an untake has lost a race; done at once it would have been forbidden. */
  function DoneAtOnce(cmd: Command, e: AppError): AppError {
    if cmd.Apply? && cmd.action == ACTION_UNTAKE && e == Conflict then Forbidden else e
  }

  /** At moment n client c was about to issue a write that would affect nothing. */
  predicate MissesAt(labels: seq<Label>, c: nat, n: nat) {
    && Active(labels, c, n)
    && var (w, cl) := (Run(labels[..n]), Run(labels[..n]).clients[c]);
       cl.phase.Writing? && cl.cmd.Apply? && !WriteStep(w.store, cl.viewer, cl.cmd, 0).affected
  }

  /** Where an error or a missed write of client c comes from. */
  ghost predicate Explained(labels: seq<Label>, c: nat)
    requires c < |Run(labels).clients|
  {
    var cl := Run(labels).clients[c];
    match cl.phase
    case Rereading => exists n: nat :: MissesAt(labels, c, n)
    case Finished(Err(e)) => e == Storage || exists n: nat :: GivesAt(labels, c, n, DoneAtOnce(cl.cmd, e))
    case _ => true
  }

  lemma ClientStays(w: World, step: Label, c: nat)
    requires c < |w.clients|
    ensures var w' := Next(w, step);
            && c < |w'.clients|
            && w'.clients[c].viewer == w.clients[c].viewer && w'.clients[c].cmd == w.clients[c].cmd
            && (w'.clients[c].phase == w.clients[c].phase || (step.Advance? && step.client == c))
            && (w.clients[c].phase.Finished? ==> w'.clients[c] == w.clients[c])
  {
  }

  lemma {:induction false} ClientStaysInRuns(labels: seq<Label>, n: nat, c: nat)
    requires n <= |labels| && c < |Run(labels[..n]).clients|
    ensures c < |Run(labels).clients|
    ensures Run(labels).clients[c].viewer == Run(labels[..n]).clients[c].viewer
    ensures Run(labels).clients[c].cmd == Run(labels[..n]).clients[c].cmd
  {
    if n == |labels| {
      assert labels[..n] == labels;
    } else {
      var init := labels[..|labels| - 1];
      assert init[..n] == labels[..n];
      ClientStaysInRuns(init, n, c);
      ClientStays(Run(init), labels[|labels| - 1], c);
    }
  }

  // What has an explanation keeps it in longer runs.
  lemma MomentsStay(labels: seq<Label>, step: Label, c: nat, n: nat, e: AppError)
    ensures MissesAt(labels, c, n) ==> MissesAt(labels + [step], c, n)
    ensures GivesAt(labels, c, n, e) ==> GivesAt(labels + [step], c, n, e)
  {
    if n <= |labels| {
      assert (labels + [step])[..n] == labels[..n];
    }
  }

  /** The row with this id is gone for good. */
  predicate RowGone(w: World, id: int) {
    id !in w.store.rows && id < w.store.nextId
  }

  lemma {:induction false} RowStaysGone(labels: seq<Label>, n: nat, id: int)
    requires n <= |labels| && RowGone(Run(labels[..n]), id)
    ensures RowGone(Run(labels), id)
  {
    if n == |labels| {
      assert labels[..n] == labels;
    } else {
      var init := labels[..|labels| - 1];
      assert init[..n] == labels[..n];
      RowStaysGone(init, n, id);
      StepKeepsRowGone(Run(init), labels[|labels| - 1], id);
    }
  }

  lemma StepKeepsRowGone(w: World, step: Label, id: int)
    requires RowGone(w, id)
    ensures RowGone(Next(w, step), id)
  {
  }

  // A client about to write has a valid command on an id that exists or is gone for good.
  lemma WriterHasRow(labels: seq<Label>, c: nat)
    requires c < |Run(labels).clients|
    requires Run(labels).clients[c].phase.Writing? && !Run(labels).clients[c].cmd.Create?
    ensures var w := Run(labels); var cmd := w.clients[c].cmd;
            && (cmd.id in w.store.rows || RowGone(w, cmd.id))
            && (cmd.Apply? ==> ValidAction(cmd.action))
  {
    RunClientOk(labels, c);
    RunIsCoupled(labels, Run(labels).clients[c].cmd.id);
  }

  /** A missed take found the request filled; a missed untake found it held by nobody or by somebody else. */
  lemma MissedWriteWouldFail(labels: seq<Label>, c: nat, n: nat)
    requires MissesAt(labels, c, n)
    ensures var w := Run(labels[..n]); var cmd := w.clients[c].cmd;
            && ValidAction(cmd.action)
            && (RowGone(w, cmd.id) || (cmd.id in w.store.rows && GivesAt(labels, c, n, DoneAtOnce(cmd, Conflict))))
  {
    WriterHasRow(labels[..n], c);
    var w := Run(labels[..n]);
    var cl := w.clients[c];
    assert |ACTION_TAKE| != |ACTION_UNTAKE|;
    if cl.cmd.id in w.store.rows {
      ApplyMeaning(w.store, cl.viewer, cl.cmd.id, cl.cmd.action, 0, NotConfigured, 0);
      FailsAtMoment(labels, c, n, 0, NotConfigured, 0, DoneAtOnce(cl.cmd, Conflict));
    }
  }

  lemma LoadErrorIsExplained(labels: seq<Label>, step: Label)
    requires step.Advance? && step.client < |Run(labels).clients| && Run(labels).clients[step.client].phase.Loading?
    ensures Explained(labels + [step], step.client)
  {
    var c := step.client;
    var w, longer := Run(labels), labels + [step];
    RunSnoc(labels, step);
    var w' := Run(longer);
    var cl := w.clients[c];
    if w'.clients[c].phase.Finished? && w'.clients[c].phase.result.Err? && w'.clients[c].phase.result.error != Storage {
      var e := w'.clients[c].phase.result.error;
      LoadErrorIsTheCommands(w.store, cl.viewer, cl.cmd, step.now, step.catalog);
      FailsNow(labels, step, c, step.now, step.catalog, e);
    }
  }

  lemma LoadErrorIsTheCommands(s: Store, viewer: CurrentUser, cmd: Command, now: int, catalog: CatalogAnswer)
    ensures var r := LoadStep(s, viewer, cmd, now, catalog);
            r.Err? ==> Execute(s, viewer, cmd, now, catalog, 0).1 == Err(r.error) && DoneAtOnce(cmd, r.error) == r.error
  {
    assert |ACTION_TAKE| != |ACTION_UNTAKE|;
  }

  lemma WriteErrorIsExplained(labels: seq<Label>, step: Label)
    requires step.Advance? && step.client < |Run(labels).clients| && Run(labels).clients[step.client].phase.Writing?
    ensures Explained(labels + [step], step.client)
  {
    var c := step.client;
    var w, longer := Run(labels), labels + [step];
    RunSnoc(labels, step);
    var cl := w.clients[c];
    assert longer[..|labels|] == labels;
    if !cl.cmd.Create? {
      WriterHasRow(labels, c);
      if cl.cmd.Apply? {
        assert Run(longer).clients[c].phase.Rereading? ==> MissesAt(longer, c, |labels|);
      } else if cl.cmd.id !in w.store.rows {
        FailsNow(labels, step, c, 0, NotConfigured, NotFound);
        assert GivesAt(longer, c, |labels|, DoneAtOnce(cl.cmd, NotFound));
        assert step.fault == Fine ==> Run(longer).clients[c].phase == Finished(Err(NotFound));
      }
    }
  }

  lemma RereadErrorIsExplained(labels: seq<Label>, step: Label)
    requires step.Advance? && step.client < |Run(labels).clients| && Run(labels).clients[step.client].phase.Rereading?
    requires Explained(labels, step.client)
    ensures Explained(labels + [step], step.client)
  {
    var c := step.client;
    var w, longer := Run(labels), labels + [step];
    RunSnoc(labels, step);
    var cl := w.clients[c];
    var n: nat :| MissesAt(labels, c, n);
    MissedWriteWouldFail(labels, c, n);
    ClientStaysInRuns(labels, n, c);
    if cl.cmd.id in w.store.rows {
      if RowGone(Run(labels[..n]), cl.cmd.id) {
        RowStaysGone(labels, n, cl.cmd.id);
      }
      MomentsStay(labels, step, c, n, DoneAtOnce(cl.cmd, Conflict));
    } else {
      FailsNow(labels, step, c, 0, NotConfigured, NotFound);
      assert GivesAt(longer, c, |labels|, DoneAtOnce(cl.cmd, NotFound));
      assert step.fault == Fine ==> Run(longer).clients[c].phase == Finished(Err(NotFound));
    }
  }

  lemma OthersStayExplained(labels: seq<Label>, step: Label, c: nat)
    requires c < |Run(labels).clients| && Explained(labels, c)
    requires Run(labels + [step]).clients[c] == Run(labels).clients[c]
    ensures Explained(labels + [step], c)
  {
    var cl := Run(labels).clients[c];
    match cl.phase
    case Rereading =>
      var n: nat :| MissesAt(labels, c, n);
      MomentsStay(labels, step, c, n, Storage);
    case Finished(Err(e)) =>
      if e != Storage {
        var n: nat :| GivesAt(labels, c, n, DoneAtOnce(cl.cmd, e));
        MomentsStay(labels, step, c, n, DoneAtOnce(cl.cmd, e));
      }
    case _ =>
  }

  lemma {:induction false} EveryErrorIsExplained(labels: seq<Label>, c: nat)
    requires c < |Run(labels).clients|
    ensures Explained(labels, c)
  {
    var init, step := labels[..|labels| - 1], labels[|labels| - 1];
    assert labels == init + [step];
    RunSnoc(init, step);
    if c < |Run(init).clients| {
      EveryErrorIsExplained(init, c);
      ClientStays(Run(init), step, c);
      if step.Advance? && step.client == c {
        match Run(init).clients[c].phase
        case Loading => LoadErrorIsExplained(init, step);
        case Writing(_) => WriteErrorIsExplained(init, step);
        case Rereading => RereadErrorIsExplained(init, step);
        case Finished(_) => OthersStayExplained(init, step, c);
      } else {
        OthersStayExplained(init, step, c);
      }
    }
  }

  /** Every error a client is told, other than a storage error, is what its command done at once would have given at
      some moment of the client's run, with one exception: an untake told Conflict, which at no moment and on no table
      would have been, and which at some moment would have been forbidden. */
  lemma ErrorsAreAtomicIff(labels: seq<Label>, c: nat)
    requires c < |Run(labels).clients| && Run(labels).clients[c].phase.Finished?
    requires Run(labels).clients[c].phase.result.Err? && Run(labels).clients[c].phase.result.error != Storage
    ensures var (cmd, e) := (Run(labels).clients[c].cmd, Run(labels).clients[c].phase.result.error);
            && ((exists n: nat :: GivesAt(labels, c, n, e)) <==>
                  !(cmd.Apply? && cmd.action == ACTION_UNTAKE && e == Conflict))
            && (exists n: nat :: GivesAt(labels, c, n, DoneAtOnce(cmd, e)))
  {
    EveryErrorIsExplained(labels, c);
    var cl := Run(labels).clients[c];
    if cl.cmd.Apply? && cl.cmd.action == ACTION_UNTAKE {
      forall n: nat ensures !GivesAt(labels, c, n, Conflict) {
        if Active(labels, c, n) {
          UntakeIsNeverInConflict(labels, c, n);
        }
      }
    }
  }

  lemma UntakeIsNeverInConflict(labels: seq<Label>, c: nat, n: nat)
    requires Active(labels, c, n) && c < |Run(labels).clients|
    requires Run(labels).clients[c].cmd.Apply? && Run(labels).clients[c].cmd.action == ACTION_UNTAKE
    ensures !GivesAt(labels, c, n, Conflict)
  {
    ClientStaysInRuns(labels, n, c);
    var w, cl := Run(labels[..n]), Run(labels[..n]).clients[c];
    assert |ACTION_TAKE| != |ACTION_UNTAKE|;
    forall t0, catalog, t1 ensures !Fails(w.store, cl.viewer, cl.cmd, t0, catalog, t1, Conflict) {
      ApplyMeaning(w.store, cl.viewer, cl.cmd.id, cl.cmd.action, t0, catalog, t1);
    }
  }

  // ---- Two runs ----

  const POSTER := CurrentUser(1, "poster", MEMBER)
  const TAKER := CurrentUser(2, "taker", MEMBER)
  const INPUT := CreateInput(7, 5, 6, [])
  const UNTAKE := Apply(1, ACTION_UNTAKE)

  function Row(createdAt: int): SubRequest {
    NewRow(POSTER, INPUT, createdAt).(id := 1)
  }

  function Holding(row: SubRequest): Store {
    Store(map[1 := row], 2)
  }

  predicate Reaches(labels: seq<Label>, store: Store, clients: seq<Client>) {
    Run(labels).store == store && Run(labels).clients == clients
  }

  lemma PosterCreates(now: int) returns (labels: seq<Label>)
    ensures Reaches(labels, Holding(Row(now)), [Client(POSTER, Create(INPUT), Finished(Ok(Unit)))])
  {
    labels := [];
    var s0, s1 := Arrive(POSTER, Create(INPUT)), Advance(0, 0, NotConfigured, Fine);
    var s2 := Advance(0, now, NotConfigured, Fine);
    RunSnoc(labels, s0); labels := labels + [s0];
    RunSnoc(labels, s1); labels := labels + [s1];
    assert Reaches(labels, EMPTY, [Client(POSTER, Create(INPUT), Writing(None))]);
    RunSnoc(labels, s2); labels := labels + [s2];
  }

  /** A request validated before its start and stored after it: it starts before it was created. */
  lemma StoredAfterItsStart() returns (labels: seq<Label>)
    ensures 1 in Run(labels).store.rows
    ensures var row := Run(labels).store.rows[1]; row.startTime < row.createdAt
  {
    labels := PosterCreates(10);
  }

  lemma TakerTakes() returns (labels: seq<Label>)
    ensures Run(labels).store == Holding(Row(0).(takenBy := Some(2), updatedAt := 1)) && |Run(labels).clients| == 2
  {
    labels := PosterCreates(0);
    assert |ACTION_TAKE| != |ACTION_UNTAKE|;
    var s0, s1 := Arrive(TAKER, Apply(1, ACTION_TAKE)), Advance(1, 1, NotConfigured, Fine);
    RunSnoc(labels, s0); labels := labels + [s0];
    RunSnoc(labels, s1); labels := labels + [s1];
    assert Run(labels).clients[1] == Client(TAKER, Apply(1, ACTION_TAKE), Writing(Some(Row(0))));
    RunSnoc(labels, s1); labels := labels + [s1];
  }

  /** The state of the race: the stored row, and how far the two untakes have come. */
  predicate Racing(labels: seq<Label>, row: SubRequest, second: Phase, third: Phase) {
    && Run(labels).store == Holding(row)
    && |Run(labels).clients| == 4
    && Run(labels).clients[2] == Client(TAKER, UNTAKE, second)
    && Run(labels).clients[3] == Client(TAKER, UNTAKE, third)
  }

  lemma BothUntakesLoad() returns (labels: seq<Label>, held: SubRequest)
    ensures held == Row(0).(takenBy := Some(2), updatedAt := 1)
    ensures Racing(labels, held, Writing(Some(held)), Writing(Some(held)))
  {
    labels := TakerTakes();
    held := Row(0).(takenBy := Some(2), updatedAt := 1);
    assert |ACTION_TAKE| != |ACTION_UNTAKE|;
    var s0, s1, s2 := Arrive(TAKER, UNTAKE), Advance(2, 2, NotConfigured, Fine), Advance(3, 2, NotConfigured, Fine);
    RunSnoc(labels, s0); labels := labels + [s0];
    RunSnoc(labels, s0); labels := labels + [s0];
    assert Racing(labels, held, Loading, Loading);
    RunSnoc(labels, s1); labels := labels + [s1];
    assert Racing(labels, held, Writing(Some(held)), Loading);
    RunSnoc(labels, s2); labels := labels + [s2];
  }

  /** The exception arises: the holder untakes twice at once, and the second untake is told Conflict. */
  lemma UntakeRace() returns (labels: seq<Label>)
    ensures Racing(labels, Row(0).(updatedAt := 3), Finished(Ok(Unit)), Finished(Err(Conflict)))
  {
    var held;
    labels, held := BothUntakesLoad();
    assert |ACTION_TAKE| != |ACTION_UNTAKE|;
    var open := held.(takenBy := None, updatedAt := 3);
    var s0, s1 := Advance(2, 3, NotConfigured, Fine), Advance(3, 3, NotConfigured, Fine);
    RunSnoc(labels, s0); labels := labels + [s0];
    assert Racing(labels, open, Finished(Ok(Unit)), Writing(Some(held)));
    RunSnoc(labels, s1); labels := labels + [s1];
    assert Racing(labels, open, Finished(Ok(Unit)), Rereading);
    RunSnoc(labels, s1); labels := labels + [s1];
  }
}
