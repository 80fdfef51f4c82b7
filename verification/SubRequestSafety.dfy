/** What holds in every run of the sub-request protocol, whatever the interleaving and the faults. */
module SubRequestSafety {
  import opened Basics
  import opened Domain
  import opened SubRequestStore
  import opened SubRequestService
  import opened SubRequestProtocol

  // The parts of the invariant, one at a time.
  lemma RunIsLegal(labels: seq<Label>)
    ensures LegalHistory(Run(labels).log)
  {
    RunKeepsInv(labels);
  }

  lemma RunIsCoupled(labels: seq<Label>, id: int)
    ensures Coupled(Run(labels).store, Run(labels).log, id)
  {
    RunKeepsInv(labels);
  }

  lemma RunCreatesAscending(labels: seq<Label>)
    ensures CreationsAscend(Run(labels).log, Run(labels).store.nextId)
  {
    RunKeepsInv(labels);
  }

  lemma RunEffectsMatch(labels: seq<Label>)
    ensures EffectsMatchCommands(Run(labels).clients, Run(labels).log)
  {
    RunKeepsInv(labels);
  }

  lemma RunClientOk(labels: seq<Label>, c: nat)
    requires c < |Run(labels).clients|
    ensures ClientOk(Run(labels).log, Run(labels).clients[c])
  {
    RunKeepsInv(labels);
  }

  /** No stored request is covered by its own poster, and every stored request is well formed. */
  lemma NeverCoveredByPoster(labels: seq<Label>, id: int)
    requires id in Run(labels).store.rows
    ensures var row := Run(labels).store.rows[id];
            && row.takenBy != Some(row.postedBy)
            && row.id == id && row.showId > 0 && row.startTime < row.endTime && |row.notes| <= 1000
  {
    RunIsCoupled(labels, id);
  }

  // ---- Origins ----

  predicate CreatedAs(log: seq<Event>, i: int, id: int, row: SubRequest) {
    0 <= i < |log| && log[i].id == id && log[i].change == Created(row)
  }

  lemma {:induction false} LifeHasOrigin(log: seq<Event>, id: int) returns (i: int)
    requires !LifeOf(log, id).Unborn?
    ensures CreatedAs(log, i, id, LifeOf(log, id).row)
  {
    var e := log[|log| - 1];
    if e.id == id && e.change.Created? {
      i := |log| - 1;
    } else {
      i := LifeHasOrigin(log[..|log| - 1], id);
    }
  }

  /** Every delete that took effect was by the poster of that request or by a viewer authenticated as admin,
      and every take by somebody other than the poster. */
  lemma WritesWereAuthorized(labels: seq<Label>, j: nat)
    requires j < |Run(labels).log| && !Run(labels).log[j].change.Created?
    ensures var log := Run(labels).log;
            exists i, row ::
              && i < j && CreatedAs(log, i, log[j].id, row)
              && (log[j].change.Deleted? ==>
                    log[j].change.actor.id == row.postedBy || log[j].change.actor.role == ADMIN)
              && (log[j].change.Taken? ==> log[j].change.user != row.postedBy)
  {
    RunIsLegal(labels);
    var log := Run(labels).log;
    assert Legal(LifeOf(log[..j], log[j].id), log[j]);
    var i := LifeHasOrigin(log[..j], log[j].id);
    assert CreatedAs(log, i, log[j].id, LifeOf(log[..j], log[j].id).row);
  }

  // ---- Takes and releases alternate ----

  /** The takes and releases of one request, in order. */
  function Moves(log: seq<Event>, id: int): seq<Change> {
    if log == [] then []
    else
      var before := Moves(log[..|log| - 1], id);
      var e := log[|log| - 1];
      if e.id == id && (e.change.Taken? || e.change.Released?) then before + [e.change] else before
  }

  /** Even moves are takes; odd ones release what the move before took. */
  predicate InTurn(moves: seq<Change>, k: int)
    requires 0 <= k < |moves|
  {
    if k % 2 == 0 then moves[k].Taken? else moves[k - 1].Taken? && moves[k] == Released(moves[k - 1].user)
  }

  predicate Alternate(moves: seq<Change>) {
    forall k | 0 <= k < |moves| :: InTurn(moves, k)
  }

  function Balance(moves: seq<Change>): int {
    if moves == [] then 0
    else Balance(moves[..|moves| - 1]) + (if moves[|moves| - 1].Taken? then 1 else -1)
  }

  lemma {:induction false} AlternateBalance(moves: seq<Change>)
    requires Alternate(moves)
    ensures Balance(moves) == |moves| % 2
  {
    if moves != [] {
      var init := moves[..|moves| - 1];
      forall k | 0 <= k < |init| ensures InTurn(init, k) {
        assert InTurn(moves, k);
      }
      AlternateBalance(init);
      assert InTurn(moves, |moves| - 1);
    }
  }

  function LastHolder(moves: seq<Change>): Option<int> {
    if |moves| % 2 == 1 && moves[|moves| - 1].Taken? then Some(moves[|moves| - 1].user) else None
  }

  lemma LegalPrefix(log: seq<Event>, n: nat)
    requires LegalHistory(log) && n <= |log|
    ensures LegalHistory(log[..n])
  {
    forall j | 0 <= j < n ensures Legal(LifeOf(log[..n][..j], log[..n][j].id), log[..n][j]) {
      assert log[..n][..j] == log[..j];
    }
  }

  lemma {:induction false} HistoryAlternates(log: seq<Event>, id: int)
    requires LegalHistory(log)
    ensures Alternate(Moves(log, id))
    ensures LifeOf(log, id).Unborn? ==> Moves(log, id) == []
    ensures LifeOf(log, id).Live? ==> LifeOf(log, id).holder == LastHolder(Moves(log, id))
  {
    if log != [] {
      var init, e := log[..|log| - 1], log[|log| - 1];
      LegalPrefix(log, |log| - 1);
      HistoryAlternates(init, id);
      assert Legal(LifeOf(init, e.id), e);
      AlternateSnoc(Moves(init, id), e.change);
    }
  }

  // A take may follow when nobody holds, a release by the holder when somebody does.
  lemma AlternateSnoc(moves: seq<Change>, next: Change)
    requires Alternate(moves)
    ensures next.Taken? && LastHolder(moves).None? ==>
              Alternate(moves + [next]) && LastHolder(moves + [next]) == Some(next.user)
    ensures next.Released? && LastHolder(moves) == Some(next.user) ==>
              Alternate(moves + [next]) && LastHolder(moves + [next]).None?
  {
    if |moves| > 0 {
      assert InTurn(moves, |moves| - 1);
    }
    forall k | 0 <= k < |moves| ensures InTurn(moves + [next], k) {
      assert InTurn(moves, k);
    }
  }

  /** The successful takes and untakes of a request strictly alternate; each untake is by the user of the take
      just before it; and takes minus untakes is 0 while the stored request is open and 1 while it is filled. */
  lemma TakesAndUntakesAlternate(labels: seq<Label>, id: int)
    ensures var w := Run(labels);
            var moves := Moves(w.log, id);
            && (forall k | 0 <= k < |moves| :: moves[k].Taken? <==> k % 2 == 0)
            && (forall k | 0 < k < |moves| && k % 2 == 1 :: moves[k] == Released(moves[k - 1].user))
            && (id in w.store.rows ==>
                  && Balance(moves) == (if w.store.rows[id].takenBy.Some? then 1 else 0)
                  && (w.store.rows[id].takenBy.Some? ==>
                        |moves| > 0 && moves[|moves| - 1] == Taken(w.store.rows[id].takenBy.value)))
  {
    var w := Run(labels);
    RunIsLegal(labels);
    RunIsCoupled(labels, id);
    HistoryAlternates(w.log, id);
    var moves := Moves(w.log, id);
    AlternateBalance(moves);
    forall k | 0 <= k < |moves|
      ensures (moves[k].Taken? <==> k % 2 == 0)
              && (k % 2 == 1 ==> moves[k - 1].Taken? && moves[k] == Released(moves[k - 1].user))
    {
      assert InTurn(moves, k);
    }
  }

  // Until it is released or deleted, a taken request stays with its taker.
  lemma {:induction false} TakerStays(log: seq<Event>, i: nat, j: nat)
    requires LegalHistory(log) && i < j <= |log| && log[i].change.Taken?
    requires forall k | i < k < j && log[k].id == log[i].id :: !log[k].change.Released?
    ensures var life := LifeOf(log[..j], log[i].id);
            life.Dead? || (life.Live? && life.holder == Some(log[i].change.user))
  {
    var id := log[i].id;
    assert log[..j][..j - 1] == log[..j - 1];
    assert Legal(LifeOf(log[..j - 1], log[j - 1].id), log[j - 1]);
    if j > i + 1 {
      TakerStays(log, i, j - 1);
    }
  }

  /** However many takes race, between two that succeed the first taker released the request. */
  lemma OneWinnerBetweenUntakes(labels: seq<Label>, i: nat, j: nat)
    requires i < j < |Run(labels).log|
    requires var log := Run(labels).log; log[i].id == log[j].id && log[i].change.Taken? && log[j].change.Taken?
    ensures var log := Run(labels).log;
            exists k :: i < k < j && log[k].id == log[i].id && log[k].change == Released(log[i].change.user)
  {
    RunIsLegal(labels);
    var log := Run(labels).log;
    assert Legal(LifeOf(log[..j], log[j].id), log[j]);
    if exists k :: i < k < j && log[k].id == log[i].id && log[k].change.Released? {
      FirstReleaseIsTheTakers(log, i, j);
    } else {
      TakerStays(log, i, j);
    }
  }

  lemma {:induction false} FirstReleaseIsTheTakers(log: seq<Event>, i: nat, j: nat)
    requires LegalHistory(log) && i < j < |log| && log[i].change.Taken?
    requires exists k :: i < k < j && log[k].id == log[i].id && log[k].change.Released?
    ensures exists k :: i < k < j && log[k].id == log[i].id && log[k].change == Released(log[i].change.user)
    decreases j
  {
    var k :| i < k < j && log[k].id == log[i].id && log[k].change.Released?;
    if m :| i < m < k && log[m].id == log[i].id && log[m].change.Released? {
      FirstReleaseIsTheTakers(log, i, k);
      var n :| i < n < k && log[n].id == log[i].id && log[n].change == Released(log[i].change.user);
      assert i < n < j;
    } else {
      TakerStays(log, i, k);
      assert Legal(LifeOf(log[..k], log[k].id), log[k]);
    }
  }

  // ---- Ids ----

  lemma {:induction false} DeadStaysDead(log: seq<Event>, i: nat, j: nat)
    requires LegalHistory(log) && i < j <= |log| && log[i].change.Deleted?
    ensures LifeOf(log[..j], log[i].id).Dead?
    ensures forall k | i < k < j :: log[k].id != log[i].id
  {
    assert log[..j][..j - 1] == log[..j - 1];
    assert Legal(LifeOf(log[..j - 1], log[j - 1].id), log[j - 1]);
    if j > i + 1 {
      DeadStaysDead(log, i, j - 1);
    }
  }

  /** Ids are given out in ascending order, and after a request is deleted nothing happens to its id again. */
  lemma IdsAreNeverReused(labels: seq<Label>, i: nat, j: nat)
    requires i < j < |Run(labels).log|
    ensures var log := Run(labels).log;
            && (log[i].change.Created? && log[j].change.Created? ==> log[i].id < log[j].id)
            && (log[i].change.Deleted? ==> log[j].id != log[i].id)
            && (log[j].change.Created? ==> log[i].id != log[j].id)
  {
    RunIsLegal(labels);
    RunCreatesAscending(labels);
    var log := Run(labels).log;
    if log[i].change.Deleted? {
      DeadStaysDead(log, i, j + 1);
    }
    if log[j].change.Created? {
      EventsFollowCreation(log, i, j);
    }
  }

  // A creation is the first event of its id.
  lemma EventsFollowCreation(log: seq<Event>, i: nat, j: nat)
    requires LegalHistory(log) && i < j < |log| && log[j].change.Created?
    ensures log[i].id != log[j].id
  {
    assert Legal(LifeOf(log[..j], log[j].id), log[j]);
    assert Legal(LifeOf(log[..i], log[i].id), log[i]);
    assert log[..i + 1] == log[..i] + [log[i]];
    LifeSnoc(log[..i], log[i], log[i].id);
    BornStaysBorn(log, i + 1, j, log[i].id);
  }

  lemma {:induction false} BornStaysBorn(log: seq<Event>, i: nat, j: nat, id: int)
    requires i <= j <= |log| && !LifeOf(log[..i], id).Unborn?
    ensures !LifeOf(log[..j], id).Unborn?
  {
    if i < j {
      BornStaysBorn(log, i, j - 1, id);
      assert log[..j][..j - 1] == log[..j - 1];
    }
  }

  lemma {:induction false} DeadHasDeletion(log: seq<Event>, id: int) returns (j: int)
    requires LifeOf(log, id).Dead?
    ensures 0 <= j < |log| && log[j].id == id && log[j].change.Deleted?
  {
    var e := log[|log| - 1];
    if e.id == id && e.change.Deleted? {
      j := |log| - 1;
    } else {
      j := DeadHasDeletion(log[..|log| - 1], id);
    }
  }

  // An id is unborn exactly if no event created it, and dead exactly if one deleted it.
  lemma BornIffCreated(log: seq<Event>, id: int)
    ensures !LifeOf(log, id).Unborn? <==> exists i :: 0 <= i < |log| && log[i].id == id && log[i].change.Created?
  {
  }

  lemma DeadIffDeleted(log: seq<Event>, id: int)
    requires LegalHistory(log)
    ensures LifeOf(log, id).Dead? <==> exists j :: 0 <= j < |log| && log[j].id == id && log[j].change.Deleted?
  {
    if LifeOf(log, id).Dead? {
      var j := DeadHasDeletion(log, id);
    }
    if j :| 0 <= j < |log| && log[j].id == id && log[j].change.Deleted? {
      assert log[..|log|] == log;
      DeadStaysDead(log, j, |log|);
    }
  }

  lemma OneCreation(labels: seq<Label>, id: int, i: nat)
    requires var log := Run(labels).log; i < |log| && log[i].id == id && log[i].change.Created?
    requires id in Run(labels).store.rows
    ensures Fixed(Run(labels).store.rows[id]) == Fixed(Run(labels).log[i].change.row)
  {
    RunIsCoupled(labels, id);
    RunCreatesAscending(labels);
    var o := LifeHasOrigin(Run(labels).log, id);
    assert o == i;
  }

  /** Conservation: the stored requests are exactly those created and not deleted, and each still has the owner,
      show, times and notes it was created with. */
  lemma StoreIsCreatedMinusDeleted(labels: seq<Label>, id: int)
    ensures var w := Run(labels);
            && (id in w.store.rows <==>
                 && (exists i :: 0 <= i < |w.log| && w.log[i].id == id && w.log[i].change.Created?)
                 && !(exists j :: 0 <= j < |w.log| && w.log[j].id == id && w.log[j].change.Deleted?))
            && (forall i | 0 <= i < |w.log| && w.log[i].id == id && w.log[i].change.Created? && id in w.store.rows ::
                  Fixed(w.store.rows[id]) == Fixed(w.log[i].change.row))
  {
    RunIsLegal(labels);
    RunIsCoupled(labels, id);
    var w := Run(labels);
    BornIffCreated(w.log, id);
    DeadIffDeleted(w.log, id);
    forall i | 0 <= i < |w.log| && w.log[i].id == id && w.log[i].change.Created? && id in w.store.rows
      ensures Fixed(w.store.rows[id]) == Fixed(w.log[i].change.row)
    {
      OneCreation(labels, id, i);
    }
  }

  // ---- Clients ----

  /** A client told that its command succeeded had exactly one effect, the one it asked for; a client told
      anything but success or a storage error had none. */
  lemma ReportsAreTruthful(labels: seq<Label>, c: nat)
    requires c < |Run(labels).clients| && Run(labels).clients[c].phase.Finished?
    ensures var w := Run(labels);
            var result := w.clients[c].phase.result;
            && (result.Ok? ==> exists i :: 0 <= i < |w.log| && w.log[i].client == c && EventOf(w.clients, w.log[i]))
            && (forall i, j | 0 <= i < |w.log| && 0 <= j < |w.log| &&
                    w.log[i].client == c && w.log[j].client == c :: i == j)
            && (result.Err? && result.error != Storage ==> forall i | 0 <= i < |w.log| :: w.log[i].client != c)
  {
    RunEffectsMatch(labels);
    var w := Run(labels);
    if w.clients[c].phase.result.Ok? {
      assert w.clients[c].phase == Finished(Ok(Unit)) by { var u := w.clients[c].phase.result.value; assert u == Unit; }
      assert HasEffect(w.log, c);
      var i :| 0 <= i < |w.log| && w.log[i].client == c;
      assert EventOf(w.clients, w.log[i]);
    }
    forall i | 0 <= i < |w.log| && w.log[i].client == c
      ensures !(w.clients[c].phase.result.Err? && w.clients[c].phase.result.error != Storage)
    {
      assert EventOf(w.clients, w.log[i]);
    }
  }

  /** Stale authorization is harmless: whenever a client's take, untake or delete changes the table, running the
      whole command at once on the table of that moment would have succeeded with the very same result. */
  lemma StaleWriteIsAtomic(labels: seq<Label>, c: nat, now: int, fault: Fault, t0: int, catalog: CatalogAnswer)
    requires c < |Run(labels).clients|
    requires var cl := Run(labels).clients[c]; cl.phase.Writing? && !cl.cmd.Create?
    ensures var w := Run(labels);
            var w' := Next(w, Advance(c, now, catalog, fault));
            || (w'.store == w.store && w'.log == w.log)
            || (w'.store, Ok(Unit)) == Execute(w.store, w.clients[c].viewer, w.clients[c].cmd, t0, catalog, now)
  {
    var w := Run(labels);
    var cl := w.clients[c];
    RunClientOk(labels, c);
    RunIsCoupled(labels, cl.cmd.id);
    assert |ACTION_TAKE| != |ACTION_UNTAKE|;
    if cl.cmd.Apply? {
      ApplyMeaning(w.store, cl.viewer, cl.cmd.id, cl.cmd.action, t0, catalog, now);
    } else {
      DeleteMeaning(w.store, cl.viewer, cl.cmd.id, t0, catalog, now);
    }
  }

  lemma RunSnoc(labels: seq<Label>, step: Label)
    ensures Run(labels + [step]) == Next(Run(labels), step)
  {
    assert (labels + [step])[..|labels|] == labels;
  }

  /** A client that nobody disturbs, from any reachable state on, does what the command does at once. */
  lemma UndisturbedClientExecutes(labels: seq<Label>, viewer: CurrentUser, cmd: Command,
                                  t0: int, catalog: CatalogAnswer, t1: int)
    ensures var (w, c) := (Run(labels), |Run(labels).clients|);
            var load, write := Advance(c, t0, catalog, Fine), Advance(c, t1, catalog, Fine);
            var w' := Run(labels + [Arrive(viewer, cmd)] + [load] + [write] + [write]);
            && |w'.clients| == c + 1
            && w'.clients[c].phase.Finished?
            && (w'.store, w'.clients[c].phase.result) == Execute(w.store, viewer, cmd, t0, catalog, t1)
  {
    var c := |Run(labels).clients|;
    var load, write := Advance(c, t0, catalog, Fine), Advance(c, t1, catalog, Fine);
    var arrived := labels + [Arrive(viewer, cmd)];
    RunSnoc(labels, Arrive(viewer, cmd));
    RunSnoc(arrived, load);
    RunSnoc(arrived + [load], write);
    RunSnoc(arrived + [load] + [write], write);
  }
}
