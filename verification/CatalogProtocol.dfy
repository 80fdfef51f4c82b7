/** Every interleaving of readers, first-time fetchers and background refreshes around one cache. A fetch runs
    unlocked between the read that starts it and the critical section that ends it. */
module CatalogProtocol {
  import opened Basics
  import opened Catalog

  /** A cold fetch is a reader that found nothing loaded; a refresh is started by a read of an expired value. */
  datatype Kind = Cold | Refresh

  datatype Progress<T> = Running | Answered(source: Source<T>) | Ended

  datatype Flight<T> = Flight(kind: Kind, progress: Progress<T>)

  datatype Stored<T> = Stored(flight: nat, source: Source<T>, items: seq<T>, at: int)

  /** Fetches are numbered in the order they start; `stores` lists what was put in the cache, in order. */
  datatype World<T> = World(cache: Cache<T>, flights: seq<Flight<T>>, stores: seq<Stored<T>>)

  datatype Step<T> =
    | Read(now: int)
    | Answer(flight: nat, source: Source<T>)  // the upstream service has answered the fetch
    | Commit(flight: nat, now: int)           // the critical section that ends the fetch

  function Start<T>(): World<T> {
    World(Cache([], false, 0, false), [], [])
  }

  function ReadStep<T>(w: World<T>, now: int): World<T> {
    if !w.cache.loaded then w.(flights := w.flights + [Flight(Cold, Running)])
    else if StartsRefresh(w.cache, now) then
      w.(cache := AfterRead(w.cache, now), flights := w.flights + [Flight(Refresh, Running)])
    else w
  }

  function CommitStep<T>(w: World<T>, f: nat, now: int, ttl: int): World<T>
    requires f < |w.flights| && w.flights[f].progress.Answered?
  {
    var flight := w.flights[f];
    var result := Fetch(flight.progress.source);
    World(
      if flight.kind == Refresh then AfterRefresh(w.cache, result, now, ttl)
      else if result.Ok? then AfterStore(w.cache, result.value, now, ttl)
      else w.cache,
      w.flights[f := Flight(flight.kind, Ended)],
      if result.Ok? then w.stores + [Stored(f, flight.progress.source, result.value, now)] else w.stores)
  }

  function Next<T>(w: World<T>, step: Step<T>, ttl: int): World<T> {
    match step
    case Read(now) => ReadStep(w, now)
    case Answer(f, source) =>
      if f < |w.flights| && w.flights[f].progress.Running?
      then w.(flights := w.flights[f := w.flights[f].(progress := Answered(source))])
      else w
    case Commit(f, now) =>
      if f < |w.flights| && w.flights[f].progress.Answered? then CommitStep(w, f, now, ttl) else w
  }

  function Run<T>(steps: seq<Step<T>>, ttl: int): World<T> {
    if steps == [] then Start() else Next(Run(steps[..|steps| - 1], ttl), steps[|steps| - 1], ttl)
  }

  predicate InFlight<T>(w: World<T>, i: int) {
    0 <= i < |w.flights| && !w.flights[i].progress.Ended?
  }

  predicate RefreshInFlight<T>(w: World<T>, i: int) {
    InFlight(w, i) && w.flights[i].kind == Refresh
  }

  /** All cold fetches start before all refreshes; only the last fetch started can be a refresh in flight. */
  ghost predicate FlightsOk<T>(w: World<T>) {
    && (forall i, j | 0 <= i < j < |w.flights| && w.flights[i].kind == Refresh :: w.flights[j].kind == Refresh)
    && (!w.cache.loaded ==> forall i | 0 <= i < |w.flights| :: w.flights[i].kind == Cold)
    && (forall i | RefreshInFlight(w, i) :: i == |w.flights| - 1)
    && (w.cache.refreshing <==> exists i :: RefreshInFlight(w, i))
  }

  ghost predicate StoresOk<T>(w: World<T>, ttl: int) {
    && (w.cache.loaded <==> |w.stores| > 0)
    && (w.cache.loaded ==>
          w.cache.items == w.stores[|w.stores| - 1].items
          && w.cache.expiresAt == w.stores[|w.stores| - 1].at + ttl)
    && (forall k | 0 <= k < |w.stores| :: StoreOk(w, w.stores[k]))
    && StoresOrdered(w.flights, w.stores)
  }

  /** No fetch stores twice, and refreshes store in the order they started. */
  predicate StoresOrdered<T>(flights: seq<Flight<T>>, stores: seq<Stored<T>>)
    requires forall k | 0 <= k < |stores| :: stores[k].flight < |flights|
  {
    && (forall k, l | 0 <= k < l < |stores| :: stores[k].flight != stores[l].flight)
    && (forall k, l | 0 <= k < l < |stores| && flights[stores[k].flight].kind == Refresh
                      && flights[stores[l].flight].kind == Refresh :: stores[k].flight < stores[l].flight)
  }

  ghost predicate StoreOk<T>(w: World<T>, s: Stored<T>) {
    && s.flight < |w.flights| && w.flights[s.flight].progress.Ended?
    && Fetch(s.source) == Ok(s.items)
  }

  lemma ReadKeepsInv<T>(w: World<T>, now: int, ttl: int)
    requires FlightsOk(w) && StoresOk(w, ttl)
    ensures FlightsOk(ReadStep(w, now)) && StoresOk(ReadStep(w, now), ttl)
  {
    var w' := ReadStep(w, now);
    forall i
      ensures RefreshInFlight(w', i) <==> RefreshInFlight(w, i) || (StartsRefresh(w.cache, now) && i == |w.flights|)
    {}
    forall k | 0 <= k < |w.stores| ensures StoreOk(w', w.stores[k]) {
      assert StoreOk(w, w.stores[k]);
    }
    if StartsRefresh(w.cache, now) {
      assert RefreshInFlight(w', |w.flights|);
    } else if w.cache.refreshing {
      var i :| RefreshInFlight(w, i);
      assert RefreshInFlight(w', i);
    }
  }

  lemma AnswerKeepsInv<T>(w: World<T>, f: nat, source: Source<T>, ttl: int)
    requires FlightsOk(w) && StoresOk(w, ttl)
    ensures var w' := Next(w, Answer(f, source), ttl); FlightsOk(w') && StoresOk(w', ttl)
  {
    var w' := Next(w, Answer(f, source), ttl);
    forall i ensures RefreshInFlight(w', i) <==> RefreshInFlight(w, i) {}
    if w.cache.refreshing {
      var i :| RefreshInFlight(w, i);
      assert RefreshInFlight(w', i);
    }
    forall k | 0 <= k < |w.stores| ensures StoreOk(w', w'.stores[k]) {
      assert StoreOk(w, w.stores[k]);
    }
  }

  lemma CommitKeepsFlights<T>(w: World<T>, f: nat, now: int, ttl: int)
    requires FlightsOk(w) && StoresOk(w, ttl) && f < |w.flights| && w.flights[f].progress.Answered?
    ensures FlightsOk(CommitStep(w, f, now, ttl))
  {
    var w' := CommitStep(w, f, now, ttl);
    forall i ensures RefreshInFlight(w', i) <==> RefreshInFlight(w, i) && i != f {}
    if w.flights[f].kind == Refresh {
      assert RefreshInFlight(w, f);
    } else if w.cache.refreshing {
      var i :| RefreshInFlight(w, i);
      assert RefreshInFlight(w', i);
    }
  }

  // The fetch being committed has not stored before; if it is a refresh, it started last.
  lemma CommitIsNew<T>(w: World<T>, f: nat, ttl: int)
    requires FlightsOk(w) && StoresOk(w, ttl) && f < |w.flights| && w.flights[f].progress.Answered?
    ensures forall k | 0 <= k < |w.stores| :: w.stores[k].flight != f && w.stores[k].flight < |w.flights|
    ensures w.flights[f].kind == Refresh ==> f == |w.flights| - 1
  {
    forall k | 0 <= k < |w.stores| ensures w.stores[k].flight != f && w.stores[k].flight < |w.flights| {
      assert StoreOk(w, w.stores[k]);
    }
    if w.flights[f].kind == Refresh {
      assert RefreshInFlight(w, f);
    }
  }

  lemma StoreKeepsOrder<T>(flights: seq<Flight<T>>, flights': seq<Flight<T>>, stores: seq<Stored<T>>, stored: Stored<T>)
    requires forall k | 0 <= k < |stores| :: stores[k].flight < |flights| && stores[k].flight != stored.flight
    requires StoresOrdered(flights, stores) && stored.flight < |flights|
    requires |flights'| == |flights| && forall k | 0 <= k < |flights| :: flights'[k].kind == flights[k].kind
    requires flights[stored.flight].kind == Refresh ==> stored.flight == |flights| - 1
    ensures StoresOrdered(flights', stores) && StoresOrdered(flights', stores + [stored])
  {
  }

  lemma CommitKeepsProvenance<T>(w: World<T>, f: nat, now: int, ttl: int)
    requires StoresOk(w, ttl) && f < |w.flights| && w.flights[f].progress.Answered?
    ensures var w' := CommitStep(w, f, now, ttl); forall k | 0 <= k < |w'.stores| :: StoreOk(w', w'.stores[k])
  {
    var w' := CommitStep(w, f, now, ttl);
    forall k | 0 <= k < |w'.stores| ensures StoreOk(w', w'.stores[k]) {
      assert k < |w.stores| ==> StoreOk(w, w.stores[k]);
    }
  }

  lemma CommitKeepsOrder<T>(w: World<T>, f: nat, now: int, ttl: int)
    requires FlightsOk(w) && StoresOk(w, ttl) && f < |w.flights| && w.flights[f].progress.Answered?
    ensures var w' := CommitStep(w, f, now, ttl);
            && (forall k | 0 <= k < |w'.stores| :: w'.stores[k].flight < |w'.flights|)
            && StoresOrdered(w'.flights, w'.stores)
  {
    var w' := CommitStep(w, f, now, ttl);
    CommitIsNew(w, f, ttl);
    var stored :=
      if |w'.stores| > |w.stores| then w'.stores[|w.stores|]
      else Stored(f, w.flights[f].progress.source, [], now);
    StoreKeepsOrder(w.flights, w'.flights, w.stores, stored);
  }

  lemma CommitKeepsStores<T>(w: World<T>, f: nat, now: int, ttl: int)
    requires FlightsOk(w) && StoresOk(w, ttl) && f < |w.flights| && w.flights[f].progress.Answered?
    ensures StoresOk(CommitStep(w, f, now, ttl), ttl)
  {
    CommitKeepsProvenance(w, f, now, ttl);
    CommitKeepsOrder(w, f, now, ttl);
  }

  lemma NextKeepsInv<T>(w: World<T>, step: Step<T>, ttl: int)
    requires FlightsOk(w) && StoresOk(w, ttl)
    ensures FlightsOk(Next(w, step, ttl)) && StoresOk(Next(w, step, ttl), ttl)
  {
    match step
    case Read(now) => ReadKeepsInv(w, now, ttl);
    case Answer(f, source) => AnswerKeepsInv(w, f, source, ttl);
    case Commit(f, now) =>
      if f < |w.flights| && w.flights[f].progress.Answered? {
        CommitKeepsFlights(w, f, now, ttl);
        CommitKeepsStores(w, f, now, ttl);
      }
  }

  lemma {:induction false} RunKeepsInv<T>(steps: seq<Step<T>>, ttl: int)
    ensures FlightsOk(Run(steps, ttl)) && StoresOk(Run(steps, ttl), ttl)
  {
    if steps != [] {
      RunKeepsInv(steps[..|steps| - 1], ttl);
      NextKeepsInv(Run(steps[..|steps| - 1], ttl), steps[|steps| - 1], ttl);
    }
  }

  // The parts of the invariant the theorems need.
  lemma RunFlightsOk<T>(steps: seq<Step<T>>, ttl: int)
    ensures FlightsOk(Run(steps, ttl))
  {
    RunKeepsInv(steps, ttl);
  }

  lemma LastStore<T>(steps: seq<Step<T>>, ttl: int)
    ensures var w := Run(steps, ttl);
            && (w.cache.loaded <==> |w.stores| > 0)
            && (w.cache.loaded ==>
                  var last := w.stores[|w.stores| - 1];
                  w.cache.items == last.items && w.cache.expiresAt == last.at + ttl
                  && Fetch(last.source) == Ok(last.items))
  {
    RunKeepsInv(steps, ttl);
    var w := Run(steps, ttl);
    assert w.cache.loaded ==> StoreOk(w, w.stores[|w.stores| - 1]);
  }

  lemma StoresAreFlights<T>(steps: seq<Step<T>>, ttl: int, k: nat)
    requires k < |Run(steps, ttl).stores|
    ensures var w := Run(steps, ttl); w.stores[k].flight < |w.flights|
  {
  }

  /** In every run the refreshing flag is set exactly while a background refresh is in flight, and there are never
      two. */
  lemma RefreshFlagIsExact<T>(steps: seq<Step<T>>, ttl: int)
    ensures var w := Run(steps, ttl);
            && (w.cache.refreshing <==> exists i :: RefreshInFlight(w, i))
            && (forall i, j | RefreshInFlight(w, i) && RefreshInFlight(w, j) :: i == j)
  {
    RunFlightsOk(steps, ttl);
  }

  /** The cached list is always the complete result of a source fetch that succeeded, namely the last one stored,
      and it expires one TTL after it was stored. */
  lemma CacheIsLastCompleteFetch<T(!new)>(steps: seq<Step<T>>, ttl: int)
    ensures var w := Run(steps, ttl);
            && (w.cache.loaded <==> |w.stores| > 0)
            && (w.cache.loaded ==>
                  var last := w.stores[|w.stores| - 1];
                  && w.cache.items == last.items && w.cache.expiresAt == last.at + ttl
                  && exists chain :: Complete(last.source, chain, 1, 0) && |chain| <= 100
                                     && w.cache.items == AllItems(chain))
  {
    LastStore(steps, ttl);
    var w := Run(steps, ttl);
    if w.cache.loaded {
      var last := w.stores[|w.stores| - 1];
      FetchExact(last.source);
      var chain :| Complete(last.source, chain, 1, 0) && |chain| <= 100;
      assert Fetch(last.source) == Ok(AllItems(chain));
    }
  }

  /** A read that finds the cache loaded, starts no refresh and overlaps none returns data stored less than one TTL
      ago. */
  lemma QuietReadIsFresh<T>(steps: seq<Step<T>>, ttl: int, now: int)
    requires var w := Run(steps, ttl);
             w.cache.loaded && !StartsRefresh(w.cache, now) && !exists i :: RefreshInFlight(w, i)
    ensures var w := Run(steps, ttl);
            && |w.stores| > 0
            && w.cache.items == w.stores[|w.stores| - 1].items
            && now - w.stores[|w.stores| - 1].at < ttl
  {
    LastStore(steps, ttl);
    RunFlightsOk(steps, ttl);
  }

  /** In every run a read fetches while nobody has stored a list, starts a refresh exactly when the list is at least one
      TTL old and no refresh is in flight, and otherwise does nothing. */
  lemma ReadStartsFetchIff<T>(steps: seq<Step<T>>, ttl: int, now: int)
    ensures var w := Run(steps, ttl); var w' := Next(w, Read(now), ttl);
            var stale := |w.stores| > 0 && now - w.stores[|w.stores| - 1].at >= ttl
                         && !exists i :: RefreshInFlight(w, i);
            && w'.flights == w.flights + (if |w.stores| == 0 then [Flight(Cold, Running)]
                                          else if stale then [Flight(Refresh, Running)]
                                          else [])
            && w'.cache.(refreshing := false) == w.cache.(refreshing := false) && w'.stores == w.stores
  {
    LastStore(steps, ttl);
    RunFlightsOk(steps, ttl);
  }

  /** One step never unloads the cache, and it changes the value or its expiry only by committing a fetch that
      succeeded; in particular a failed refresh changes neither and only clears the flag. */
  lemma OnlyASuccessfulCommitChangesTheValue<T>(w: World<T>, step: Step<T>, ttl: int)
    ensures var w' := Next(w, step, ttl);
            && (w.cache.loaded ==> w'.cache.loaded)
            && w.stores <= w'.stores
            && (w'.stores == w.stores ==>
                  w'.cache.(refreshing := false) == w.cache.(refreshing := false))
            && (w'.stores != w.stores ==>
                  && step.Commit? && step.flight < |w.flights| && w.flights[step.flight].progress.Answered?
                  && var result := Fetch(w.flights[step.flight].progress.source);
                     result.Ok? && w'.cache.items == result.value && w'.cache.expiresAt == step.now + ttl)
  {
  }

  lemma {:induction false} LoadedNeverReverts<T>(steps: seq<Step<T>>, more: seq<Step<T>>, ttl: int)
    requires Run(steps, ttl).cache.loaded
    ensures Run(steps + more, ttl).cache.loaded && Run(steps, ttl).stores <= Run(steps + more, ttl).stores
  {
    if more == [] {
      assert steps + more == steps;
    } else {
      var init := more[..|more| - 1];
      LoadedNeverReverts(steps, init, ttl);
      assert (steps + more)[..|steps + more| - 1] == steps + init;
      OnlyASuccessfulCommitChangesTheValue(Run(steps + init, ttl), more[|more| - 1], ttl);
    }
  }

  // ---- Is the cached value the newest? ----

  /** The cached value comes from the most recently started of all the fetches ever stored. */
  ghost predicate NewestIsCached<T>(w: World<T>) {
    |w.stores| > 0 && forall k | 0 <= k < |w.stores| - 1 :: w.stores[k].flight < w.stores[|w.stores| - 1].flight
  }

  /** The step ends a fetch that succeeded, so it stores. */
  predicate Stores<T>(w: World<T>, step: Step<T>) {
    && step.Commit? && step.flight < |w.flights| && w.flights[step.flight].progress.Answered?
    && Fetch(w.flights[step.flight].progress.source).Ok?
  }

  /** What decides whether a store leaves the newest list in the cache, known before it is made: the first store does, a
      refresh does, and a cold fetch does if it started after the fetch whose list it replaces. */
  predicate ReplacesOlder<T>(w: World<T>, f: nat)
    requires f < |w.flights|
  {
    w.stores == [] || w.flights[f].kind == Refresh || w.stores[|w.stores| - 1].flight < f
  }

  lemma CommittedRefreshIsNewest<T>(steps: seq<Step<T>>, ttl: int, f: nat, now: int)
    requires Stores(Run(steps, ttl), Commit(f, now)) && Run(steps, ttl).flights[f].kind == Refresh
    ensures NewestIsCached(Next(Run(steps, ttl), Commit(f, now), ttl))
  {
    RunSnoc(steps, Commit(f, now), ttl);
    var w' := Run(steps + [Commit(f, now)], ttl);
    forall k: nat | k < |w'.stores| - 1 ensures w'.stores[k].flight < w'.stores[|w'.stores| - 1].flight {
      RefreshStoreIsNewest(steps + [Commit(f, now)], ttl, k);
    }
  }

  /** While the newest list is cached, a store keeps it so exactly under that condition. */
  lemma StoreKeepsNewestIff<T>(steps: seq<Step<T>>, ttl: int, f: nat, now: int)
    requires Stores(Run(steps, ttl), Commit(f, now))
    requires Run(steps, ttl).stores == [] || NewestIsCached(Run(steps, ttl))
    ensures NewestIsCached(Next(Run(steps, ttl), Commit(f, now), ttl)) <==> ReplacesOlder(Run(steps, ttl), f)
  {
    var w := Run(steps, ttl);
    var w' := Next(w, Commit(f, now), ttl);
    assert w'.stores[..|w.stores|] == w.stores && w'.stores[|w.stores|].flight == f;
    if w.flights[f].kind == Refresh {
      CommittedRefreshIsNewest(steps, ttl, f, now);
    } else if w.stores != [] && w.stores[|w.stores| - 1].flight < f {
      forall k | 0 <= k < |w'.stores| - 1 ensures w'.stores[k].flight < f {
        assert w'.stores[k] == w.stores[k];
      }
    } else if w.stores != [] {
      assert w'.stores[|w.stores| - 1] == w.stores[|w.stores| - 1];
    }
  }

  /** From the first store on, the newest list is in the cache after every step of the run. */
  ghost predicate NewestThroughout<T>(steps: seq<Step<T>>, ttl: int) {
    forall n | 0 <= n <= |steps| :: CachesNewest(steps[..n], ttl)
  }

  ghost predicate CachesNewest<T>(steps: seq<Step<T>>, ttl: int) {
    Run(steps, ttl).stores == [] || NewestIsCached(Run(steps, ttl))
  }

  /** Step n of the run, if it stores, replaces an older list. */
  predicate StepReplacesOlder<T>(steps: seq<Step<T>>, ttl: int, n: nat)
    requires n < |steps|
  {
    var w := Run(steps[..n], ttl);
    Stores(w, steps[n]) ==> ReplacesOlder(w, steps[n].flight)
  }

  lemma StepCachesNewestIff<T>(steps: seq<Step<T>>, ttl: int, n: nat)
    requires n < |steps| && CachesNewest(steps[..n], ttl)
    ensures CachesNewest(steps[..n + 1], ttl) <==> StepReplacesOlder(steps, ttl, n)
  {
    var w := Run(steps[..n], ttl);
    assert steps[..n + 1] == steps[..n] + [steps[n]];
    RunSnoc(steps[..n], steps[n], ttl);
    if Stores(w, steps[n]) {
      StoreKeepsNewestIff(steps[..n], ttl, steps[n].flight, steps[n].now);
    } else {
      OnlyASuccessfulCommitChangesTheValue(w, steps[n], ttl);
    }
  }

  predicate AllReplaceOlder<T>(steps: seq<Step<T>>, ttl: int) {
    forall n | 0 <= n < |steps| :: StepReplacesOlder(steps, ttl, n)
  }

  lemma NewestOfLonger<T>(steps: seq<Step<T>>, ttl: int)
    requires steps != []
    ensures NewestThroughout(steps, ttl) <==> NewestThroughout(steps[..|steps| - 1], ttl) && CachesNewest(steps, ttl)
    ensures NewestThroughout(steps[..|steps| - 1], ttl) ==> CachesNewest(steps[..|steps| - 1], ttl)
  {
    var init := steps[..|steps| - 1];
    forall n | 0 <= n <= |init| ensures steps[..n] == init[..n] {}
    assert init[..|init|] == init && steps[..|steps|] == steps;
  }

  lemma ReplacesOlderOfLonger<T>(steps: seq<Step<T>>, ttl: int)
    requires steps != []
    ensures AllReplaceOlder(steps, ttl) <==>
              AllReplaceOlder(steps[..|steps| - 1], ttl) && StepReplacesOlder(steps, ttl, |steps| - 1)
  {
    var init := steps[..|steps| - 1];
    forall n | 0 <= n < |init| ensures StepReplacesOlder(steps, ttl, n) <==> StepReplacesOlder(init, ttl, n) {
      assert steps[..n] == init[..n];
    }
  }

  /** A slow cold fetch may overwrite newer data. The newest list stays cached throughout a run exactly if every store
      in it replaces an older one, which is known before each is made. */
  lemma {:induction false} NewestThroughoutIff<T>(steps: seq<Step<T>>, ttl: int)
    ensures NewestThroughout(steps, ttl) <==> AllReplaceOlder(steps, ttl)
  {
    if steps == [] {
      assert steps[..0] == [];
    } else {
      NewestThroughoutIff(steps[..|steps| - 1], ttl);
      NewestOfLonger(steps, ttl);
      ReplacesOlderOfLonger(steps, ttl);
      if NewestThroughout(steps[..|steps| - 1], ttl) {
        assert steps[..|steps|] == steps;
        StepCachesNewestIff(steps, ttl, |steps| - 1);
      }
    }
  }

  /** A refresh that is the last to store started after every other fetch that ever stored. */
  lemma RefreshStoreIsNewest<T>(steps: seq<Step<T>>, ttl: int, k: nat)
    requires var w := Run(steps, ttl);
             && k < |w.stores| - 1 && w.stores[|w.stores| - 1].flight < |w.flights|
             && w.flights[w.stores[|w.stores| - 1].flight].kind == Refresh
    ensures var w := Run(steps, ttl); w.stores[k].flight < w.stores[|w.stores| - 1].flight
  {
    RunKeepsInv(steps, ttl);
    StoresAreFlights(steps, ttl, k);
    var w := Run(steps, ttl);
    var last := |w.stores| - 1;
    assert w.stores[k].flight != w.stores[last].flight;
    if w.flights[w.stores[k].flight].kind == Cold {
      assert !(w.stores[last].flight < w.stores[k].flight);
    }
  }

  function Constant<T>(items: seq<T>): Source<T> {
    (k, p) => Ok(Page(items, None))
  }

  lemma ConstantFetch<T>(items: seq<T>)
    ensures Fetch(Constant(items)) == Ok(items)
  {
  }

  lemma RunSnoc<T>(steps: seq<Step<T>>, step: Step<T>, ttl: int)
    ensures Run(steps + [step], ttl) == Next(Run(steps, ttl), step, ttl)
  {
  }

  /** Two readers find the cache cold. The second one's fetch is stored, expires and is refreshed; then the first
      reader's fetch, the oldest of the three, is stored over the refresh. */
  lemma SlowColdFetchOverwritesRefresh(ttl: int) returns (steps: seq<Step<int>>)
    ensures var w := Run(steps, ttl);
            && |w.stores| == 3 && |w.flights| == 3
            && w.cache.items == [0] && w.stores[2].flight == 0
            && w.stores[1].flight == 2 && w.flights[2].kind == Refresh
            && !NewestIsCached(w)
  {
    steps := [];
    var s0, s1, s2, s3 := Read(0), Read(0), Answer(1, Constant([1])), Commit(1, 0);
    var s4, s5, s6 := Read(ttl), Answer(2, Constant([2])), Commit(2, ttl);
    var s7, s8 := Answer(0, Constant([0])), Commit(0, ttl);
    ConstantFetch([0]);
    ConstantFetch([1]);
    ConstantFetch([2]);
    RunSnoc(steps, s0, ttl); steps := steps + [s0];
    RunSnoc(steps, s1, ttl); steps := steps + [s1];
    RunSnoc(steps, s2, ttl); steps := steps + [s2];
    RunSnoc(steps, s3, ttl); steps := steps + [s3];
    RunSnoc(steps, s4, ttl); steps := steps + [s4];
    RunSnoc(steps, s5, ttl); steps := steps + [s5];
    RunSnoc(steps, s6, ttl); steps := steps + [s6];
    assert Run(steps, ttl).stores[1].flight == 2;
    RunSnoc(steps, s7, ttl); steps := steps + [s7];
    RunSnoc(steps, s8, ttl); steps := steps + [s8];
    assert Run(steps, ttl).stores[1].flight == 2;
  }
}
