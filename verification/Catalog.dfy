/** The show catalog's cache and its page-chasing fetch, generic in the listed item (shows and personas). */
module Catalog {
  import opened Basics

  const MAX_CATALOG_PAGES := 100

  datatype Page<+T> = Page(items: seq<T>, nextPage: Option<int>)

  /** The upstream service: its answer to call number k for page p. Answers may differ from call to call. */
  type Source<T> = (nat, int) -> Outcome<Page<T>>

  // ---- Fetching all pages ----

  function FetchFrom<T>(source: Source<T>, page: int, fetched: nat): Outcome<seq<T>>
    decreases MAX_CATALOG_PAGES - fetched
  {
    if page <= 0 then Ok([])
    else if fetched >= MAX_CATALOG_PAGES then Err(AppError.Catalog)
    else match source(fetched, page)
      case Err(e) => Err(e)
      case Ok(p) =>
        if p.nextPage.None? then Ok(p.items)
        else match FetchFrom(source, p.nextPage.value, fetched + 1)
          case Err(e) => Err(e)
          case Ok(rest) => Ok(p.items + rest)
  }

  function Fetch<T>(source: Source<T>): Outcome<seq<T>> {
    FetchFrom(source, 1, 0)
  }

  function Prepend<T>(items: seq<T>, r: Outcome<seq<T>>): Outcome<seq<T>> {
    if r.Ok? then Ok(items + r.value) else r
  }

  method FetchItems<T>(source: Source<T>) returns (r: Outcome<seq<T>>, calls: nat)
    ensures r == Fetch(source)
    ensures calls <= 100
    ensures calls == CallsFrom(source, 1, 0)
  {
    var items: seq<T> := [];
    var page := 1;
    calls := 0;
    assert Fetch(source).Ok? ==> [] + Fetch(source).value == Fetch(source).value;
    while page > 0
      invariant calls <= MAX_CATALOG_PAGES
      invariant Fetch(source) == Prepend(items, FetchFrom(source, page, calls))
      invariant CallsFrom(source, 1, 0) == calls + CallsFrom(source, page, calls)
      decreases MAX_CATALOG_PAGES - calls
    {
      if calls >= MAX_CATALOG_PAGES {
        return Err(AppError.Catalog), calls;
      }
      var answer := source(calls, page);
      calls := calls + 1;
      if answer.Err? {
        return Err(answer.error), calls;
      }
      ghost var before := items;
      items := items + answer.value.items;
      if answer.value.nextPage.None? {
        break;
      }
      page := answer.value.nextPage.value;
      ghost var rest := FetchFrom(source, page, calls);
      assert rest.Ok? ==> before + (answer.value.items + rest.value) == items + rest.value;
    }
    assert items + [] == items;
    r := Ok(items);
  }

  /** The number of calls a fetch makes from a given point. */
  function CallsFrom<T>(source: Source<T>, page: int, fetched: nat): nat
    decreases MAX_CATALOG_PAGES - fetched
  {
    if page <= 0 || fetched >= MAX_CATALOG_PAGES then 0
    else
      var answer := source(fetched, page);
      1 + if answer.Ok? && answer.value.nextPage.Some?
            then CallsFrom(source, answer.value.nextPage.value, fetched + 1) else 0
  }

  // The simple specification: a chain of pages, each the answer to the call it was reached by.

  predicate Continues<T>(p: Page<T>) {
    p.nextPage.Some? && p.nextPage.value > 0
  }

  function PageNumber<T>(chain: seq<Page<T>>, first: int, k: nat): int
    requires k <= |chain| && (k > 0 ==> chain[k - 1].nextPage.Some?)
  {
    if k == 0 then first else chain[k - 1].nextPage.value
  }

  /** The chain starts at the given page and call number, follows every link, and ends where a page has none. */
  ghost predicate Complete<T>(source: Source<T>, chain: seq<Page<T>>, first: int, call: nat) {
    && |chain| > 0
    && (forall k | 0 <= k < |chain| - 1 :: Continues(chain[k]))
    && !Continues(chain[|chain| - 1])
    && (forall k | 0 <= k < |chain| :: source(call + k, PageNumber(chain, first, k)) == Ok(chain[k]))
  }

  function AllItems<T>(chain: seq<Page<T>>): seq<T> {
    if chain == [] then [] else chain[0].items + AllItems(chain[1..])
  }

  lemma CompleteTail<T>(source: Source<T>, chain: seq<Page<T>>, first: int, call: nat)
    requires Complete(source, chain, first, call) && |chain| > 1
    ensures Complete(source, chain[1..], chain[0].nextPage.value, call + 1)
  {
  }

  // The first page of a complete chain, and what a fetch does with it.
  lemma FirstPageOfChain<T>(source: Source<T>, chain: seq<Page<T>>, page: int, fetched: nat)
    requires page > 0 && Complete(source, chain, page, fetched)
    ensures source(fetched, page) == Ok(chain[0])
    ensures Continues(chain[0]) <==> |chain| > 1
  {
  }

  lemma LastPageIsFetched<T>(source: Source<T>, p: Page<T>, page: int, fetched: nat)
    requires page > 0 && fetched < MAX_CATALOG_PAGES && source(fetched, page) == Ok(p) && !Continues(p)
    ensures FetchFrom(source, page, fetched) == Ok(p.items) && CallsFrom(source, page, fetched) == 1
  {
    assert p.items + [] == p.items;
  }

  lemma OneItemChain<T>(chain: seq<Page<T>>)
    requires |chain| == 1
    ensures AllItems(chain) == chain[0].items
  {
  }

  lemma {:induction false} CompleteChainIsFetched<T>(source: Source<T>, chain: seq<Page<T>>, page: int, fetched: nat)
    requires page > 0 && Complete(source, chain, page, fetched) && fetched <= MAX_CATALOG_PAGES
    ensures fetched + |chain| <= MAX_CATALOG_PAGES ==>
              FetchFrom(source, page, fetched) == Ok(AllItems(chain)) && CallsFrom(source, page, fetched) == |chain|
    ensures fetched + |chain| > MAX_CATALOG_PAGES ==> FetchFrom(source, page, fetched) == Err(AppError.Catalog)
    decreases |chain|
  {
    if fetched < MAX_CATALOG_PAGES {
      FirstPageOfChain(source, chain, page, fetched);
      if |chain| > 1 {
        CompleteTail(source, chain, page, fetched);
        CompleteChainIsFetched(source, chain[1..], chain[0].nextPage.value, fetched + 1);
      } else {
        LastPageIsFetched(source, chain[0], page, fetched);
        OneItemChain(chain);
      }
    }
  }

  lemma {:induction false} FetchedHasChain<T>(source: Source<T>, page: int, fetched: nat) returns (chain: seq<Page<T>>)
    requires page > 0 && FetchFrom(source, page, fetched).Ok?
    ensures Complete(source, chain, page, fetched) && fetched + |chain| <= MAX_CATALOG_PAGES
    decreases MAX_CATALOG_PAGES - fetched
  {
    var p := source(fetched, page).value;
    if Continues(p) {
      var rest := FetchedHasChain(source, p.nextPage.value, fetched + 1);
      CompleteCons(source, p, rest, page, fetched);
      chain := [p] + rest;
    } else {
      chain := [p];
    }
  }

  lemma CompleteCons<T>(source: Source<T>, p: Page<T>, rest: seq<Page<T>>, page: int, fetched: nat)
    requires source(fetched, page) == Ok(p) && Continues(p)
    requires Complete(source, rest, p.nextPage.value, fetched + 1)
    ensures Complete(source, [p] + rest, page, fetched)
  {
    var chain := [p] + rest;
    forall k | 0 <= k < |chain| - 1 ensures Continues(chain[k]) {
      assert k > 0 ==> Continues(rest[k - 1]);
    }
    forall k | 0 <= k < |chain| ensures source(fetched + k, PageNumber(chain, page, k)) == Ok(chain[k]) {
      assert k > 0 ==> source(fetched + 1 + (k - 1), PageNumber(rest, p.nextPage.value, k - 1)) == Ok(rest[k - 1]);
    }
  }

  /** The fetch succeeds exactly when every call succeeds and the chain from page 1 ends within 100 pages, and then
      it returns those pages' items in order; at most 100 calls are made. */
  lemma FetchExact<T(!new)>(source: Source<T>)
    ensures Fetch(source).Ok? <==> exists chain :: Complete(source, chain, 1, 0) && |chain| <= 100
    ensures forall chain | Complete(source, chain, 1, 0) && |chain| <= 100 ::
              Fetch(source) == Ok(AllItems(chain)) && CallsFrom(source, 1, 0) == |chain|
    ensures forall chain | Complete(source, chain, 1, 0) && |chain| > 100 ::
              Fetch(source) == Err(AppError.Catalog)
  {
    forall chain | Complete(source, chain, 1, 0)
      ensures |chain| <= MAX_CATALOG_PAGES ==>
                Fetch(source) == Ok(AllItems(chain)) && CallsFrom(source, 1, 0) == |chain|
      ensures |chain| > MAX_CATALOG_PAGES ==> Fetch(source) == Err(AppError.Catalog)
    {
      CompleteChainIsFetched(source, chain, 1, 0);
    }
    if Fetch(source).Ok? {
      var chain := FetchedHasChain(source, 1, 0);
    }
  }

  /** The pages lead from the given page and call to one more call, which fails. */
  ghost predicate BreaksOff<T>(source: Source<T>, chain: seq<Page<T>>, first: int, call: nat, error: AppError) {
    && (forall k | 0 <= k < |chain| :: Continues(chain[k]))
    && (forall k | 0 <= k < |chain| :: source(call + k, PageNumber(chain, first, k)) == Ok(chain[k]))
    && source(call + |chain|, PageNumber(chain, first, |chain|)) == Err(error)
  }

  /** A fetch one of whose calls fails, before 100 pages were read, makes no further call and reports that call's
      error. */
  lemma {:induction false} FailedCallIsReported<T>(source: Source<T>, chain: seq<Page<T>>, page: int, fetched: nat,
                                                error: AppError)
    requires page > 0 && fetched + |chain| < 100 && BreaksOff(source, chain, page, fetched, error)
    ensures FetchFrom(source, page, fetched) == Err(error) && CallsFrom(source, page, fetched) == |chain| + 1
    decreases |chain|
  {
    if chain != [] {
      assert source(fetched + 0, PageNumber(chain, page, 0)) == Ok(chain[0]);
      BreaksOffTail(source, chain, page, fetched, error);
      FailedCallIsReported(source, chain[1..], chain[0].nextPage.value, fetched + 1, error);
    }
  }

  lemma TailContinues<T>(source: Source<T>, chain: seq<Page<T>>, first: int, call: nat, error: AppError, k: nat)
    requires k < |chain| && BreaksOff(source, chain, first, call, error)
    ensures Continues(chain[k])
  {
  }

  lemma TailReads<T>(source: Source<T>, chain: seq<Page<T>>, first: int, call: nat, error: AppError, k: nat)
    requires k + 1 < |chain| && BreaksOff(source, chain, first, call, error)
    ensures Continues(chain[0]) && Continues(chain[k])
    ensures source(call + 1 + k, PageNumber(chain[1..], chain[0].nextPage.value, k)) == Ok(chain[1..][k])
  {
    assert source(call + (k + 1), PageNumber(chain, first, k + 1)) == Ok(chain[k + 1]);
  }

  lemma BreaksOffTail<T>(source: Source<T>, chain: seq<Page<T>>, first: int, call: nat, error: AppError)
    requires chain != [] && BreaksOff(source, chain, first, call, error)
    ensures Continues(chain[0])
    ensures BreaksOff(source, chain[1..], chain[0].nextPage.value, call + 1, error)
  {
    var tail := chain[1..];
    TailContinues(source, chain, first, call, error, 0);
    TailContinues(source, chain, first, call, error, |tail|);
    forall k: nat | k < |tail|
      ensures Continues(tail[k])
      ensures source(call + 1 + k, PageNumber(tail, chain[0].nextPage.value, k)) == Ok(tail[k])
    {
      TailContinues(source, chain, first, call, error, k + 1);
      TailReads(source, chain, first, call, error, k);
    }
    assert PageNumber(tail, chain[0].nextPage.value, |tail|) == PageNumber(chain, first, |chain|);
  }

  /** A source that answers a page the same way every time. */
  function Always<T>(answer: int -> Outcome<Page<T>>): Source<T> {
    (k, p) => answer(p)
  }

  ghost predicate LinkAt<T>(answer: int -> Outcome<Page<T>>, chain: seq<Page<T>>, k: nat)
    requires k < |chain|
  {
    && (k > 0 ==> Continues(chain[k - 1]))
    && (Continues(chain[k]) <==> k + 1 < |chain|)
    && answer(PageNumber(chain, 1, k)) == Ok(chain[k])
  }

  lemma CompleteLinks<T>(answer: int -> Outcome<Page<T>>, chain: seq<Page<T>>, k: nat)
    requires Complete(Always(answer), chain, 1, 0) && k < |chain|
    ensures LinkAt(answer, chain, k)
  {
    assert Always(answer)(0 + k, PageNumber(chain, 1, k)) == Ok(chain[k]);
  }

  lemma {:induction false} LinkedPagesDiffer<T>(answer: int -> Outcome<Page<T>>, chain: seq<Page<T>>, i: nat, j: nat)
    requires forall k: nat | k < |chain| :: LinkAt(answer, chain, k)
    requires i < j < |chain|
    ensures chain[i] != chain[j]
    decreases |chain| - j
  {
    assert LinkAt(answer, chain, i) && LinkAt(answer, chain, j);
    if j + 1 < |chain| {
      assert LinkAt(answer, chain, i + 1) && LinkAt(answer, chain, j + 1);
      assert chain[i] == chain[j] ==> PageNumber(chain, 1, i + 1) == PageNumber(chain, 1, j + 1);
      LinkedPagesDiffer(answer, chain, i + 1, j + 1);
    }
  }

  /** With such a source a successful fetch gets no page twice, so a cycle of pages is always an error. */
  lemma SuccessVisitsNoPageTwice<T>(answer: int -> Outcome<Page<T>>, chain: seq<Page<T>>, i: nat, j: nat)
    requires Complete(Always(answer), chain, 1, 0) && i < j < |chain|
    ensures (i > 0 ==> Continues(chain[i - 1])) && Continues(chain[j - 1])
    ensures PageNumber(chain, 1, i) != PageNumber(chain, 1, j)
  {
    forall k: nat | k < |chain| ensures LinkAt(answer, chain, k) {
      CompleteLinks(answer, chain, k);
    }
    LinkedPagesDiffer(answer, chain, i, j);
    assert LinkAt(answer, chain, i) && LinkAt(answer, chain, j);
  }

  // ---- The cache ----

  datatype Cache<+T> = Cache(items: seq<T>, loaded: bool, expiresAt: int, refreshing: bool)

  /** A read of a loaded cache starts a background refresh when the value has expired and none is running. */
  predicate StartsRefresh<T>(c: Cache<T>, now: int) {
    c.loaded && now >= c.expiresAt && !c.refreshing
  }

  function AfterRead<T>(c: Cache<T>, now: int): Cache<T> {
    if StartsRefresh(c, now) then c.(refreshing := true) else c
  }

  function AfterStore<T>(c: Cache<T>, items: seq<T>, now: int, ttl: int): Cache<T> {
    c.(items := items, loaded := true, expiresAt := now + ttl)
  }

  /** The end of a background refresh: a success is stored, and either way the flag is cleared. */
  function AfterRefresh<T>(c: Cache<T>, fetched: Outcome<seq<T>>, now: int, ttl: int): Cache<T> {
    (if fetched.Ok? then AfterStore(c, fetched.value, now, ttl) else c).(refreshing := false)
  }

  function Contents<T>(a: array?<T>): seq<T>
    reads a
  {
    if a == null then [] else a[..]
  }

  /** The catalog object. Each method is one critical section of its mutex, except ListItems, which is a caller's
      whole request, and the fetch, which runs unlocked. */
  class ItemCatalog<T(0)> {
    const ttl: int
    var items: array?<T>
    var loaded: bool
    var expiresAt: int
    var refreshing: bool

    constructor (ttl: int)
      ensures this.ttl == ttl && State() == Cache([], false, 0, false) && items == null
    {
      this.ttl := ttl;
      items, loaded, expiresAt, refreshing := null, false, 0, false;
    }

    function State(): Cache<T>
      reads this, items
    {
      Cache(Contents(items), loaded, expiresAt, refreshing)
    }

    static method CloneItems(a: array?<T>) returns (b: array?<T>)
      ensures b == null <==> a == null
      ensures b != null ==> fresh(b)
      ensures Contents(b) == Contents(a)
    {
      if a == null {
        return null;
      }
      var clone := new T[a.Length];
      for i := 0 to a.Length
        invariant clone[..i] == a[..i]
      {
        clone[i] := a[i];
      }
      b := clone;
    }

    /** A cached read. What it returns is a copy of its own. */
    method CachedItems(now: int) returns (copy: array?<T>, hit: bool, refresh: bool)
      modifies this`refreshing
      ensures State() == AfterRead(old(State()), now)
      ensures hit == old(loaded) && refresh == StartsRefresh(old(State()), now)
      ensures hit ==> Contents(copy) == State().items
      ensures copy != null ==> fresh(copy)
    {
      if !loaded {
        return null, false, false;
      }
      copy := CloneItems(items);
      refresh := now >= expiresAt && !refreshing;
      if refresh {
        refreshing := true;
      }
      hit := true;
    }

    /** Stores a copy of its argument, so the array given stays the caller's. */
    method StoreItems(fetched: array?<T>, now: int)
      modifies this`items, this`loaded, this`expiresAt
      ensures State() == AfterStore(old(State()), Contents(fetched), now, ttl)
      ensures items != null ==> fresh(items)
    {
      items := CloneItems(fetched);
      loaded := true;
      expiresAt := now + ttl;
    }

    method FinishRefresh(fetched: Outcome<array?<T>>, now: int)
      modifies this
      ensures State() ==
                AfterRefresh(old(State()), if fetched.Ok? then Ok(Contents(fetched.value)) else Err(fetched.error),
                             now, ttl)
      ensures items == old(items) || items == null || fresh(items)
    {
      if fetched.Ok? {
        StoreItems(fetched.value, now);
      }
      refreshing := false;
    }

    /** A caller's request: the cached value if there is one, else a fetch, which is stored and returned. Either way
        the caller's array is new and is not the cache's own. */
    method ListItems(now: int, source: Source<T>, storeNow: int) returns (r: Outcome<array?<T>>, refresh: bool)
      modifies this
      ensures old(loaded) ==>
                r.Ok? && Contents(r.value) == old(State()).items && State() == AfterRead(old(State()), now)
      ensures !old(loaded) && Fetch(source).Ok? ==>
                r.Ok? && Contents(r.value) == Fetch(source).value
                && State() == AfterStore(old(State()), Fetch(source).value, storeNow, ttl)
      ensures !old(loaded) && Fetch(source).Err? ==> r == Err(Fetch(source).error) && State() == old(State())
      ensures r.Ok? && r.value != null ==> fresh(r.value) && r.value != items
      ensures items == old(items) || items == null || fresh(items)
      ensures refresh == StartsRefresh(old(State()), now)
    {
      var copy, hit, start := CachedItems(now);
      refresh := start;
      if hit {
        return Ok(copy), refresh;
      }
      var fetched, calls := FetchItems(source);
      if fetched.Err? {
        return Err(fetched.error), refresh;
      }
      var list := new T[|fetched.value|](i requires 0 <= i < |fetched.value| => fetched.value[i]);
      assert list[..] == fetched.value;
      StoreItems(list, storeNow);
      copy := CloneItems(list);
      r := Ok(copy);
    }
  }

  // ---- Many callers of one catalog ----

  /** A caller's request; the end of a background refresh; or a caller writing into a list it was given earlier. */
  datatype Call<T> =
    | List(now: int, source: Source<T>, storeNow: int)
    | Finish(fetched: Outcome<seq<T>>, finishNow: int)
    | Scribble(list: nat, index: nat, item: T)

  /** The cache, and what stands in the lists handed out so far. */
  datatype Served<T> = Served(cache: Cache<T>, lists: seq<seq<T>>)

  /** A request that is answered hands out one more list, with the cache's items. Writing into a list that was handed
      out changes that list, and is nothing to the cache or any other list. */
  function AfterCall<T>(s: Served<T>, call: Call<T>, ttl: int): Served<T> {
    match call
    case List(now, source, storeNow) =>
      if s.cache.loaded then Served(AfterRead(s.cache, now), s.lists + [s.cache.items])
      else if Fetch(source).Ok? then
        Served(AfterStore(s.cache, Fetch(source).value, storeNow, ttl), s.lists + [Fetch(source).value])
      else s
    case Finish(fetched, now) => s.(cache := AfterRefresh(s.cache, fetched, now, ttl))
    case Scribble(k, i, item) =>
      if k < |s.lists| && i < |s.lists[k]| then s.(lists := s.lists[k := s.lists[k][i := item]]) else s
  }

  function AfterCalls<T>(s: Served<T>, calls: seq<Call<T>>, ttl: int): Served<T> {
    if calls == [] then s else AfterCall(AfterCalls(s, calls[..|calls| - 1], ttl), calls[|calls| - 1], ttl)
  }

  lemma AfterCallsSnoc<T>(s: Served<T>, calls: seq<Call<T>>, n: nat, ttl: int)
    requires n < |calls|
    ensures AfterCalls(s, calls[..n + 1], ttl) == AfterCall(AfterCalls(s, calls[..n], ttl), calls[n], ttl)
  {
    assert calls[..n + 1][..n] == calls[..n];
  }

  method ArrayOf<T(0)>(items: seq<T>) returns (a: array<T>)
    ensures fresh(a) && a[..] == items
  {
    a := new T[|items|](i requires 0 <= i < |items| => items[i]);
  }

  method FinishWith<T(0)>(c: ItemCatalog<T>, fetched: Outcome<seq<T>>, now: int)
    modifies c
    ensures c.State() == AfterRefresh(old(c.State()), fetched, now, c.ttl)
    ensures c.items == old(c.items) || c.items == null || fresh(c.items)
  {
    if fetched.Ok? {
      var list := ArrayOf(fetched.value);
      c.FinishRefresh(Ok(list), now);
    } else {
      c.FinishRefresh(Err(fetched.error), now);
    }
  }

  /** The lists at hand hold what was served. */
  ghost predicate Hold<T>(lists: seq<array?<T>>, served: seq<seq<T>>)
    reads lists
  {
    |lists| == |served| && forall k | 0 <= k < |lists| :: Contents(lists[k]) == served[k]
  }

  /** No two are one list. */
  ghost predicate Apart<T>(lists: seq<array?<T>>) {
    forall i, j | 0 <= i < j < |lists| && lists[i] != null :: lists[i] != lists[j]
  }

  method Write<T>(lists: seq<array?<T>>, k: nat, i: nat, item: T, ghost served: seq<seq<T>>)
    requires Hold(lists, served) && Apart(lists) && k < |lists| && lists[k] != null && i < lists[k].Length
    modifies lists[k]
    ensures Hold(lists, served[k := served[k][i := item]])
  {
    lists[k][i] := item;
  }

  /** No handed-out list is the cache's own. */
  ghost predicate KeptFrom<T>(lists: seq<array?<T>>, own: array?<T>) {
    forall list | list in lists && list != null :: list != own
  }

  /** Serves a request: an answer is one more list. */
  method ServeList<T(0)>(c: ItemCatalog<T>, lists: seq<array?<T>>, now: int, source: Source<T>, storeNow: int,
                         ghost served: Served<T>)
    returns (more: seq<array?<T>>)
    requires c.State() == served.cache && Hold(lists, served.lists) && Apart(lists) && KeptFrom(lists, c.items)
    modifies c
    ensures var after := AfterCall(served, List(now, source, storeNow), c.ttl);
            c.State() == after.cache && Hold(more, after.lists)
    ensures Apart(more) && KeptFrom(more, c.items)
    ensures forall list | list in more && list != null :: list in lists || fresh(list)
    ensures c.items == old(c.items) || c.items == null || fresh(c.items)
  {
    more := lists;
    var r, refresh := c.ListItems(now, source, storeNow);
    assert Hold(lists, served.lists);
    assert r.Ok? <==> served.cache.loaded || Fetch(source).Ok?;
    if r.Ok? {
      more := lists + [r.value];
      assert Hold(more, served.lists + [Contents(r.value)]);
    }
  }

  /** However callers' requests, refreshes and writes into handed-out lists follow each other, every answered request
      gets a list of its own, which holds the cache's items of then and afterwards what was written into it and nothing
      else; and the cache is as if nobody had written. */
  method HandOut<T(0)>(c: ItemCatalog<T>, calls: seq<Call<T>>) returns (lists: seq<array?<T>>)
    modifies c
    ensures forall list | list in lists && list != null :: fresh(list)
    ensures KeptFrom(lists, c.items) && Apart(lists)
    ensures var served := AfterCalls(Served(old(c.State()), []), calls, c.ttl);
            c.State() == served.cache && Hold(lists, served.lists)
  {
    lists := [];
    ghost var start := Served(c.State(), []);
    for n := 0 to |calls|
      invariant forall list | list in lists && list != null :: fresh(list)
      invariant KeptFrom(lists, c.items) && Apart(lists)
      invariant c.items == old(c.items) || c.items == null || fresh(c.items)
      invariant c.State() == AfterCalls(start, calls[..n], c.ttl).cache
      invariant Hold(lists, AfterCalls(start, calls[..n], c.ttl).lists)
    {
      AfterCallsSnoc(start, calls, n, c.ttl);
      ghost var served := AfterCalls(start, calls[..n], c.ttl);
      match calls[n] {
        case List(now, source, storeNow) =>
          lists := ServeList(c, lists, now, source, storeNow, served);
        case Finish(fetched, now) =>
          FinishWith(c, fetched, now);
        case Scribble(k, i, item) =>
          if k < |lists| && lists[k] != null && i < lists[k].Length {
            assert lists[k] in lists;
            Write(lists, k, i, item, served.lists);
          }
      }
    }
    assert calls[..|calls|] == calls;
  }
}
