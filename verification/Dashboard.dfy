/** The dashboard and the detail page: listing requests with their show titles, split at the present. */
module Dashboard {
  import opened Basics
  import opened Domain
  import opened Strconv
  import opened Casbin
  import opened UserTable
  import opened SubRequestStore
  import opened SubRequestService
  import opened Sorting
  import opened Catalog

  const UNKNOWN_SHOW := "Unknown Show"

  // ---- Show titles ----

  function NumericId(show: Show): Option<int> { Atoi(show.id) }

  function AddTitle(titles: map<int, string>, show: Show): map<int, string> {
    if NumericId(show).Some? then titles[NumericId(show).value := show.title] else titles
  }

  function TitlesById(shows: seq<Show>): map<int, string> {
    if shows == [] then map[] else AddTitle(TitlesById(shows[..|shows| - 1]), shows[|shows| - 1])
  }

  method ShowTitlesById(shows: array<Show>) returns (titles: map<int, string>)
    ensures titles == TitlesById(shows[..])
  {
    titles := map[];
    for i := 0 to shows.Length
      invariant titles == TitlesById(shows[..i])
    {
      assert shows[..i + 1][..i] == shows[..i];
      if NumericId(shows[i]).Some? {
        titles := titles[NumericId(shows[i]).value := shows[i].title];
      }
    }
    assert shows[..shows.Length] == shows[..];
  }

  function ShowTitle(titles: map<int, string>, showId: int): string {
    if showId in titles && titles[showId] != "" then titles[showId] else UNKNOWN_SHOW
  }

  /** Shows with the same numeric id have the same title; so in particular when numeric ids are distinct. */
  predicate TitlesAgree(shows: seq<Show>) {
    forall a, b | a in shows && b in shows && NumericId(a).Some? && NumericId(a) == NumericId(b) :: a.title == b.title
  }

  /** The show at position k is the last one with this numeric id. */
  predicate LastWithId(shows: seq<Show>, id: int, k: int) {
    0 <= k < |shows| && NumericId(shows[k]) == Some(id) && forall j | k < j < |shows| :: NumericId(shows[j]) != Some(id)
  }

  /** An id is in the map exactly if some show has it, and then the last such show gives the title. */
  lemma {:induction false} TitleOfLast(shows: seq<Show>, id: int)
    ensures id in TitlesById(shows) <==> exists show :: show in shows && NumericId(show) == Some(id)
    ensures id in TitlesById(shows) <==> exists k :: LastWithId(shows, id, k)
    ensures forall k | LastWithId(shows, id, k) :: id in TitlesById(shows) && TitlesById(shows)[id] == shows[k].title
  {
    if shows != [] {
      var n := |shows| - 1;
      var init, last := shows[..n], shows[n];
      assert shows == init + [last];
      TitleOfLast(init, id);
      if NumericId(last) == Some(id) {
        assert LastWithId(shows, id, n) && last in shows;
      } else {
        forall k ensures LastWithId(shows, id, k) <==> LastWithId(init, id, k) {}
        if k :| LastWithId(init, id, k) {
          assert LastWithId(shows, id, k);
        }
      }
    }
  }

  lemma AgreeingTitlesIgnoreOrder(shows: seq<Show>, other: seq<Show>)
    requires TitlesAgree(shows) && multiset(shows) == multiset(other)
    ensures TitlesById(other) == TitlesById(shows)
  {
    forall x ensures x in shows <==> x in other {
      assert x in multiset(shows) <==> x in multiset(other);
    }
    forall id ensures id in TitlesById(shows) <==> id in TitlesById(other) {
      TitleOfLast(shows, id);
      TitleOfLast(other, id);
    }
    forall id | id in TitlesById(shows) ensures TitlesById(shows)[id] == TitlesById(other)[id] {
      TitleOfLast(shows, id);
      TitleOfLast(other, id);
      var k :| LastWithId(shows, id, k);
      var l :| LastWithId(other, id, l);
      assert shows[k] in shows && other[l] in shows;
    }
  }

  // The show at position i, moved to the end, decides the title of its id.
  function MovedLast(shows: seq<Show>, i: nat): (r: seq<Show>)
    requires i < |shows|
    ensures multiset(r) == multiset(shows)
    ensures NumericId(shows[i]).Some? ==>
              NumericId(shows[i]).value in TitlesById(r) && TitlesById(r)[NumericId(shows[i]).value] == shows[i].title
  {
    assert shows == shows[..i] + ([shows[i]] + shows[i + 1..]);
    var r := shows[..i] + shows[i + 1..] + [shows[i]];
    assert r[..|r| - 1] == shows[..i] + shows[i + 1..];
    r
  }

  ghost predicate OrderIsIrrelevant(shows: seq<Show>) {
    forall other | multiset(other) == multiset(shows) :: TitlesById(other) == TitlesById(shows)
  }

  /** The title map is the same for every order of the shows exactly when shows with equal numeric ids agree on the
      title. */
  lemma TitlesIgnoreOrderIff(shows: seq<Show>)
    ensures OrderIsIrrelevant(shows) <==> TitlesAgree(shows)
  {
    if TitlesAgree(shows) {
      forall other | multiset(other) == multiset(shows) ensures TitlesById(other) == TitlesById(shows) {
        AgreeingTitlesIgnoreOrder(shows, other);
      }
    } else {
      var a, b :| a in shows && b in shows && NumericId(a).Some? && NumericId(a) == NumericId(b) && a.title != b.title;
      var i: nat :| i < |shows| && shows[i] == a;
      var j: nat :| j < |shows| && shows[j] == b;
      assert TitlesById(MovedLast(shows, i)) != TitlesById(MovedLast(shows, j));
    }
  }

  /** Two shows whose ids are texts of one number: whichever is listed last gives its title. */
  lemma TitleDependsOnOrder()
    ensures var a, b := Show("7", "Morning"), Show("07", "Evening");
            TitlesById([a, b]) == map[7 := "Evening"] && TitlesById([b, a]) == map[7 := "Morning"]
  {
    var a, b := Show("7", "Morning"), Show("07", "Evening");
    assert "7"[..0] == "" && "07"[..1] == "0" && "0"[..0] == "";
    assert NumericId(a) == Some(7) && NumericId(b) == Some(7);
    assert [a, b][..1] == [a] && [b, a][..1] == [b] && [a][..0] == [] && [b][..0] == [];
    assert TitlesById([]) == map[];
    assert TitlesById([a]) == map[7 := "Morning"] && TitlesById([b]) == map[7 := "Evening"];
  }

  // ---- Read models ----

  /** A request joined with its poster's and its taker's emails. */
  datatype ReadModel = ReadModel(request: SubRequest, requesterEmail: string, takerEmail: string)

  function TakerEmail(users: seq<User>, sr: SubRequest): string {
    match sr.takenBy
    case None => ""
    case Some(id) => (match FindById(users, id) case None => "" case Some(u) => u.email)
  }

  /** The joined row, if the poster's row exists. */
  function Joined(users: seq<User>, sr: SubRequest): Option<ReadModel> {
    match FindById(users, sr.postedBy)
    case None => None
    case Some(u) => Some(ReadModel(sr, u.email, TakerEmail(users, sr)))
  }

  function DetailById(s: Store, users: seq<User>, id: int): Outcome<ReadModel> {
    if id !in s.rows || Joined(users, s.rows[id]).None? then Err(NotFound) else Ok(Joined(users, s.rows[id]).value)
  }

  predicate Ascending(records: seq<ReadModel>) {
    forall i, j | 0 <= i < j < |records| :: records[i].request.startTime <= records[j].request.startTime
  }

  /** What the listing query may return: every joined row once, ordered by start time, ties in any order. */
  ghost predicate IsListing(s: Store, users: seq<User>, records: seq<ReadModel>) {
    && Ascending(records)
    && (forall i | 0 <= i < |records| ::
          records[i].request.id in s.rows && DetailById(s, users, records[i].request.id) == Ok(records[i]))
    && (forall i, j | 0 <= i < j < |records| :: records[i].request.id != records[j].request.id)
    && (forall id | id in s.rows && DetailById(s, users, id).Ok? ::
          exists i :: 0 <= i < |records| && records[i].request.id == id)
  }

  datatype Item = Item(
    request: SubRequest,
    requesterEmail: string,
    takerEmail: string,
    showTitle: string,
    capabilities: Capabilities,
    isPast: bool)

  function ItemOf(a: Authorizer, viewer: CurrentUser, titles: map<int, string>, now: int, record: ReadModel): Item {
    Item(record.request, record.requesterEmail, record.takerEmail, ShowTitle(titles, record.request.showId),
         CapabilitiesFor(a, viewer, record.request), record.request.startTime < now)
  }

  /** The title the detail page gives a show id: asking the catalog, if there is one, for the shows. */
  function TitleFor(catalog: CatalogAnswer, showId: int): Outcome<string> {
    match catalog
    case NotConfigured => Ok(UNKNOWN_SHOW)
    case Failed => Err(AppError.Catalog)
    case Listed(shows) => Ok(ShowTitle(TitlesById(shows), showId))
  }

  /** The detail page of one request. */
  function Get(s: Store, users: seq<User>, catalog: CatalogAnswer, a: Authorizer, viewer: CurrentUser,
               now: int, id: int)
    : Outcome<Item>
  {
    match DetailById(s, users, id)
    case Err(e) => Err(e)
    case Ok(record) =>
      match TitleFor(catalog, record.request.showId)
      case Err(e) => Err(e)
      case Ok(title) =>
        Ok(Item(record.request, record.requesterEmail, record.takerEmail, title,
                CapabilitiesFor(a, viewer, record.request), record.request.startTime < now))
  }

  /** The last listed show with the id gives the title, unless that title is empty or there is no such show. */
  ghost predicate TitleShown(catalog: CatalogAnswer, showId: int, title: string) {
    if catalog.Listed? && exists k :: LastWithId(catalog.shows, showId, k) && catalog.shows[k].title != ""
    then exists k :: LastWithId(catalog.shows, showId, k) && catalog.shows[k].title == title
    else title == "Unknown Show"
  }

  /** When the detail page is shown, and what it says of a request: its poster's and taker's emails, the title of a show
      with its show id, whether it lies in the past, and exactly the commands that would now succeed. */
  lemma DetailMeaning(s: Store, users: seq<User>, catalog: CatalogAnswer, a: Authorizer, viewer: CurrentUser,
                      now: int, id: int,
                      t0: int, c: CatalogAnswer, t1: int)
    ensures var r := Get(s, users, catalog, a, viewer, now, id);
            var stored := id in s.rows && exists u :: u in users && u.id == s.rows[id].postedBy;
            && (r.Ok? <==> stored && !catalog.Failed?)
            && (r.Err? ==> r.error == if stored then AppError.Catalog else NotFound)
            && (r.Ok? ==>
                  var item, sr := r.value, s.rows[id];
                  && item.request == sr
                  && (exists u :: u in users && u.id == sr.postedBy && u.email == item.requesterEmail)
                  && (if exists u :: u in users && sr.takenBy == Some(u.id)
                      then exists u :: u in users && sr.takenBy == Some(u.id) && u.email == item.takerEmail
                      else item.takerEmail == "")
                  && (item.isPast <==> sr.startTime < now)
                  && TitleShown(catalog, sr.showId, item.showTitle)
                  && (item.capabilities.canTake <==> ExecuteBy(a, s, viewer, Apply(id, ACTION_TAKE), t0, c, t1).1.Ok?)
                  && (a.Seeded() ==>
                        (item.capabilities.canUntake <==>
                           ExecuteBy(a, s, viewer, Apply(id, ACTION_UNTAKE), t0, c, t1).1.Ok?))
                  && (item.capabilities.canDelete <==> ExecuteBy(a, s, viewer, Delete(id), t0, c, t1).1.Ok?))
  {
    if id in s.rows {
      CapabilitiesExact(a, s, viewer, id, t0, c, t1);
      if catalog.Listed? {
        TitleOfLast(catalog.shows, s.rows[id].showId);
      }
      var poster := FindById(users, s.rows[id].postedBy);
    }
  }

  // ---- The dashboard ----

  function Items(a: Authorizer, viewer: CurrentUser, titles: map<int, string>, now: int, records: seq<ReadModel>)
    : (r: seq<Item>)
    ensures |r| == |records| && forall i | 0 <= i < |r| :: r[i] == ItemOf(a, viewer, titles, now, records[i])
  {
    seq(|records|, i requires 0 <= i < |records| => ItemOf(a, viewer, titles, now, records[i]))
  }

  function Reversed(s: seq<Item>): (r: seq<Item>)
    ensures |r| == |s| && forall i | 0 <= i < |s| :: r[i] == s[|s| - 1 - i]
  {
    seq(|s|, i requires 0 <= i < |s| => s[|s| - 1 - i])
  }

  method ReverseInPlace(past: array<Item>)
    modifies past
    ensures past[..] == Reversed(old(past[..]))
  {
    var i, j := 0, past.Length - 1;
    while i < j
      invariant 0 <= i <= past.Length && j == past.Length - 1 - i && i <= j + 1
      invariant forall k | 0 <= k < i || j < k < past.Length :: past[k] == old(past[past.Length - 1 - k])
      invariant forall k | i <= k <= j :: past[k] == old(past[k])
    {
      past[i], past[j] := past[j], past[i];
      i, j := i + 1, j - 1;
    }
  }

  lemma ReversedKeepsItems(s: seq<Item>)
    ensures multiset(Reversed(s)) == multiset(s)
    decreases |s|
  {
    if s != [] {
      var init, last := s[..|s| - 1], s[|s| - 1];
      ReversedKeepsItems(init);
      assert s == init + [last];
      assert Reversed(s) == [last] + Reversed(init);
    }
  }

  predicate StartsAscending(items: seq<Item>) {
    forall i, j | 0 <= i < j < |items| :: items[i].request.startTime <= items[j].request.startTime
  }

  predicate AllUpcoming(items: seq<Item>, now: int) {
    forall i | 0 <= i < |items| :: items[i].request.startTime >= now && !items[i].isPast
  }

  predicate AllPast(items: seq<Item>, now: int) {
    forall i | 0 <= i < |items| :: items[i].request.startTime < now && items[i].isPast
  }

  /** The items on one side of the present, in their order. */
  function Kept(items: seq<Item>, past: bool): seq<Item> {
    if items == [] then []
    else
      var before := Kept(items[..|items| - 1], past);
      var last := items[|items| - 1];
      if last.isPast == past then before + [last] else before
  }

  lemma {:induction false} KeptSplits(items: seq<Item>)
    ensures multiset(Kept(items, false)) + multiset(Kept(items, true)) == multiset(items)
  {
    if items != [] {
      assert items == items[..|items| - 1] + [items[|items| - 1]];
      KeptSplits(items[..|items| - 1]);
    }
  }

  lemma {:induction false} KeptInOrder(items: seq<Item>, past: bool)
    requires StartsAscending(items)
    ensures StartsAscending(Kept(items, past))
    ensures forall k | 0 <= k < |Kept(items, past)| ::
              Kept(items, past)[k] in items && Kept(items, past)[k].isPast == past
  {
    if items != [] {
      var init, last := items[..|items| - 1], items[|items| - 1];
      KeptInOrder(init, past);
      var before := Kept(init, past);
      forall k | 0 <= k < |before| ensures before[k].request.startTime <= last.request.startTime && before[k] in items {
        var i :| 0 <= i < |init| && init[i] == before[k];
        assert items[i] == before[k];
      }
      assert last in items;
    }
  }

  /** The loop over the records. */
  method SplitByTime(records: seq<ReadModel>, a: Authorizer, viewer: CurrentUser, titles: map<int, string>, now: int)
    returns (upcoming: seq<Item>, past: seq<Item>)
    ensures upcoming == Kept(Items(a, viewer, titles, now, records), false)
    ensures past == Kept(Items(a, viewer, titles, now, records), true)
  {
    upcoming, past := [], [];
    ghost var all := Items(a, viewer, titles, now, records);
    for n := 0 to |records|
      invariant upcoming == Kept(all[..n], false) && past == Kept(all[..n], true)
    {
      var item := ItemOf(a, viewer, titles, now, records[n]);
      assert all[..n + 1][..n] == all[..n] && all[..n + 1][n] == item;
      if item.isPast {
        past := past + [item];
      } else {
        upcoming := upcoming + [item];
      }
    }
    assert all[..|records|] == all;
  }

  lemma KeptIsTimed(items: seq<Item>, past: bool, now: int)
    requires StartsAscending(items) && forall x | x in items :: x.isPast == (x.request.startTime < now)
    ensures if past then AllPast(Kept(items, past), now) else AllUpcoming(Kept(items, past), now)
  {
  }

  /** What the two lists are: together every item once; on one side those not starting before now, earliest first, on
      the other the rest, latest first. */
  predicate SplitAtNow(upcoming: seq<Item>, past: seq<Item>, all: seq<Item>, now: int) {
    && multiset(upcoming) + multiset(past) == multiset(all)
    && AllUpcoming(upcoming, now) && AllPast(past, now)
    && StartsAscending(upcoming) && StartsAscending(Reversed(past))
  }

  lemma ReversedTwice(s: seq<Item>)
    ensures Reversed(Reversed(s)) == s
  {
  }

  lemma KeptSplitsAtNow(all: seq<Item>, now: int)
    requires StartsAscending(all) && forall x | x in all :: x.isPast == (x.request.startTime < now)
    ensures SplitAtNow(Kept(all, false), Reversed(Kept(all, true)), all, now)
  {
    KeptSplits(all);
    ReversedKeepsItems(Kept(all, true));
    KeptIsTimed(all, false, now);
    KeptIsTimed(all, true, now);
    KeptInOrder(all, false);
    KeptInOrder(all, true);
    ReversedTwice(Kept(all, true));
  }

  method Partition(records: seq<ReadModel>, a: Authorizer, viewer: CurrentUser, titles: map<int, string>, now: int)
    returns (upcoming: seq<Item>, past: seq<Item>)
    requires Ascending(records)
    ensures SplitAtNow(upcoming, past, Items(a, viewer, titles, now, records), now)
  {
    var early;
    upcoming, early := SplitByTime(records, a, viewer, titles, now);
    var list := new Item[|early|](i requires 0 <= i < |early| => early[i]);
    assert list[..] == early;
    ReverseInPlace(list);
    past := list[..];
    KeptSplitsAtNow(Items(a, viewer, titles, now, records), now);
  }

  datatype DashboardPage = DashboardPage(shows: seq<Show>, upcoming: seq<Item>, past: seq<Item>)

  /** The order the shows are sorted in, for any way of lower-casing. */
  function ByTitle(lower: string -> string): (Show, Show) -> bool {
    (s: Show, t: Show) => LexLess(lower(s.title), lower(t.title))
  }

  lemma TitleOrderIsWeak(lower: string -> string, shows: seq<Show>)
    ensures WeakOrderOn(ByTitle(lower), shows)
  {
    var less := ByTitle(lower);
    forall s, t | s in shows && t in shows && less(s, t) ensures !less(t, s) {
      LexAsymmetric(lower(s.title), lower(t.title));
    }
    forall s, t, u | s in shows && t in shows && u in shows && !less(s, t) && !less(t, u) ensures !less(s, u) {
      LexNegativelyTransitive(lower(s.title), lower(t.title), lower(u.title));
    }
  }

  /** No show's lower-cased title comes before that of a show listed earlier. */
  ghost predicate InTitleOrder(lower: string -> string, shows: seq<Show>) {
    forall i, j | 0 <= i < j < |shows| :: !Precedes(lower(shows[j].title), lower(shows[i].title))
  }

  lemma SortedByTitle(lower: string -> string, shows: seq<Show>)
    ensures SortedBy(ByTitle(lower), shows) <==> InTitleOrder(lower, shows)
  {
    forall i, j | 0 <= i < j < |shows|
      ensures ByTitle(lower)(shows[j], shows[i]) <==> Precedes(lower(shows[j].title), lower(shows[i].title))
    {
      LexLessIsPrecedes(lower(shows[j].title), lower(shows[i].title));
    }
  }

  /** The catalog's shows, sorted in place. They are the caller's own copy, so sorting them leaves the cache as the
      catalog's read left it. */
  method SortedShows(catalog: ItemCatalog<Show>, readNow: int, source: Source<Show>, storeNow: int,
                     lower: string -> string)
    returns (r: Outcome<array<Show>>)
    modifies catalog
    ensures r.Ok? <==> old(catalog.loaded) || Fetch(source).Ok?
    ensures r.Err? ==> r.error == AppError.Catalog
    ensures catalog.State() ==
              if old(catalog.loaded) then AfterRead(old(catalog.State()), readNow)
              else if r.Ok? then AfterStore(old(catalog.State()), Fetch(source).value, storeNow, catalog.ttl)
              else old(catalog.State())
    ensures r.Ok? ==> fresh(r.value) && multiset(r.value[..]) == multiset(catalog.State().items)
    ensures r.Ok? ==> SortedBy(ByTitle(lower), r.value[..]) && InTitleOrder(lower, r.value[..])
  {
    var list, refresh := catalog.ListItems(readNow, source, storeNow);
    if list.Err? {
      return Err(AppError.Catalog);
    }
    var empty := new Show[0];
    var shows: array<Show> := if list.value == null then empty else list.value;
    assert shows[..] == Contents(list.value) == catalog.State().items;
    TitleOrderIsWeak(lower, shows[..]);
    ghost var cached := catalog.State();
    SortSlice(shows, ByTitle(lower));
    SortedByTitle(lower, shows[..]);
    assert catalog.State() == cached;
    r := Ok(shows);
  }

  /** The whole request. `listing` is what the listing query gives. */
  method ListDashboard(catalog: ItemCatalog?<Show>, readNow: int, source: Source<Show>, storeNow: int,
                       listing: Outcome<seq<ReadModel>>, a: Authorizer, viewer: CurrentUser,
                       now: int, lower: string -> string)
    returns (r: Outcome<DashboardPage>)
    requires listing.Ok? ==> Ascending(listing.value)
    modifies catalog
    ensures var listed := catalog != null && (old(catalog.loaded) || Fetch(source).Ok?);
            && (r.Ok? <==> listed && listing.Ok?)
            && (r.Err? ==> r.error == if listed then listing.error else AppError.Catalog)
            && (catalog != null ==>
                  catalog.State() ==
                    if old(catalog.loaded) then AfterRead(old(catalog.State()), readNow)
                    else if listed then AfterStore(old(catalog.State()), Fetch(source).value, storeNow, catalog.ttl)
                    else old(catalog.State()))
    ensures r.Ok? ==>
              && multiset(r.value.shows) == multiset(catalog.State().items)
              && InTitleOrder(lower, r.value.shows)
              && SortedBy(ByTitle(lower), r.value.shows)
              && SplitAtNow(r.value.upcoming, r.value.past,
                            Items(a, viewer, TitlesById(r.value.shows), now, listing.value), now)
  {
    if catalog == null {
      return Err(AppError.Catalog);
    }
    var sorted := SortedShows(catalog, readNow, source, storeNow, lower);
    if sorted.Err? {
      return Err(AppError.Catalog);
    }
    var shows := sorted.value;
    if listing.Err? {
      return Err(listing.error);
    }
    var titles := ShowTitlesById(shows);
    var upcoming, past := Partition(listing.value, a, viewer, titles, now);
    r := Ok(DashboardPage(shows[..], upcoming, past));
  }
}
