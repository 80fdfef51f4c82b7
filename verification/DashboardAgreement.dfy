/** When the dashboard and the detail page say the same of a request. They take its show's title from one list of shows,
    but in two orders: the catalog's, and sorted by lower-cased title. */
module DashboardAgreement {
  import opened Basics
  import opened Domain
  import opened Strconv
  import opened Casbin
  import opened SubRequestStore
  import opened SubRequestService
  import opened Sorting
  import opened Dashboard

  // ---- Titles in the catalog's order and in sorted order ----

  /** What sorting the shows may give. Shows with equal lower-cased titles may come in any order. */
  ghost predicate SortResult(lower: string -> string, shows: seq<Show>, sorted: seq<Show>) {
    multiset(sorted) == multiset(shows) && InTitleOrder(lower, sorted)
  }

  /** Of the shows with this id, none has a greater lower-cased title. */
  ghost predicate TopTitle(lower: string -> string, shows: seq<Show>, id: int, top: Show) {
    && top in shows && NumericId(top) == Some(id)
    && forall t | t in shows && NumericId(t) == Some(id) :: !Precedes(lower(top.title), lower(t.title))
  }

  function Displayed(title: string): string {
    if title == "" then UNKNOWN_SHOW else title
  }

  /** The last listed show of this id and every show of it with the greatest lower-cased title display alike. */
  ghost predicate TopMatchesLast(lower: string -> string, shows: seq<Show>, id: int) {
    forall top, k | TopTitle(lower, shows, id, top) && LastWithId(shows, id, k) ::
      Displayed(top.title) == Displayed(shows[k].title)
  }

  /** Both lists of shows give this id one title. */
  predicate SameTitle(shows: seq<Show>, other: seq<Show>, id: int) {
    ShowTitle(TitlesById(shows), id) == ShowTitle(TitlesById(other), id)
  }

  lemma TitleOfId(shows: seq<Show>, id: int)
    ensures forall k | LastWithId(shows, id, k) :: ShowTitle(TitlesById(shows), id) == Displayed(shows[k].title)
    ensures (forall k :: !LastWithId(shows, id, k)) ==> ShowTitle(TitlesById(shows), id) == UNKNOWN_SHOW
    ensures (exists show :: show in shows && NumericId(show) == Some(id)) <==> exists k :: LastWithId(shows, id, k)
  {
    TitleOfLast(shows, id);
  }

  // After a sort the last show of an id has the greatest title of that id.
  lemma LastOfSortIsTop(lower: string -> string, shows: seq<Show>, sorted: seq<Show>, id: int, m: int)
    requires SortResult(lower, shows, sorted) && LastWithId(sorted, id, m)
    ensures TopTitle(lower, shows, id, sorted[m])
  {
    MultisetMembers(shows, sorted);
    forall t | t in shows && NumericId(t) == Some(id) ensures !Precedes(lower(sorted[m].title), lower(t.title)) {
      var i :| 0 <= i < |sorted| && sorted[i] == t;
      NotBeforeItself(lower(t.title));
    }
  }

  // Everything Insert leaves behind x is greater than x.
  lemma {:induction false} InsertedBeforeGreater<T>(less: (T, T) -> bool, s: seq<T>, x: T) returns (m: nat)
    ensures var r := Insert(less, s, x);
            m < |r| && r[m] == x && forall j | m < j < |r| :: less(x, r[j])
  {
    if s != [] && less(x, s[|s| - 1]) {
      m := InsertedBeforeGreater(less, s[..|s| - 1], x);
    } else {
      m := |s|;
    }
  }

  lemma PlacedBeforeGreater(lower: string -> string, others: seq<Show>, x: Show) returns (sorted: seq<Show>, m: nat)
    ensures multiset(sorted) == multiset(others) + multiset{x} && SortedBy(ByTitle(lower), sorted)
    ensures m < |sorted| && sorted[m] == x && forall j | m < j < |sorted| :: ByTitle(lower)(x, sorted[j])
  {
    var less := ByTitle(lower);
    TitleOrderIsWeak(lower, others);
    SortSorts(less, others);
    TitleOrderIsWeak(lower, Sort(less, others) + [x]);
    InsertSorts(less, Sort(less, others), x);
    sorted := Insert(less, Sort(less, others), x);
    m := InsertedBeforeGreater(less, Sort(less, others), x);
  }

  lemma WithoutOne(shows: seq<Show>, x: Show) returns (others: seq<Show>)
    requires x in shows
    ensures multiset(shows) == multiset(others) + multiset{x}
  {
    var i: nat :| i < |shows| && shows[i] == x;
    others := shows[..i] + shows[i + 1..];
    assert shows == shows[..i] + ([x] + shows[i + 1..]);
  }

  // And each show with the greatest title of its id can come last of them.
  lemma TopCanBeLast(lower: string -> string, shows: seq<Show>, id: int, top: Show)
    returns (sorted: seq<Show>, m: nat)
    requires TopTitle(lower, shows, id, top)
    ensures SortResult(lower, shows, sorted) && LastWithId(sorted, id, m) && sorted[m] == top
  {
    var others := WithoutOne(shows, top);
    sorted, m := PlacedBeforeGreater(lower, others, top);
    SortedByTitle(lower, sorted);
    MultisetMembers(sorted, shows);
    forall j | m < j < |sorted| ensures NumericId(sorted[j]) != Some(id) {
      assert sorted[j] in shows;
      LexLessIsPrecedes(lower(top.title), lower(sorted[j].title));
    }
  }

  /** Both orders display one title for an id, however the sort breaks ties, exactly if the last listed show of the id
      and those with the greatest lower-cased title display alike. */
  lemma TitleSurvivesSortIff(lower: string -> string, shows: seq<Show>, id: int)
    ensures (forall sorted | SortResult(lower, shows, sorted) :: SameTitle(sorted, shows, id)) <==>
              TopMatchesLast(lower, shows, id)
  {
    TitleOfId(shows, id);
    if TopMatchesLast(lower, shows, id) {
      forall sorted | SortResult(lower, shows, sorted)
        ensures SameTitle(sorted, shows, id)
      {
        SortShowsTitle(lower, shows, sorted, id);
      }
    }
    forall top, k | TopTitle(lower, shows, id, top) && LastWithId(shows, id, k)
      ensures exists sorted :: SortResult(lower, shows, sorted)
                && ShowTitle(TitlesById(sorted), id) == Displayed(top.title)
    {
      var sorted, m := TopCanBeLast(lower, shows, id, top);
      TitleOfId(sorted, id);
    }
  }

  lemma SortShowsTitle(lower: string -> string, shows: seq<Show>, sorted: seq<Show>, id: int)
    requires SortResult(lower, shows, sorted) && TopMatchesLast(lower, shows, id)
    ensures SameTitle(sorted, shows, id)
  {
    TitleOfId(shows, id);
    TitleOfId(sorted, id);
    MultisetMembers(shows, sorted);
    if m :| LastWithId(sorted, id, m) {
      LastOfSortIsTop(lower, shows, sorted, id, m);
    }
  }

  /** Shows with one id and one title, so also distinct ids, are never a problem. */
  lemma AgreeingTitlesMatch(lower: string -> string, shows: seq<Show>, id: int)
    requires TitlesAgree(shows)
    ensures TopMatchesLast(lower, shows, id)
  {
    forall top, k | TopTitle(lower, shows, id, top) && LastWithId(shows, id, k)
      ensures Displayed(top.title) == Displayed(shows[k].title)
    {
      assert shows[k] in shows;
    }
  }

  /** The shows 7 and 07 in an order the sort reverses: the detail page says Evening and the dashboard Morning. */
  lemma SortChangesTitle(lower: string -> string)
    requires Precedes(lower("Evening"), lower("Morning"))
    ensures var shows := [Show("7", "Morning"), Show("07", "Evening")];
            && ShowTitle(TitlesById(shows), 7) == "Evening"
            && forall sorted | SortResult(lower, shows, sorted) :: ShowTitle(TitlesById(sorted), 7) == "Morning"
  {
    var a, b := Show("7", "Morning"), Show("07", "Evening");
    TitleDependsOnOrder();
    forall sorted | SortResult(lower, [a, b], sorted) ensures ShowTitle(TitlesById(sorted), 7) == "Morning" {
      SortOfTwo(lower, a, b, sorted);
    }
  }

  /** With the titles in the sort's order both say Beta, although the titles of the two shows differ. */
  lemma SortKeepsTitle(lower: string -> string)
    requires Precedes(lower("Alpha"), lower("Beta"))
    ensures var shows := [Show("7", "Alpha"), Show("07", "Beta")];
            !TitlesAgree(shows) && TopMatchesLast(lower, shows, 7)
  {
    var a, b := Show("7", "Alpha"), Show("07", "Beta");
    TwoTextsOfSeven();
    TopOfTwo(lower, a, b, 7);
    assert |a.title| != |b.title|;
    TwoTitlesDisagree(a, b);
  }

  lemma TwoTitlesDisagree(a: Show, b: Show)
    requires NumericId(a).Some? && NumericId(a) == NumericId(b) && a.title != b.title
    ensures !TitlesAgree([a, b])
  {
    assert a in [a, b] && b in [a, b];
  }

  lemma TopOfTwo(lower: string -> string, a: Show, b: Show, id: int)
    requires NumericId(a) == NumericId(b) == Some(id) && Precedes(lower(a.title), lower(b.title))
    ensures TopMatchesLast(lower, [a, b], id)
  {
    forall top, k | TopTitle(lower, [a, b], id, top) && LastWithId([a, b], id, k) ensures top == b && k == 1 {
      assert b in [a, b] && [a, b][1] == b;
      assert top == a || top == b;
    }
  }

  lemma TwoTextsOfSeven()
    ensures Atoi("7") == Some(7) && Atoi("07") == Some(7)
  {
    assert "7"[..0] == "" && "07"[..1] == "0" && "0"[..0] == "";
  }

  lemma SortOfTwo(lower: string -> string, a: Show, b: Show, sorted: seq<Show>)
    requires SortResult(lower, [a, b], sorted) && Precedes(lower(b.title), lower(a.title))
    ensures sorted == [b, a]
  {
    LexLessIsPrecedes(lower(b.title), lower(a.title));
    LexLessIsPrecedes(lower(a.title), lower(b.title));
    MultisetMembers(sorted, [a, b]);
    assert sorted == [sorted[0], sorted[1]];
    LexAsymmetric(lower(b.title), lower(a.title));
    assert multiset(sorted)[a] == multiset([a, b])[a];
  }

  // ---- The two pages ----

  /** What the dashboard may be, given the shows, the listing, the viewer and the clock. */
  ghost predicate IsPage(page: DashboardPage, lower: string -> string, shows: seq<Show>, records: seq<ReadModel>,
                   a: Authorizer, viewer: CurrentUser, now: int)
  {
    && SortResult(lower, shows, page.shows)
    && SplitAtNow(page.upcoming, page.past, Items(a, viewer, TitlesById(page.shows), now, records), now)
  }

  predicate OnPage(page: DashboardPage, x: Item) {
    x in page.upcoming || x in page.past
  }

  predicate OnItsSide(page: DashboardPage, x: Item) {
    if x.isPast then x in page.past else x in page.upcoming
  }

  lemma PageHasItems(page: DashboardPage, lower: string -> string, shows: seq<Show>, records: seq<ReadModel>,
                     a: Authorizer, viewer: CurrentUser, now: int)
    requires IsPage(page, lower, shows, records, a, viewer, now)
    ensures forall x :: OnPage(page, x) <==> x in Items(a, viewer, TitlesById(page.shows), now, records)
  {
    var items := Items(a, viewer, TitlesById(page.shows), now, records);
    forall x ensures OnPage(page, x) <==> x in items {
      assert x in items <==> x in multiset(items);
      assert x in page.upcoming <==> x in multiset(page.upcoming);
      assert x in page.past <==> x in multiset(page.past);
    }
  }

  lemma DetailOfRecord(s: Store, users: seq<User>, records: seq<ReadModel>, shows: seq<Show>,
                       a: Authorizer, viewer: CurrentUser, now: int, i: nat)
    requires IsListing(s, users, records) && i < |records|
    ensures Get(s, users, Listed(shows), a, viewer, now, records[i].request.id) ==
              Ok(ItemOf(a, viewer, TitlesById(shows), now, records[i]))
  {
  }

  /** Whatever the titles, the two pages agree on everything else: each dashboard item is the detail page's but for the
      title, and what the detail page can show is on the dashboard, on the side of the present it says. */
  lemma PagesAgreeButForTitles(s: Store, users: seq<User>, records: seq<ReadModel>, shows: seq<Show>,
                               page: DashboardPage, lower: string -> string,
                               a: Authorizer, viewer: CurrentUser, now: int)
    requires IsListing(s, users, records) && IsPage(page, lower, shows, records, a, viewer, now)
    ensures forall x | OnPage(page, x) ::
              var detail := Get(s, users, Listed(shows), a, viewer, now, x.request.id);
              detail.Ok? && detail.value.(showTitle := x.showTitle) == x
    ensures forall id | Get(s, users, Listed(shows), a, viewer, now, id).Ok? ::
              exists x :: OnItsSide(page, x) && x.request.id == id
  {
    PageHasItems(page, lower, shows, records, a, viewer, now);
    var items := Items(a, viewer, TitlesById(page.shows), now, records);
    forall x | OnPage(page, x)
      ensures var detail := Get(s, users, Listed(shows), a, viewer, now, x.request.id);
              detail.Ok? && detail.value.(showTitle := x.showTitle) == x
    {
      var i: nat :| i < |items| && items[i] == x;
      DetailOfRecord(s, users, records, shows, a, viewer, now, i);
    }
    forall id | Get(s, users, Listed(shows), a, viewer, now, id).Ok?
      ensures exists x :: OnItsSide(page, x) && x.request.id == id
    {
      var i: nat :| i < |records| && records[i].request.id == id;
      assert items[i] in items;
      assert OnItsSide(page, items[i]);
    }
  }

  /** The detail page shows exactly this item for its id. */
  predicate Shown(s: Store, users: seq<User>, shows: seq<Show>, a: Authorizer, viewer: CurrentUser, now: int, x: Item) {
    Get(s, users, Listed(shows), a, viewer, now, x.request.id) == Ok(x)
  }

  /** Every item of the page is what the detail page gives for its id, title included. */
  predicate AgreesWithDetail(page: DashboardPage, s: Store, users: seq<User>, shows: seq<Show>,
                             a: Authorizer, viewer: CurrentUser, now: int)
  {
    && (forall x | x in page.upcoming :: Shown(s, users, shows, a, viewer, now, x))
    && (forall x | x in page.past :: Shown(s, users, shows, a, viewer, now, x))
  }

  lemma ItemShownIff(s: Store, users: seq<User>, records: seq<ReadModel>, shows: seq<Show>, sorted: seq<Show>,
                     a: Authorizer, viewer: CurrentUser, now: int, i: nat)
    requires IsListing(s, users, records) && i < |records|
    ensures Shown(s, users, shows, a, viewer, now, Items(a, viewer, TitlesById(sorted), now, records)[i]) <==>
              SameTitle(sorted, shows, records[i].request.showId)
  {
    DetailOfRecord(s, users, records, shows, a, viewer, now, i);
  }

  lemma PageShowsAllIff(s: Store, users: seq<User>, shows: seq<Show>, page: DashboardPage, items: seq<Item>,
                        a: Authorizer, viewer: CurrentUser, now: int)
    requires forall x :: OnPage(page, x) <==> x in items
    ensures AgreesWithDetail(page, s, users, shows, a, viewer, now) <==>
              forall i | 0 <= i < |items| :: Shown(s, users, shows, a, viewer, now, items[i])
  {
    forall i | 0 <= i < |items| ensures OnPage(page, items[i]) {
      assert items[i] in items;
    }
    if forall i | 0 <= i < |items| :: Shown(s, users, shows, a, viewer, now, items[i]) {
      forall x | x in page.upcoming || x in page.past ensures Shown(s, users, shows, a, viewer, now, x) {
        assert OnPage(page, x);
        var i :| 0 <= i < |items| && items[i] == x;
      }
    }
  }

  lemma PageAgreesIff(s: Store, users: seq<User>, records: seq<ReadModel>, shows: seq<Show>,
                      page: DashboardPage, lower: string -> string, a: Authorizer, viewer: CurrentUser, now: int)
    requires IsListing(s, users, records) && IsPage(page, lower, shows, records, a, viewer, now)
    ensures AgreesWithDetail(page, s, users, shows, a, viewer, now) <==>
              forall i | 0 <= i < |records| :: SameTitle(page.shows, shows, records[i].request.showId)
  {
    var items := Items(a, viewer, TitlesById(page.shows), now, records);
    PageHasItems(page, lower, shows, records, a, viewer, now);
    PageShowsAllIff(s, users, shows, page, items, a, viewer, now);
    forall i: nat | i < |records|
      ensures Shown(s, users, shows, a, viewer, now, items[i]) <==>
                SameTitle(page.shows, shows, records[i].request.showId)
    {
      ItemShownIff(s, users, records, shows, page.shows, a, viewer, now, i);
    }
  }

  lemma PageExists(lower: string -> string, shows: seq<Show>, sorted: seq<Show>, records: seq<ReadModel>,
                   a: Authorizer, viewer: CurrentUser, now: int) returns (page: DashboardPage)
    requires SortResult(lower, shows, sorted) && Ascending(records)
    ensures IsPage(page, lower, shows, records, a, viewer, now) && page.shows == sorted
  {
    var items := Items(a, viewer, TitlesById(sorted), now, records);
    KeptSplitsAtNow(items, now);
    page := DashboardPage(sorted, Kept(items, false), Reversed(Kept(items, true)));
  }

  /** Dashboard and detail agree, however the sort breaks ties, exactly if for the show of every listed request the last
      listed show of that id and those with the greatest lower-cased title display alike. */
  lemma DashboardAgreesWithDetailIff(s: Store, users: seq<User>, records: seq<ReadModel>, shows: seq<Show>,
                                     lower: string -> string, a: Authorizer, viewer: CurrentUser, now: int)
    requires IsListing(s, users, records)
    ensures (forall page | IsPage(page, lower, shows, records, a, viewer, now) ::
               AgreesWithDetail(page, s, users, shows, a, viewer, now))
            <==> forall i | 0 <= i < |records| :: TopMatchesLast(lower, shows, records[i].request.showId)
  {
    if forall i | 0 <= i < |records| :: TopMatchesLast(lower, shows, records[i].request.showId) {
      forall page | IsPage(page, lower, shows, records, a, viewer, now)
        ensures AgreesWithDetail(page, s, users, shows, a, viewer, now)
      {
        PageAgreesIff(s, users, records, shows, page, lower, a, viewer, now);
        forall i | 0 <= i < |records|
          ensures SameTitle(page.shows, shows, records[i].request.showId)
        {
          SortShowsTitle(lower, shows, page.shows, records[i].request.showId);
        }
      }
    } else {
      var i :| 0 <= i < |records| && !TopMatchesLast(lower, shows, records[i].request.showId);
      var id := records[i].request.showId;
      TitleSurvivesSortIff(lower, shows, id);
      var sorted :| SortResult(lower, shows, sorted) && !SameTitle(sorted, shows, id);
      var page := PageExists(lower, shows, sorted, records, a, viewer, now);
      PageAgreesIff(s, users, records, shows, page, lower, a, viewer, now);
    }
  }

  /** They disagree on every request for show 7 when the shows 7 and 07 are listed as Morning and Evening. */
  lemma PagesDisagree(s: Store, users: seq<User>, records: seq<ReadModel>, page: DashboardPage,
                      lower: string -> string, a: Authorizer, viewer: CurrentUser, now: int, i: nat)
    requires Precedes(lower("Evening"), lower("Morning"))
    requires IsListing(s, users, records) && i < |records| && records[i].request.showId == 7
    requires IsPage(page, lower, [Show("7", "Morning"), Show("07", "Evening")], records, a, viewer, now)
    ensures var shows := [Show("7", "Morning"), Show("07", "Evening")];
            var detail := Get(s, users, Listed(shows), a, viewer, now, records[i].request.id);
            && detail.Ok? && detail.value.showTitle == "Evening"
            && OnPage(page, detail.value.(showTitle := "Morning"))
            && !AgreesWithDetail(page, s, users, shows, a, viewer, now)
  {
    var shows := [Show("7", "Morning"), Show("07", "Evening")];
    SortChangesTitle(lower);
    PageHasItems(page, lower, shows, records, a, viewer, now);
    DetailOfRecord(s, users, records, shows, a, viewer, now, i);
    var items := Items(a, viewer, TitlesById(page.shows), now, records);
    assert items[i] in items;
    assert !Shown(s, users, shows, a, viewer, now, items[i]);
  }
}
