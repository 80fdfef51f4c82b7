/** Finding the next page of an upstream listing, in its JSON body or its Link header. */
module NextPage {
  import opened Basics
  import opened Strconv
  import opened Strings

  datatype Json =
    | Null
    | Bool(b: bool)
    | Number(n: real)
    | Text(s: string)
    | Object(fields: map<string, Json>)
    | Array(elements: seq<Json>)

  /** The "page" query value of a URI, as url.Parse and Query().Get give it: None when the URI does not parse,
      the empty string when it has no such value. */
  type PageQuery = string -> Option<string>

  function Positive(n: Option<int>): Option<int> {
    if n.Some? && n.value > 0 then n else None
  }

  function ParsePageString(raw: string, query: PageQuery): Option<int> {
    var text := TrimSpace(raw);
    if text == "" then None
    else if Positive(Atoi(text)).Some? then Atoi(text)
    else match query(text)
      case None => None
      case Some(value) => if value == "" then None else Positive(Atoi(value))
  }

  lemma {:induction false} NumberTextIsTrimmed(s: string)
    requires AllDigits(s) && s != ""
    ensures TrimSpace(s) == s
  {
  }

  /** A page number written in decimal is read back, by itself or as the page value of a URI, which is any text holding
      a character that is no digit after its first. */
  lemma PageTextRoundTrip(n: int, uri: string, query: PageQuery)
    requires 0 < n <= MAX_INT
    ensures ParsePageString(Itoa(n), query) == Some(n)
    ensures var text := TrimSpace(uri);
            (exists i :: 1 <= i < |text| && !IsDigit(text[i])) && query(text) == Some(Itoa(n)) ==>
              ParsePageString(uri, query) == Some(n)
  {
    AtoiItoa(n);
    NumberTextIsTrimmed(NatToString(n));
    var text := TrimSpace(uri);
    if i :| 1 <= i < |text| && !IsDigit(text[i]) {
      OtherTextIsNoNumber(text, i);
    }
  }

  /** A text is a positive page number by itself, as an optional plus sign, any zeros and the decimal. */
  ghost predicate ReadsAs(text: string, n: int) {
    0 < n <= MAX_INT && exists sign, zeros :: IsWritten(text, sign, zeros, n)
  }

  /** Exactly when a string carries page n: without the space around it, it is n itself, or it is no positive number,
      does parse as a URI, and the URI's page value is n. */
  lemma PageStringExact(raw: string, query: PageQuery, n: int)
    ensures var text := TrimSpace(raw);
            ParsePageString(raw, query) == Some(n) <==>
              || ReadsAs(text, n)
              || (text != "" && (forall m :: !ReadsAs(text, m)) && query(text).Some? && ReadsAs(query(text).value, n))
  {
    var text := TrimSpace(raw);
    forall m ensures ReadsAs(text, m) <==> Atoi(text) == Some(m) && m > 0 {
      AtoiExact(text, m);
    }
    if query(text).Some? {
      AtoiExact(query(text).value, n);
    }
    assert !ReadsAs("", n);
    assert Atoi("").None?;
  }

  const TWO_TO_63 := 9223372036854775808.0

  /** int(v) > 0 on a 64-bit platform: fractions are cut off, and a number too big for an int comes out negative. */
  function PageOfNumber(n: real): Option<int> {
    if 1.0 <= n < TWO_TO_63 then Some(n.Floor) else None
  }

  /** A number is a page exactly from 1 on, below the limit, and the page is its integer part. */
  lemma NumberIsCutOff(n: real)
    ensures PageOfNumber(n).Some? <==> 1.0 <= n < 9_223_372_036_854_775_808.0
    ensures PageOfNumber(n).Some? ==> PageOfNumber(n).value as real <= n < PageOfNumber(n).value as real + 1.0
  {
  }

  /** The page a leaf carries by itself. */
  function LeafPage(value: Json, query: PageQuery): Option<int> {
    match value
    case Number(n) => PageOfNumber(n)
    case Text(s) => ParsePageString(s, query)
    case _ => None
  }

  /** The recognised keys, in the order they are tried. */
  const KEYS := ["next", "next_page", "page", "href", "url"]

  function Width(value: Json): nat {
    match value
    case Object(_) => |KEYS|
    case Array(elements) => |elements|
    case _ => 0
  }

  /** Branch r of a value: what its r-th recognised key holds, or its r-th element. */
  function Child(value: Json, r: nat): (c: Option<Json>)
    requires r < Width(value)
    ensures c.Some? ==> (value decreases to c.value)
  {
    match value
    case Object(fields) => if KEYS[r] in fields then Some(fields[KEYS[r]]) else None
    case Array(elements) => Some(elements[r])
  }

  function PageFromGeneric(value: Json, query: PageQuery): Option<int>
    decreases value, Width(value) + 1
  {
    if value.Object? || value.Array? then PageFromBranch(value, 0, query) else LeafPage(value, query)
  }

  /** The page found in the branches from r on. */
  function PageFromBranch(value: Json, r: nat, query: PageQuery): Option<int>
    decreases value, Width(value) - r
  {
    if r >= Width(value) then None
    else
      var c := Child(value, r);
      var page := if c.Some? then PageFromGeneric(c.value, query) else None;
      if page.Some? then page else PageFromBranch(value, r + 1, query)
  }

  // A path names a leaf by the branch taken at each level: recognised keys and array positions only.

  function At(value: Json, path: seq<nat>): Option<Json> {
    if path == [] then Some(value)
    else if path[0] >= Width(value) then None
    else match Child(value, path[0])
      case None => None
      case Some(c) => At(c, path[1..])
  }

  /** The page found at the end of a path. */
  function PageAt(value: Json, path: seq<nat>, query: PageQuery): Option<int> {
    match At(value, path)
    case None => None
    case Some(leaf) => LeafPage(leaf, query)
  }

  /** Path p is tried before path q. */
  predicate Before(p: seq<nat>, q: seq<nat>) {
    p != [] && q != [] && (p[0] < q[0] || (p[0] == q[0] && Before(p[1..], q[1..])))
  }

  /** The result is the page of the first path, in the order tried, that ends in an accepted leaf. */
  ghost predicate IsFirstPage(value: Json, query: PageQuery, path: seq<nat>, page: int) {
    && page > 0
    && PageAt(value, path, query) == Some(page)
    && forall other | PageAt(value, other, query).Some? && other != path :: Before(path, other)
  }

  lemma LeafPagePositive(value: Json, query: PageQuery)
    ensures LeafPage(value, query).Some? ==> LeafPage(value, query).value > 0
  {
  }

  lemma PathThroughBranch(value: Json, path: seq<nat>, query: PageQuery)
    requires PageAt(value, path, query).Some?
    ensures value.Object? || value.Array? ==>
              path != [] && path[0] < Width(value) && Child(value, path[0]).Some?
              && PageAt(value, path, query) == PageAt(Child(value, path[0]).value, path[1..], query)
    ensures !(value.Object? || value.Array?) ==> path == []
  {
  }

  /** The search visits every path through recognised keys and array elements, first to last: it finds nothing exactly
      when no path reaches an accepted leaf, and otherwise the first such leaf's page, which is positive. */
  lemma {:induction false} SearchFindsFirst(value: Json, query: PageQuery) returns (path: seq<nat>)
    ensures var found := PageFromGeneric(value, query);
            && (found.None? <==> forall p :: PageAt(value, p, query).None?)
            && (found.Some? ==> IsFirstPage(value, query, path, found.value))
    decreases value, Width(value) + 1
  {
    if value.Object? || value.Array? {
      path := BranchesFindFirst(value, 0, query);
      forall p | PageAt(value, p, query).Some? ensures p != [] && p[0] >= 0 {
        PathThroughBranch(value, p, query);
      }
    } else {
      path := [];
      LeafPagePositive(value, query);
      assert PageAt(value, [], query) == LeafPage(value, query);
      forall p | PageAt(value, p, query).Some? ensures p == [] {
        PathThroughBranch(value, p, query);
      }
    }
  }

  /** The path found is the first of those that start at branch r or later. */
  ghost predicate IsFirstFrom(value: Json, r: nat, query: PageQuery, path: seq<nat>, page: int) {
    && page > 0 && path != [] && path[0] >= r && PageAt(value, path, query) == Some(page)
    && forall p | PageAt(value, p, query).Some? && p != path && p != [] && p[0] >= r :: Before(path, p)
  }

  // A page in branch r itself comes before everything in later branches.
  lemma FirstInThisBranch(value: Json, r: nat, query: PageQuery, inner: seq<nat>, page: int)
    requires (value.Object? || value.Array?) && r < Width(value) && Child(value, r).Some?
    requires IsFirstPage(Child(value, r).value, query, inner, page)
    ensures IsFirstFrom(value, r, query, [r] + inner, page)
  {
  }

  // If branch r leads nowhere, the first from r + 1 on is the first from r on.
  lemma NothingInThisBranch(value: Json, r: nat, query: PageQuery, p: seq<nat>)
    requires (value.Object? || value.Array?) && r < Width(value)
    requires Child(value, r).Some? ==> forall q :: PageAt(Child(value, r).value, q, query).None?
    requires p != [] && p[0] >= r && PageAt(value, p, query).Some?
    ensures p[0] >= r + 1
  {
    PathThroughBranch(value, p, query);
  }

  lemma {:induction false} BranchesFindFirst(value: Json, r: nat, query: PageQuery) returns (path: seq<nat>)
    requires value.Object? || value.Array?
    ensures var found := PageFromBranch(value, r, query);
            && (found.None? ==> forall p | p != [] && p[0] >= r :: PageAt(value, p, query).None?)
            && (found.Some? ==> IsFirstFrom(value, r, query, path, found.value))
    decreases value, Width(value) - r
  {
    path := [];
    if r < Width(value) {
      var c := Child(value, r);
      var inner: seq<nat> := [];
      if c.Some? {
        inner := SearchFindsFirst(c.value, query);
      }
      if c.Some? && PageFromGeneric(c.value, query).Some? {
        path := [r] + inner;
        FirstInThisBranch(value, r, query, inner, PageFromGeneric(c.value, query).value);
      } else {
        path := BranchesFindFirst(value, r + 1, query);
        forall p | p != [] && p[0] >= r && PageAt(value, p, query).Some? ensures p[0] >= r + 1 {
          NothingInThisBranch(value, r, query, p);
        }
      }
    } else {
      forall p | p != [] && p[0] >= r ensures PageAt(value, p, query).None? {}
    }
  }

  function OrElse(a: Option<int>, b: Option<int>): Option<int> {
    if a.Some? then a else b
  }

  function Field(fields: map<string, Json>, key: string): Json {
    if key in fields then fields[key] else Null
  }

  lemma BranchOfObject(fields: map<string, Json>, r: nat, query: PageQuery)
    requires r < |KEYS|
    ensures PageFromBranch(Object(fields), r, query) ==
              OrElse(PageFromGeneric(Field(fields, KEYS[r]), query), PageFromBranch(Object(fields), r + 1, query))
  {
    assert PageFromGeneric(Null, query).None?;
  }

  /** An object's own keys in order: next, next_page, page, href, url. */
  lemma ObjectKeysInOrder(fields: map<string, Json>, query: PageQuery)
    ensures PageFromGeneric(Object(fields), query) ==
              OrElse(PageFromGeneric(Field(fields, "next"), query),
                     OrElse(PageFromGeneric(Field(fields, "next_page"), query),
                            OrElse(PageFromGeneric(Field(fields, "page"), query),
                                   OrElse(PageFromGeneric(Field(fields, "href"), query),
                                          PageFromGeneric(Field(fields, "url"), query)))))
  {
    BranchOfObject(fields, 0, query);
    BranchOfObject(fields, 1, query);
    BranchOfObject(fields, 2, query);
    BranchOfObject(fields, 3, query);
    BranchOfObject(fields, 4, query);
  }

  /** Leaves: a number and a text carry what they say, null and booleans nothing. */
  lemma LeavesDecide(n: real, text: string, b: bool, query: PageQuery)
    ensures PageFromGeneric(Number(n), query) == PageOfNumber(n)
    ensures PageFromGeneric(Text(text), query) == ParsePageString(text, query)
    ensures PageFromGeneric(Bool(b), query).None? && PageFromGeneric(Null, query).None?
  {
  }

  /** Element k is the first of an array in which a page is found. */
  predicate FirstElement(elements: seq<Json>, query: PageQuery, k: int) {
    && 0 <= k < |elements| && PageFromGeneric(elements[k], query).Some?
    && forall j | 0 <= j < k :: PageFromGeneric(elements[j], query).None?
  }

  lemma BranchOfArray(elements: seq<Json>, r: nat, query: PageQuery)
    requires r < |elements|
    ensures PageFromBranch(Array(elements), r, query) ==
              OrElse(PageFromGeneric(elements[r], query), PageFromBranch(Array(elements), r + 1, query))
  {
  }

  lemma {:induction false} BranchesOfArray(elements: seq<Json>, r: nat, query: PageQuery)
    requires r <= |elements| && forall j | 0 <= j < r :: PageFromGeneric(elements[j], query).None?
    ensures var found := PageFromBranch(Array(elements), r, query);
            && (found.None? ==> forall k | 0 <= k < |elements| :: PageFromGeneric(elements[k], query).None?)
            && (found.Some? ==>
                  exists k :: FirstElement(elements, query, k) && found == PageFromGeneric(elements[k], query))
    decreases |elements| - r
  {
    if r < |elements| {
      BranchOfArray(elements, r, query);
      if PageFromGeneric(elements[r], query).Some? {
        assert FirstElement(elements, query, r);
      } else {
        BranchesOfArray(elements, r + 1, query);
      }
    }
  }

  /** An array's page is that of its first element in which one is found, and none exactly if none has one. */
  lemma ArrayElementsInOrder(elements: seq<Json>, query: PageQuery)
    ensures var found := PageFromGeneric(Array(elements), query);
            && (found.None? <==> forall k | 0 <= k < |elements| :: PageFromGeneric(elements[k], query).None?)
            && (found.Some? ==>
                  exists k :: FirstElement(elements, query, k) && found == PageFromGeneric(elements[k], query))
  {
    BranchesOfArray(elements, 0, query);
  }

  // ---- The whole response ----

  /** The first of the given keys whose value leads to a page. */
  function PageUnderKeys(fields: map<string, Json>, keys: seq<string>, query: PageQuery): Option<int> {
    if keys == [] then None
    else
      var page := if keys[0] in fields then PageFromGeneric(fields[keys[0]], query) else None;
      if page.Some? then page else PageUnderKeys(fields, keys[1..], query)
  }

  function PageInMeta(meta: Json, query: PageQuery): Option<int> {
    if meta.Object? then PageUnderKeys(meta.fields, ["next_page", "next"], query) else None
  }

  function FindNextPage(payload: map<string, Json>, linkHeaderPage: Option<int>, query: PageQuery): Option<int> {
    var direct := PageUnderKeys(payload, ["next_page", "next"], query);
    if direct.Some? then direct
    else
      var links := PageUnderKeys(payload, ["_links", "links"], query);
      if links.Some? then links
      else
        var meta := if "meta" in payload then PageInMeta(payload["meta"], query) else None;
        if meta.Some? then meta else linkHeaderPage
  }

  /** The places a next page may stand in a body, in order of priority; absent ones are null. */
  function Candidates(payload: map<string, Json>): seq<Json> {
    var meta := if "meta" in payload && payload["meta"].Object? then payload["meta"].fields else map[];
    [Field(payload, "next_page"), Field(payload, "next"), Field(payload, "_links"), Field(payload, "links"),
     Field(meta, "next_page"), Field(meta, "next")]
  }

  /** A candidate none of whose paths reaches an accepted leaf. */
  ghost predicate Barren(value: Json, query: PageQuery) {
    forall p :: PageAt(value, p, query).None?
  }

  lemma BarrenIffNotFound(value: Json, query: PageQuery)
    ensures Barren(value, query) <==> PageFromGeneric(value, query).None?
  {
    var path := SearchFindsFirst(value, query);
  }

  lemma TwoKeys(fields: map<string, Json>, a: string, b: string, query: PageQuery)
    ensures PageUnderKeys(fields, [a, b], query) ==
              if PageFromGeneric(Field(fields, a), query).Some? then PageFromGeneric(Field(fields, a), query)
              else PageFromGeneric(Field(fields, b), query)
  {
    assert [a, b][1..] == [b];
    assert [b][1..] == [];
    assert PageFromGeneric(Null, query).None?;
    assert PageUnderKeys(fields, [b], query) == PageFromGeneric(Field(fields, b), query);
  }

  lemma MetaFields(payload: map<string, Json>, query: PageQuery)
    ensures var meta := if "meta" in payload && payload["meta"].Object? then payload["meta"].fields else map[];
            (if "meta" in payload then PageInMeta(payload["meta"], query) else None)
              == PageUnderKeys(meta, ["next_page", "next"], query)
  {
    TwoKeys(map[], "next_page", "next", query);
    assert PageFromGeneric(Null, query).None?;
  }

  lemma FoundInOrder(payload: map<string, Json>, header: Option<int>, query: PageQuery)
    ensures var candidates := Candidates(payload);
            FindNextPage(payload, header, query) ==
              OrElse(OrElse(PageFromGeneric(candidates[0], query), PageFromGeneric(candidates[1], query)),
                     OrElse(OrElse(PageFromGeneric(candidates[2], query), PageFromGeneric(candidates[3], query)),
                            OrElse(OrElse(PageFromGeneric(candidates[4], query), PageFromGeneric(candidates[5], query)),
                                   header)))
  {
    var meta := if "meta" in payload && payload["meta"].Object? then payload["meta"].fields else map[];
    TwoKeys(payload, "next_page", "next", query);
    TwoKeys(payload, "_links", "links", query);
    TwoKeys(meta, "next_page", "next", query);
    MetaFields(payload, query);
  }

  /** The next page is the first accepted leaf of the first candidate that has one; the Link header decides only when
      every candidate is barren. */
  lemma NextPageIsFirstCandidate(payload: map<string, Json>, header: Option<int>, query: PageQuery)
    ensures var found := FindNextPage(payload, header, query);
            var candidates := Candidates(payload);
            || ((forall i | 0 <= i < |candidates| :: Barren(candidates[i], query)) && found == header)
            || (exists i, path ::
                  && 0 <= i < |candidates| && (forall j | 0 <= j < i :: Barren(candidates[j], query))
                  && found.Some? && IsFirstPage(candidates[i], query, path, found.value))
  {
    var found := FindNextPage(payload, header, query);
    var candidates := Candidates(payload);
    FoundInOrder(payload, header, query);
    var i := FirstHit(candidates, query);
    forall j | 0 <= j < i ensures Barren(candidates[j], query) {
      BarrenIffNotFound(candidates[j], query);
    }
    if i < 6 {
      assert found == PageFromGeneric(candidates[i], query);
      var path := SearchFindsFirst(candidates[i], query);
      assert IsFirstPage(candidates[i], query, path, found.value);
    }
  }

  /** The first candidate the search finds a page in. */
  function FirstHit(candidates: seq<Json>, query: PageQuery): (i: nat)
    ensures i <= |candidates|
    ensures i < |candidates| ==> PageFromGeneric(candidates[i], query).Some?
    ensures forall j | 0 <= j < i :: PageFromGeneric(candidates[j], query).None?
  {
    if candidates == [] || PageFromGeneric(candidates[0], query).Some? then 0
    else 1 + FirstHit(candidates[1..], query)
  }
}
