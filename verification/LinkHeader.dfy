/** The next page from a Link header (the subset of RFC 8288, section 3, that the client reads). */
module LinkHeader {
  import opened Basics
  import opened Strings
  import opened NextPage

  const NEXT_REL := "rel=\"next\""

  /** The page of one comma-separated part: it must hold rel="next" and a non-empty target between angle brackets. */
  function PartPage(part: string, query: PageQuery): Option<int> {
    TrimmedPartPage(TrimSpace(part), query)
  }

  function TrimmedPartPage(trimmed: string, query: PageQuery): Option<int> {
    if !Contains(trimmed, NEXT_REL) then None
    else
      var start := IndexOf(trimmed, '<');
      var end := IndexOf(trimmed, '>');
      if start < 0 || end <= start + 1 then None
      else ParsePageString(trimmed[start + 1..end], query)
  }

  function FirstPartPage(parts: seq<string>, query: PageQuery): Option<int> {
    if parts == [] then None
    else
      var page := PartPage(parts[0], query);
      if page.Some? then page else FirstPartPage(parts[1..], query)
  }

  function ParseLinkHeader(header: string, query: PageQuery): Option<int> {
    if header == "" then None else FirstPartPage(Split(header, ','), query)
  }

  // ---- Any header at all ----

  /** The text between the first opening and the first closing angle bracket, if there is any. */
  predicate TargetOf(part: string, i: int, j: int) {
    && 0 <= i && i + 1 < j < |part|
    && part[i] == '<' && '<' !in part[..i] && part[j] == '>' && '>' !in part[..j]
  }

  /** A part carries a page exactly if, without the space around it, it holds rel="next" and a non-empty target that
      carries that page; in every other form it carries none. */
  lemma PartPageExact(part: string, query: PageQuery, n: int)
    ensures var text := TrimSpace(part);
            PartPage(part, query) == Some(n) <==>
              && (exists before, after :: AroundOccurrence(text, before, "rel=\"next\"", after))
              && exists i, j :: TargetOf(text, i, j) && ParsePageString(text[i + 1..j], query) == Some(n)
  {
    var text := TrimSpace(part);
    var start, end := IndexOf(text, '<'), IndexOf(text, '>');
    ContainsExact(text, NEXT_REL);
    forall i, j | TargetOf(text, i, j) ensures i == start && j == end {
      FirstIndex(text, '<', i);
      FirstIndex(text, '>', j);
    }
    if start >= 0 && end > start + 1 {
      assert TargetOf(text, start, end);
    }
  }

  /** The header's parts, put back together with commas. */
  function Joined(parts: seq<string>): string {
    if parts == [] then ""
    else if |parts| == 1 then parts[0]
    else parts[0] + "," + Joined(parts[1..])
  }

  /** Part k of the header is the first that carries a page, and carries this one. */
  predicate FirstWithPage(parts: seq<string>, query: PageQuery, k: int, page: int) {
    && 0 <= k < |parts| && PartPage(parts[k], query) == Some(page)
    && forall l | 0 <= l < k :: PartPage(parts[l], query).None?
  }

  lemma {:induction false} FirstPartExact(parts: seq<string>, query: PageQuery)
    ensures FirstPartPage(parts, query).None? <==> forall k | 0 <= k < |parts| :: PartPage(parts[k], query).None?
    ensures FirstPartPage(parts, query).Some? ==>
              exists k :: FirstWithPage(parts, query, k, FirstPartPage(parts, query).value)
  {
    if parts != [] {
      FirstPartExact(parts[1..], query);
      if PartPage(parts[0], query).Some? {
        assert FirstWithPage(parts, query, 0, PartPage(parts[0], query).value);
      } else {
        assert forall k | 0 < k < |parts| :: parts[k] == parts[1..][k - 1];
        if FirstPartPage(parts, query).Some? {
          var k :| FirstWithPage(parts[1..], query, k, FirstPartPage(parts, query).value);
          assert FirstWithPage(parts, query, k + 1, FirstPartPage(parts, query).value);
        }
      }
    }
  }

  lemma {:induction false} SplitIsExact(header: string)
    ensures Split(header, ',') != [] && Joined(Split(header, ',')) == header
    ensures forall k | 0 <= k < |Split(header, ',')| :: ',' !in Split(header, ',')[k]
    decreases |header|
  {
    var i := IndexOf(header, ',');
    if i >= 0 {
      var rest := Split(header[i + 1..], ',');
      SplitIsExact(header[i + 1..]);
      assert ([header[..i]] + rest)[1..] == rest;
      assert header == header[..i] + "," + header[i + 1..];
    }
  }

  /** Any header, cut at its commas: the result is the page of the first part that carries one, and none exactly if no
      part does. */
  lemma HeaderExact(header: string, query: PageQuery) returns (parts: seq<string>)
    ensures Joined(parts) == header && parts != [] && forall k | 0 <= k < |parts| :: ',' !in parts[k]
    ensures ParseLinkHeader(header, query).None? <==> forall k | 0 <= k < |parts| :: PartPage(parts[k], query).None?
    ensures ParseLinkHeader(header, query).Some? ==>
              exists k :: FirstWithPage(parts, query, k, ParseLinkHeader(header, query).value)
  {
    parts := Split(header, ',');
    SplitIsExact(header);
    FirstPartExact(parts, query);
    if header == "" {
      assert parts == [""] && !Contains("", NEXT_REL);
      assert TrimSpace("") == "";
    }
  }

  // ---- Writing links ----

  datatype Link = Link(uri: string, rel: string)

  predicate Plain(c: char) {
    c != ',' && c != '<' && c != '>' && c != '"' && !IsSpace(c)
  }

  /** A link this subset can carry: a plain, non-empty target, and a relation without commas or quotes. */
  predicate Writable(l: Link) {
    && l.uri != "" && (forall i | 0 <= i < |l.uri| :: Plain(l.uri[i]))
    && ',' !in l.rel && '"' !in l.rel
  }

  function PrintLink(l: Link): string {
    "<" + l.uri + ">; rel=\"" + l.rel + "\""
  }

  function PrintLinks(links: seq<Link>): string {
    if links == [] then ""
    else if |links| == 1 then PrintLink(links[0])
    else PrintLink(links[0]) + ", " + PrintLinks(links[1..])
  }

  /** What a list of links means: the page of its first link that is related as "next" and whose target carries one. */
  function NextOf(links: seq<Link>, query: PageQuery): Option<int> {
    if links == [] then None
    else if links[0].rel == "next" && ParsePageString(links[0].uri, query).Some?
      then ParsePageString(links[0].uri, query)
    else NextOf(links[1..], query)
  }

  // ---- The round trip ----

  lemma PrintedParts(l: Link)
    requires Writable(l)
    ensures var p := PrintLink(l);
            && |p| == |l.uri| + |l.rel| + 10
            && p[0] == '<' && p[1..|l.uri| + 1] == l.uri && p[|l.uri| + 1] == '>'
            && p[|l.uri| + 2..|l.uri| + 8] == "; rel=" && p[|l.uri| + 8] == '"'
            && p[|l.uri| + 9..|p| - 1] == l.rel && p[|p| - 1] == '"'
            && ',' !in p
  {
    var p := PrintLink(l);
    assert p == "<" + (l.uri + (">; rel=\"" + l.rel + "\""));
    assert ">; rel=\"" == ">" + "; rel=" + "\"";
    forall c | c in p ensures c != ',' {
      assert c in "<" || c in l.uri || c in ">; rel=\"" || c in l.rel || c in "\"";
    }
  }

  lemma PrintedQuotes(l: Link, i: nat)
    requires Writable(l) && i < |PrintLink(l)| && PrintLink(l)[i] == '"'
    ensures i == |l.uri| + 8 || i == |PrintLink(l)| - 1
  {
  }

  lemma NextRelationOccurs(l: Link)
    requires l.rel == "next"
    ensures Contains(PrintLink(l), NEXT_REL)
  {
    var p, before := PrintLink(l), "<" + l.uri + ">; ";
    assert p == before + NEXT_REL;
    assert OccursAt(p, NEXT_REL, |before|);
  }

  // The relation's two quotes are the only ones in a printed link, so they fix where the text can occur.
  lemma OccurrenceIsRelation(l: Link, i: nat)
    requires Writable(l) && i + 10 <= |PrintLink(l)| && PrintLink(l)[i..i + 10] == NEXT_REL
    ensures l.rel == "next"
  {
    var p := PrintLink(l);
    assert NEXT_REL == ['r', 'e', 'l', '=', '"', 'n', 'e', 'x', 't', '"'];
    assert p[i + 4] == p[i..i + 10][4] && p[i + 9] == p[i..i + 10][9];
    PrintedQuotes(l, i + 4);
    PrintedQuotes(l, i + 9);
    PrintedParts(l);
    assert i == |l.uri| + 4 && i + 10 == |p|;
    forall k | 0 <= k < 4 ensures l.rel[k] == "next"[k] {
      assert l.rel[k] == p[|l.uri| + 9..|p| - 1][k] == p[i..i + 10][5 + k];
    }
  }

  lemma PrintedRelation(l: Link)
    requires Writable(l)
    ensures Contains(PrintLink(l), NEXT_REL) <==> l.rel == "next"
  {
    var p := PrintLink(l);
    if l.rel == "next" {
      NextRelationOccurs(l);
    }
    if Contains(p, NEXT_REL) {
      var i: nat :| i <= |p| - |NEXT_REL| && OccursAt(p, NEXT_REL, i);
      OccurrenceIsRelation(l, i);
    }
  }

  lemma PrintedTrim(l: Link)
    requires Writable(l)
    ensures TrimSpace(PrintLink(l)) == PrintLink(l) && TrimSpace(" " + PrintLink(l)) == PrintLink(l)
  {
  }

  lemma PrintedTarget(l: Link)
    requires Writable(l)
    ensures var p := PrintLink(l);
            IndexOf(p, '<') == 0 && IndexOf(p, '>') == |l.uri| + 1 && p[1..|l.uri| + 1] == l.uri
  {
    var p := PrintLink(l);
    PrintedParts(l);
    assert '>' !in p[..|l.uri| + 1] by {
      assert p[..|l.uri| + 1] == "<" + l.uri;
    }
    FirstIndex(p, '>', |l.uri| + 1);
  }

  lemma PartOfPrintedLink(l: Link, query: PageQuery, pad: string)
    requires Writable(l) && (pad == "" || pad == " ")
    ensures PartPage(pad + PrintLink(l), query) == if l.rel == "next" then ParsePageString(l.uri, query) else None
  {
    var p := PrintLink(l);
    assert TrimSpace(pad + p) == p by {
      PrintedTrim(l);
      assert "" + p == p;
    }
    assert Contains(p, NEXT_REL) <==> l.rel == "next" by {
      PrintedRelation(l);
    }
    TrimmedPrintedLink(l, query);
  }

  lemma TrimmedPrintedLink(l: Link, query: PageQuery)
    requires Writable(l)
    ensures Contains(PrintLink(l), NEXT_REL) ==> TrimmedPartPage(PrintLink(l), query) == ParsePageString(l.uri, query)
  {
    PrintedTarget(l);
    TargetPage(PrintLink(l), l.uri, query);
  }

  lemma TargetPage(p: string, uri: string, query: PageQuery)
    requires IndexOf(p, '<') == 0 && IndexOf(p, '>') == |uri| + 1 && uri != "" && p[1..|uri| + 1] == uri
    ensures Contains(p, NEXT_REL) ==> TrimmedPartPage(p, query) == ParsePageString(uri, query)
  {
  }

  // One printed link, followed by nothing or by a comma and the rest.
  lemma OnePart(part: string, query: PageQuery)
    requires ',' !in part
    ensures FirstPartPage(Split(part, ','), query) == PartPage(part, query)
  {
  }

  lemma PartThenRest(part: string, rest: string, query: PageQuery)
    requires ',' !in part
    ensures FirstPartPage(Split(part + [','] + rest, ','), query) ==
              if PartPage(part, query).Some? then PartPage(part, query) else FirstPartPage(Split(rest, ','), query)
  {
    SplitFirst(part, rest, ',');
    assert ([part] + Split(rest, ','))[1..] == Split(rest, ',');
  }

  lemma PartHasNoComma(l: Link, pad: string)
    requires Writable(l) && (pad == "" || pad == " ")
    ensures ',' !in pad + PrintLink(l)
  {
  }

  lemma PrintedMore(links: seq<Link>, pad: string)
    requires |links| > 1
    ensures pad + PrintLinks(links) == (pad + PrintLink(links[0])) + [','] + (" " + PrintLinks(links[1..]))
  {
    JoinedAtComma(pad, PrintLink(links[0]), PrintLinks(links[1..]));
  }

  lemma JoinedAtComma(pad: string, head: string, rest: string)
    ensures pad + (head + ", " + rest) == (pad + head) + [','] + (" " + rest)
  {
  }

  lemma {:induction false} RoundTripFrom(links: seq<Link>, query: PageQuery, pad: string)
    requires links != [] && (forall i | 0 <= i < |links| :: Writable(links[i])) && (pad == "" || pad == " ")
    ensures FirstPartPage(Split(pad + PrintLinks(links), ','), query) == NextOf(links, query)
  {
    var part := pad + PrintLink(links[0]);
    PartHasNoComma(links[0], pad);
    PartOfPrintedLink(links[0], query, pad);
    if |links| == 1 {
      OnePart(part, query);
      assert NextOf(links[1..], query).None?;
    } else {
      PrintedMore(links, pad);
      PartThenRest(part, " " + PrintLinks(links[1..]), query);
      RoundTripFrom(links[1..], query, " ");
    }
  }

  /** Writing any list of such links and parsing the header gives the page the list means, or none if it means none. */
  lemma LinkHeaderRoundTrip(links: seq<Link>, query: PageQuery)
    requires forall i | 0 <= i < |links| :: Writable(links[i])
    ensures ParseLinkHeader(PrintLinks(links), query) == NextOf(links, query)
  {
    if links != [] {
      RoundTripFrom(links, query, "");
      assert "" + PrintLinks(links) == PrintLinks(links);
      PrintedParts(links[0]);
    }
  }
}
