/**
 * The parts of the synchronous Solr client that do not touch the network:
 * joining the core URL with a request handler, preparing a query dictionary
 * for a cursor search, and the page count, length and local iteration of a
 * result set.
 */
module SyncClient {
  import opened Wrappers

  /** A JSON value as the client sends and receives it. */
  datatype Json =
    | JNull
    | JBool(b: bool)
    | JNumber(n: int)
    | JString(s: string)
    | JArray(items: seq<Json>)
    | JObject(members: map<string, Json>)

  /** The two `SolrError`s a cursor search raises before anything is sent. */
  datatype SolrError =
    | OffsetWithCursor     // "Offset or start is not supported when performing a cursor query."
    | NoCursorSort         // "Could not determine a sort parameter when performing a cursor query."

  // ---------------------------------------------------------------------
  // Joining the core URL and the handler.

  predicate IsSlashes(s: string) {
    forall i :: 0 <= i < |s| ==> s[i] == '/'
  }

  predicate NoTrailingSlash(s: string) {
    s == [] || s[|s| - 1] != '/'
  }

  predicate NoLeadingSlash(s: string) {
    s == [] || s[0] != '/'
  }

  /** `s.rstrip("/")`: `s` less its run of trailing slashes. */
  function TrimTrailingSlashes(s: string): (r: string)
    ensures |r| <= |s| && s[..|r|] == r && IsSlashes(s[|r|..]) && NoTrailingSlash(r)
  {
    if s != [] && s[|s| - 1] == '/' then
      var r := TrimTrailingSlashes(s[..|s| - 1]);
      assert s[..|s| - 1][..|r|] == s[..|r|];
      assert s[|r|..] == s[..|s| - 1][|r|..] + "/";
      r
    else
      s
  }

  /** `s.lstrip("/")`: `s` less its run of leading slashes. */
  function TrimLeadingSlashes(s: string): (r: string)
    ensures |r| <= |s| && s[|s| - |r|..] == r && IsSlashes(s[..|s| - |r|]) && NoLeadingSlash(r)
  {
    if s != [] && s[0] == '/' then
      var r := TrimLeadingSlashes(s[1..]);
      assert s[1..][..|s| - 1 - |r|] == s[1..|s| - |r|];
      r
    else
      s
  }

  /** `SyncSolr._create_url`: the core URL and the handler joined by one slash. */
  function CreateUrl(url: string, handler: string): (r: string)
    ensures var b := |TrimTrailingSlashes(url)|;
      && b < |r| && r[b] == '/'
      && (b == 0 || r[b - 1] != '/')
      && (b + 1 == |r| || r[b + 1] != '/')
  {
    TrimTrailingSlashes(url) + "/" + TrimLeadingSlashes(handler)
  }

  lemma {:induction false} TrimTrailingOf(b: string, x: string)
    requires NoTrailingSlash(b) && IsSlashes(x)
    ensures TrimTrailingSlashes(b + x) == b
    decreases |x|
  {
    if x == [] {
      assert b + x == b;
    } else {
      var y := x[..|x| - 1];
      assert (b + x)[..|b + x| - 1] == b + y;
      TrimTrailingOf(b, y);
    }
  }

  lemma {:induction false} TrimLeadingOf(x: string, h: string)
    requires IsSlashes(x) && NoLeadingSlash(h)
    ensures TrimLeadingSlashes(x + h) == h
    decreases |x|
  {
    if x == [] {
      assert x + h == h;
    } else {
      assert (x + h)[1..] == x[1..] + h;
      TrimLeadingOf(x[1..], h);
    }
  }

  /** Whatever slashes end the URL and start the handler, the result is the
      URL without them, exactly one slash, and the handler without them. */
  lemma CreateUrlOf(b: string, x: string, y: string, h: string)
    requires NoTrailingSlash(b) && IsSlashes(x) && IsSlashes(y) && NoLeadingSlash(h)
    ensures CreateUrl(b + x, y + h) == b + "/" + h
  {
    TrimTrailingOf(b, x);
    TrimLeadingOf(y, h);
  }

  /** A core URL written with or without a final slash gives the same URL. */
  lemma CreateUrlTrailingSlash(url: string, handler: string)
    ensures CreateUrl(url + "/", handler) == CreateUrl(url, handler)
  {
    TrimOneTrailing(url);
  }

  lemma TrimOneTrailing(url: string)
    ensures TrimTrailingSlashes(url + "/") == TrimTrailingSlashes(url)
  {
    assert (url + "/")[..|url|] == url;
  }

  /** A handler written with or without a leading slash gives the same URL. */
  lemma CreateUrlLeadingSlash(url: string, handler: string)
    ensures CreateUrl(url, "/" + handler) == CreateUrl(url, handler)
  {
    TrimOneLeading(handler);
  }

  lemma TrimOneLeading(handler: string)
    ensures TrimLeadingSlashes("/" + handler) == TrimLeadingSlashes(handler)
  {
    assert ("/" + handler)[1..] == handler;
  }

  // ---------------------------------------------------------------------
  // Preparing a cursor search.

  /** Python's `sub in s` on strings, as a scan from the left. */
  function Contains(s: string, sub: string): bool
    decreases |s|
  {
    if |s| < |sub| then false
    else if s[..|sub|] == sub then true
    else Contains(s[1..], sub)
  }

  /** `sub` occurs at position `i` of `s`. */
  predicate OccursAt(s: string, sub: string, i: int) {
    0 <= i && i + |sub| <= |s| && s[i..i + |sub|] == sub
  }

  lemma {:induction false} ContainsIff(s: string, sub: string)
    ensures Contains(s, sub) <==> exists i :: OccursAt(s, sub, i)
    decreases |s|
  {
    if |s| < |sub| {
      assert forall i :: !OccursAt(s, sub, i);
    } else if s[..|sub|] == sub {
      assert OccursAt(s, sub, 0);
    } else {
      ContainsIff(s[1..], sub);
      forall i | OccursAt(s, sub, i) ensures OccursAt(s[1..], sub, i - 1) {
        assert i != 0;
        assert s[1..][i - 1..i - 1 + |sub|] == s[i..i + |sub|];
      }
      forall i | OccursAt(s[1..], sub, i) ensures OccursAt(s, sub, i + 1) {
        assert s[1..][i..i + |sub|] == s[i + 1..i + 1 + |sub|];
      }
    }
  }

  /** A text in which the first character of `sub` does not occur early
      enough does not contain `sub`. */
  lemma {:induction false} ContainsNeedsHead(s: string, sub: string)
    requires sub != []
    requires forall i :: 0 <= i <= |s| - |sub| ==> s[i] != sub[0]
    ensures !Contains(s, sub)
    decreases |s|
  {
    if |s| >= |sub| {
      assert s[..|sub|][0] == s[0];
      forall i | 0 <= i <= |s[1..]| - |sub| ensures s[1..][i] != sub[0] {
        assert s[1..][i] == s[i + 1];
      }
      ContainsNeedsHead(s[1..], sub);
    }
  }

  /** The shape the client relies on: `params`, when present, is an object,
      whose `update` it calls; `sort`, when present, is a string, which it
      searches and extends. */
  predicate WellTyped(query: map<string, Json>) {
    && ("params" in query ==> query["params"].JObject?)
    && ("sort" in query ==> query["sort"].JString?)
  }

  /** `query.get("params", {})` */
  function Params(query: map<string, Json>): map<string, Json> {
    if "params" in query && query["params"].JObject? then query["params"].members else map[]
  }

  /** The query dictionary after the cursor block of `search` has run, and
      the error it raised, if any. */
  datatype Prepared = Prepared(query: map<string, Json>, error: Option<SolrError>)

  /** What the cursor block leaves behind. An offset or start is refused with
      the query untouched; otherwise `params.cursorMark` becomes `"*"` and the
      sort is settled, or refused after the cursor mark was set. */
  function CursorPreparation(query: map<string, Json>): Prepared
    requires WellTyped(query)
  {
    if "offset" in query || "start" in Params(query) then
      Prepared(query, Some(OffsetWithCursor))
    else
      var marked := query["params" := JObject(Params(query)["cursorMark" := JString("*")])];
      if "sort" !in query && "sort" !in Params(query) then
        Prepared(marked["sort" := JString("id asc")], None)
      else if "sort" in query && !Contains(query["sort"].s, " id asc") then
        Prepared(marked["sort" := JString(query["sort"].s + ", id asc")], None)
      else
        Prepared(marked, Some(NoCursorSort))
  }

  /** A query dictionary that `search` rewrites in place. */
  class SearchRequest {
    var members: map<string, Json>

    constructor(members: map<string, Json>)
      ensures this.members == members
    {
      this.members := members;
    }

    /** The cursor block of `SyncSolr.search`. */
    method PrepareCursor() returns (error: Option<SolrError>)
      requires WellTyped(members)
      modifies this
      ensures CursorPreparation(old(members)) == Prepared(members, error)
    {
      if "offset" in members || "start" in Params(members) {
        return Some(OffsetWithCursor);
      }
      if "params" !in members {
        members := members["params" := JObject(map[])];
      }
      assert members["params"].members == Params(old(members));
      members := members["params" := JObject(members["params"].members["cursorMark" := JString("*")])];
      assert members == old(members)["params" := JObject(Params(old(members))["cursorMark" := JString("*")])];
      assert "sort" in members <==> "sort" in old(members);
      if "sort" !in members && "sort" !in Params(members) {
        members := members["sort" := JString("id asc")];
      } else if "sort" in members && !Contains(members["sort"].s, " id asc") {
        members := members["sort" := JString(members["sort"].s + ", id asc")];
      } else {
        return Some(NoCursorSort);
      }
      return None;
    }
  }

  /** An offset at the top level or a start among the parameters is refused,
      and nothing is changed; every other query passes this test. */
  lemma OffsetRefused(query: map<string, Json>)
    requires WellTyped(query)
    ensures var p := CursorPreparation(query);
      ("offset" in query || "start" in Params(query)) <==> p.error == Some(OffsetWithCursor)
    ensures var p := CursorPreparation(query);
      p.error == Some(OffsetWithCursor) ==> p.query == query
  {
  }

  /** Past the offset test, `params` exists and holds the cursor mark `"*"`;
      every other parameter keeps its value, and no other parameter appears. */
  lemma CursorMarkSet(query: map<string, Json>)
    requires WellTyped(query)
    requires "offset" !in query && "start" !in Params(query)
    ensures var p := CursorPreparation(query);
      && "params" in p.query && p.query["params"].JObject?
      && Params(p.query)["cursorMark"] == JString("*")
      && Params(p.query).Keys == Params(query).Keys + {"cursorMark"}
      && forall k :: k in Params(query) && k != "cursorMark" ==> Params(p.query)[k] == Params(query)[k]
  {
  }

  /** At the top level only `params` and `sort` can change. */
  lemma OtherKeysKept(query: map<string, Json>, k: string)
    requires WellTyped(query)
    requires k != "params" && k != "sort"
    ensures var p := CursorPreparation(query);
      (k in p.query <==> k in query) && (k in query ==> p.query[k] == query[k])
  {
  }

  /** The three sort rules. With no sort anywhere, the sort is `id asc`; a
      top-level sort without ` id asc` (leading space) gets `, id asc`
      appended; a sort only among the parameters, or one that already holds
      ` id asc`, is refused. */
  lemma SortRules(query: map<string, Json>)
    requires WellTyped(query)
    requires "offset" !in query && "start" !in Params(query)
    ensures var p := CursorPreparation(query);
      "sort" !in query && "sort" !in Params(query) ==>
        p.error.None? && p.query["sort"] == JString("id asc")
    ensures var p := CursorPreparation(query);
      "sort" in query && !(exists i :: OccursAt(query["sort"].s, " id asc", i)) ==>
        p.error.None? && p.query["sort"] == JString(query["sort"].s + ", id asc")
    ensures var p := CursorPreparation(query);
      ("sort" !in query && "sort" in Params(query))
      || ("sort" in query && exists i :: OccursAt(query["sort"].s, " id asc", i)) ==>
        p.error == Some(NoCursorSort)
        && p.query == query["params" := JObject(Params(query)["cursorMark" := JString("*")])]
  {
    if "sort" in query {
      ContainsIff(query["sort"].s, " id asc");
    }
  }

  /** `id asc` has no space before `id`, so it is extended all the same. */
  lemma IdAscExtended(query: map<string, Json>)
    requires WellTyped(query)
    requires "offset" !in query && "start" !in Params(query)
    requires "sort" in query && query["sort"] == JString("id asc")
    ensures CursorPreparation(query) == Prepared(
      query["params" := JObject(Params(query)["cursorMark" := JString("*")])]["sort" := JString("id asc, id asc")], None)
  {
    assert !Contains("id asc", " id asc");
    assert query["sort"].s + ", id asc" == "id asc, id asc";
  }

  /** A sort on one field with no space in its name, such as `foo_id asc`,
      holds no standalone ` id asc` and is extended with the tie-breaker. */
  lemma SingleFieldSortExtended(query: map<string, Json>, f: string)
    requires WellTyped(query)
    requires "offset" !in query && "start" !in Params(query)
    requires forall i :: 0 <= i < |f| ==> f[i] != ' '
    requires "sort" in query && query["sort"] == JString(f + " asc")
    ensures CursorPreparation(query).error.None?
    ensures CursorPreparation(query).query["sort"] == JString(f + " asc, id asc")
  {
    var sort := f + " asc";
    assert sort + ", id asc" == f + " asc, id asc";
    forall i | 0 <= i <= |sort| - |" id asc"| ensures sort[i] != " id asc"[0] {
      assert sort[i] == f[i];
    }
    ContainsNeedsHead(sort, " id asc");
    SortExtended(query, sort);
  }

  /** A top-level sort without ` id asc` is extended and nothing is refused. */
  lemma SortExtended(query: map<string, Json>, sort: string)
    requires WellTyped(query)
    requires "offset" !in query && "start" !in Params(query)
    requires "sort" in query && query["sort"] == JString(sort) && !Contains(sort, " id asc")
    ensures CursorPreparation(query).error.None?
    ensures CursorPreparation(query).query["sort"] == JString(sort + ", id asc")
  {
  }

  /** Preparing twice is refused the second time, whatever the first did: the
      first run leaves a sort that, but for a bare `id asc`, holds ` id asc`. */
  lemma SecondPreparation(query: map<string, Json>)
    requires WellTyped(query)
    requires CursorPreparation(query).error.None?
    requires CursorPreparation(query).query["sort"] != JString("id asc")
    ensures WellTyped(CursorPreparation(query).query)
    ensures CursorPreparation(CursorPreparation(query).query).error == Some(NoCursorSort)
  {
    var q := CursorPreparation(query).query;
    var s := query["sort"].s;
    assert OccursAt(s + ", id asc", " id asc", |s| + 1) by {
      assert (s + ", id asc")[|s| + 1..|s| + 1 + |" id asc"|] == " id asc";
    }
    ContainsIff(s + ", id asc", " id asc");
  }

  // ---------------------------------------------------------------------
  // Results.

  /** Python's `math.ceil(a / b)` for a positive `b`, in exact arithmetic. */
  function CeilDiv(a: int, b: int): (q: int)
    requires b > 0
    ensures (q - 1) * b < a <= q * b
  {
    var q := (a + b - 1) / b;
    assert a + b - 1 == q * b + (a + b - 1) % b;
    q
  }

  /** `num_pages`: the hits over the length of the first page, rounded up, the
      length taken as 1 when the page is empty. */
  function NumPages(hits: int, docs: nat): (n: int)
    ensures var rows := if docs > 0 then docs else 1;
      (n - 1) * rows < hits <= n * rows
  {
    CeilDiv(hits, if docs > 0 then docs else 1)
  }

  /** The page count is the only number of pages of `rows` results that
      holds `hits` results and has no page to spare. */
  lemma NumPagesUnique(hits: int, docs: nat, n: int)
    requires var rows := if docs > 0 then docs else 1;
      (n - 1) * rows < hits <= n * rows
    ensures NumPages(hits, docs) == n
  {
    var rows := if docs > 0 then docs else 1;
    var m := NumPages(hits, docs);
    MulLess(m - 1, n, rows);
    MulLess(n - 1, m, rows);
  }

  lemma MulLess(a: int, b: int, r: int)
    requires r > 0 && a * r < b * r
    ensures a < b
  {
    assert (b - a) * r > 0;
  }

  /** With no docs the page count is the hit count, zero included. */
  lemma NumPagesNoDocs(hits: int)
    ensures NumPages(hits, 0) == hits
  {
  }

  /** `_is_cursor`: both the URL and the query are present and not empty. */
  predicate IsCursor(url: Option<string>, query: Option<map<string, Json>>) {
    url.Some? && url.value != [] && query.Some? && query.value != map[]
  }

  /** A cursor search hands its results the joined URL and the prepared query,
      so they are in cursor mode. */
  lemma CursorSearchIsCursor(url: string, handler: string, query: map<string, Json>)
    requires WellTyped(query)
    requires CursorPreparation(query).error.None?
    ensures IsCursor(Some(CreateUrl(url, handler)), Some(CursorPreparation(query).query))
  {
    assert "params" in CursorPreparation(query).query;
  }

  /** The docs left to yield from position `from` on. */
  function Remaining(docs: seq<Json>, from: nat): seq<Json> {
    if from < |docs| then docs[from..] else []
  }

  /** `SyncResults` once its fields are set: the docs of the page, the hit
      count, the page count and the iteration positions. */
  class SyncResults {
    var docs: seq<Json>
    var hits: int
    var numPages: int
    var currentPage: int
    var pageIdx: nat
    var idx: nat
    const isCursor: bool

    constructor(docs: seq<Json>, hits: int, url: Option<string>, query: Option<map<string, Json>>)
      ensures this.docs == docs && this.hits == hits
      ensures numPages == NumPages(hits, |docs|) && currentPage == 1
      ensures pageIdx == 0 && idx == 0
      ensures isCursor == IsCursor(url, query)
    {
      this.docs := docs;
      this.hits := hits;
      currentPage := 1;
      numPages := NumPages(hits, |docs|);
      isCursor := IsCursor(url, query);
      pageIdx := 0;
      idx := 0;
    }

    /** `__len__`: the hit count in cursor mode, otherwise the docs in hand. */
    function Length(): (n: int)
      reads this
      ensures !isCursor ==> n == |docs|
      ensures isCursor ==> n == hits
    {
      if isCursor then hits else |docs|
    }

    /** `__iter__` outside cursor mode: yields the docs from `pageIdx` on,
        in order, and leaves `pageIdx` past the last one. */
    method Iterate() returns (yielded: seq<Json>)
      requires !isCursor
      modifies this
      ensures yielded == Remaining(old(docs), old(pageIdx))
      ensures old(pageIdx) == 0 ==> |yielded| == Length()
      ensures pageIdx == if old(pageIdx) < |docs| then |docs| else old(pageIdx)
      ensures docs == old(docs) && hits == old(hits) && numPages == old(numPages)
      ensures currentPage == old(currentPage) && idx == old(idx)
    {
      var start := pageIdx;
      var docsLen := |docs|;
      yielded := [];
      while pageIdx < docsLen
        invariant docs == old(docs) && hits == old(hits) && numPages == old(numPages)
        invariant currentPage == old(currentPage) && idx == old(idx)
        invariant start < docsLen ==> start <= pageIdx <= docsLen && yielded == docs[start..pageIdx]
        invariant start >= docsLen ==> pageIdx == start && yielded == []
        decreases docsLen - pageIdx
      {
        yielded := yielded + [docs[pageIdx]];
        pageIdx := pageIdx + 1;
      }
    }

    /** Iterating the same results twice: the first pass leaves `pageIdx`
        past the last doc, so the second yields nothing. */
    method IterateTwice() returns (first: seq<Json>, second: seq<Json>)
      requires !isCursor
      modifies this
      ensures first == Remaining(old(docs), old(pageIdx))
      ensures second == []
      ensures docs == old(docs) && pageIdx == if old(pageIdx) < |docs| then |docs| else old(pageIdx)
    {
      first := Iterate();
      second := Iterate();
    }
  }
}
