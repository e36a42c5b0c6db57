/** `QueryBuilder` and `RedisQueryExtensions`: a predicate is compiled by the `Query`
    snapshot of the visitor, lowered by the `Query` snapshot of the converter, and the
    resulting query runs through `Execute` or `SelectAsync`.

    The converter's regular-expression pass is a parameter `cut`, which must cut the
    rewritten text at the condition pattern's matches (`Tokenises`). */
module Pipeline {
  import opened Wrappers
  import opened Text
  import opened RedisQueries
  import opened Expressions
  import Visitor
  import QueryConverter
  import Documents
  import Search

  /** `ps` cuts `text` at the matches of the condition pattern. */
  predicate Tokenises(ps: seq<QueryConverter.Piece>, text: string, isWord: char -> bool, isSpace: char -> bool) {
    QueryConverter.Source(ps) == text
    && forall i :: 0 <= i < |ps| ==> QueryConverter.Matches(ps[i], isWord, isSpace)
  }

  /** `BuildQuery(expression)`: a fresh visitor's text for the expression. */
  function BuildQuery(body: Expr, show: Expr -> string): (r: Result<string>)
    ensures r.Ok? <==> Visitor.Supported(Visitor.QuerySnapshot, body, show)
  {
    Visitor.CompileSucceedsIffSupported(Visitor.QuerySnapshot, body, show);
    Visitor.Compile(Visitor.QuerySnapshot, body, show)
  }

  /** The converter's pass is a faithful tokeniser of whatever the visitor produced. */
  predicate CutsCompiled(body: Expr, show: Expr -> string, cut: string -> seq<QueryConverter.Piece>,
                         isWord: char -> bool, isSpace: char -> bool) {
    var compiled := Visitor.Compile(Visitor.QuerySnapshot, body, show);
    compiled.Ok? ==>
      var text := QueryConverter.RewriteLogical(compiled.value, isWord);
      Tokenises(cut(text), text, isWord, isSpace)
  }

  /** `QueryBuilder.Query<T>()`: the whole index of `T`, with empty query texts. */
  function QueryFor(t: Documents.DocType): (r: Result<RedisQuery>)
    ensures r.Ok? <==> Documents.CreateEmpty(Some(t)).Ok?
    ensures r.Err? ==> r.error == Documents.CreateEmpty(Some(t)).error
    ensures r.Ok? ==> r.value == RedisQuery(t.indexName, "", "")
  {
    var doc :- Documents.Create(t, Some(""));
    Ok(RedisQuery(doc.indexName, "", ""))
  }

  /** `QueryBuilder.Query<T>(expression)`: the body is compiled before any instance is
      made, so a visitor error wins over a factory error; the query text is the
      conversion of the compiled text and the LINQ text is the lambda's own rendering. */
  function QueryOf(t: Documents.DocType, body: Expr, show: Expr -> string,
                   cut: string -> seq<QueryConverter.Piece>, isWord: char -> bool, isSpace: char -> bool): (r: Result<RedisQuery>)
    requires CutsCompiled(body, show, cut, isWord, isSpace)
    ensures r.Ok? <==> Visitor.Supported(Visitor.QuerySnapshot, body, show) && Documents.CreateEmpty(Some(t)).Ok?
    ensures BuildQuery(body, show).Err? ==> r == Err(BuildQuery(body, show).error)
    ensures BuildQuery(body, show).Ok? && Documents.CreateEmpty(Some(t)).Err? ==>
      r == Err(Documents.CreateEmpty(Some(t)).error)
    ensures r.Ok? ==>
      (r.value.indexName == t.indexName && r.value.linqQuery == show(Lambda(body))
       && |r.value.query| >= 2 && r.value.query[0] == '\'' && r.value.query[|r.value.query| - 1] == '\'')
    ensures r.Ok? ==>
      var compiled := BuildQuery(body, show).value;
      r.value.query == QueryConverter.Convert(compiled, cut(QueryConverter.RewriteLogical(compiled, isWord)), isWord, isSpace)
  {
    var compiled :- BuildQuery(body, show);
    var doc :- Documents.Create(t, Some(""));
    var ps := cut(QueryConverter.RewriteLogical(compiled, isWord));
    Ok(RedisQuery(doc.indexName, QueryConverter.Convert(compiled, ps, isWord, isSpace), show(Lambda(body))))
  }

  /** A predicate whose compiled text has no conditions and no logical words is sent as
      that text in single quotes, less one parenthesis of a leading `((`. */
  lemma QueryOfPlain(t: Documents.DocType, body: Expr, show: Expr -> string,
                     cut: string -> seq<QueryConverter.Piece>, isWord: char -> bool, isSpace: char -> bool)
    requires CutsCompiled(body, show, cut, isWord, isSpace)
    requires BuildQuery(body, show).Ok? && Documents.CreateEmpty(Some(t)).Ok?
    requires var text := BuildQuery(body, show).value;
      (forall j :: 0 <= j < |text| ==> !WholeWordAt(text, "AND", j, isWord))
      && (forall j :: 0 <= j < |text| ==> !WholeWordAt(text, "OR", j, isWord))
    requires var text := BuildQuery(body, show).value;
      forall i :: 0 <= i < |cut(text)| ==> cut(text)[i].Plain?
    ensures var text := BuildQuery(body, show).value;
      QueryOf(t, body, show, cut, isWord, isSpace)
      == Ok(RedisQuery(t.indexName, "'" + (if StartsWith(text, "((") then text[1..] else text) + "'", show(Lambda(body))))
  {
    var text := BuildQuery(body, show).value;
    QueryConverter.RewriteLogicalAbsent(text, isWord);
    QueryConverter.ConvertPlain(text, cut(text), isWord, isSpace);
  }

  /** `query.Query(expression)`: the new predicate's query text is appended after a space;
      the receiver keeps its index name and LINQ text. */
  function Refine(query: RedisQuery, t: Documents.DocType, body: Expr, show: Expr -> string,
                  cut: string -> seq<QueryConverter.Piece>, isWord: char -> bool, isSpace: char -> bool): (r: Result<RedisQuery>)
    requires CutsCompiled(body, show, cut, isWord, isSpace)
    ensures r.Ok? <==> QueryOf(t, body, show, cut, isWord, isSpace).Ok?
    ensures r.Err? ==> r.error == QueryOf(t, body, show, cut, isWord, isSpace).error
    ensures r.Ok? ==>
      (r.value.indexName == query.indexName && r.value.linqQuery == query.linqQuery
       && StartsWith(r.value.query, query.query + " ")
       && r.value.query[|query.query| + 1..] == QueryOf(t, body, show, cut, isWord, isSpace).value.query)
  {
    var q :- QueryOf(t, body, show, cut, isWord, isSpace);
    var r := query.(query := query.query + " " + q.query);
    assert r.query[..|query.query| + 1] == query.query + " ";
    Ok(r)
  }

  /** Refining the unfiltered query leaves a leading space before the predicate's text. */
  lemma RefineUnfiltered(t: Documents.DocType, body: Expr, show: Expr -> string,
                         cut: string -> seq<QueryConverter.Piece>, isWord: char -> bool, isSpace: char -> bool)
    requires CutsCompiled(body, show, cut, isWord, isSpace)
    requires QueryOf(t, body, show, cut, isWord, isSpace).Ok?
    ensures QueryFor(t).Ok?
    ensures Refine(QueryFor(t).value, t, body, show, cut, isWord, isSpace)
      == Ok(RedisQuery(t.indexName, " " + QueryOf(t, body, show, cut, isWord, isSpace).value.query, ""))
  {
    var q := QueryOf(t, body, show, cut, isWord, isSpace).value;
    var base := QueryFor(t).value;
    var r := Refine(base, t, body, show, cut, isWord, isSpace).value;
    assert r.query[..1] == " " && r.query[1..] == q.query;
    assert r.query == r.query[..1] + r.query[1..];
  }

  // ----------------------------------------------------------------- running queries

  datatype PagedDocuments = PagedDocuments(documents: seq<Documents.Document>, totalCount: int, totalPages: Option<int>)

  /** `ToPagedListAsync(page, pageSize)`: one document per id of the page, in order, with
      the page's counts; the counter update of `Execute` stands even when making the
      documents fails. */
  function ToPagedList(query: RedisQuery, page: int, size: int, t: Documents.DocType,
                       backend: seq<Search.Arg> -> Result<Search.Reply>, counters: Search.Counters,
                       isSpace: char -> bool): (r: (Result<PagedDocuments>, Search.Counters))
    ensures var e := Search.Execute(query, page, size, backend, counters, isSpace);
      r.1 == e.1
      && (r.0.Ok? <==> |e.0.ids| == 0 || Documents.CreateEmpty(Some(t)).Ok?)
      && (r.0.Ok? ==>
            (r.0.value.totalCount == e.0.totalCount && r.0.value.totalPages == e.0.totalPages
             && |r.0.value.documents| == |e.0.ids|
             && forall i :: 0 <= i < |e.0.ids| ==>
                  (Documents.Create(t, Some(e.0.ids[i])).Ok?
                   && r.0.value.documents[i] == Documents.Create(t, Some(e.0.ids[i])).value
                   && r.0.value.documents[i].indexName == t.indexName
                   && (':' !in e.0.ids[i] ==> r.0.value.documents[i].id == Some(e.0.ids[i])))))
  {
    var e := Search.Execute(query, page, size, backend, counters, isSpace);
    var made := Search.CreateAll(t, e.0.ids);
    forall i | 0 <= i < |e.0.ids| && made.Ok? && ':' !in e.0.ids[i]
      ensures made.value[i].id == Some(e.0.ids[i])
    {
      Search.NoColonNoPrefix(e.0.ids[i], t.indexName);
    }
    match made
    case Ok(documents) => (Ok(PagedDocuments(documents, e.0.totalCount, e.0.totalPages)), e.1)
    case Err(err) => (Err(err), e.1)
  }

  /** A page that returns a document's full key gives back a document with that
      document's id: the `{IndexName}:` prefix is stripped again. */
  lemma ToPagedListKeys(query: RedisQuery, page: int, size: int, t: Documents.DocType,
                        backend: seq<Search.Arg> -> Result<Search.Reply>, counters: Search.Counters,
                        isSpace: char -> bool, i: nat, id: string)
    requires !Occurs(id, Documents.KeyPrefix(t.indexName))
    ensures var ids := Search.Execute(query, page, size, backend, counters, isSpace).0.ids;
      var r := ToPagedList(query, page, size, t, backend, counters, isSpace).0;
      i < |ids| && ids[i] == Documents.GetKey(Documents.Document(t.indexName, Some(id))) ==>
        (r.Ok? <==> Documents.CreateEmpty(Some(t)).Ok?)
        && (r.Ok? ==> r.value.documents[i] == Documents.Document(t.indexName, Some(id)))
  {
    var ids := Search.Execute(query, page, size, backend, counters, isSpace).0.ids;
    if i < |ids| && ids[i] == Documents.GetKey(Documents.Document(t.indexName, Some(id))) {
      Search.CreateAllKeys(t, ids, i, id);
    }
  }

  /** `ToListAsync(page, pageSize)`: the documents of `ToPagedListAsync` without the counts. */
  function ToList(query: RedisQuery, page: int, size: int, t: Documents.DocType,
                  backend: seq<Search.Arg> -> Result<Search.Reply>, counters: Search.Counters,
                  isSpace: char -> bool): (r: (Result<seq<Documents.Document>>, Search.Counters))
    ensures var p := ToPagedList(query, page, size, t, backend, counters, isSpace);
      r.1 == p.1 && (r.0.Ok? <==> p.0.Ok?) && (r.0.Ok? ==> r.0.value == p.0.value.documents)
  {
    var p := ToPagedList(query, page, size, t, backend, counters, isSpace);
    match p.0
    case Ok(paged) => (Ok(paged.documents), p.1)
    case Err(err) => (Err(err), p.1)
  }

  /** `AnyAsync()`: an empty query text answers false without searching; otherwise a
      one-result search answers whether an id came back. */
  function Any(query: RedisQuery, backend: seq<Search.Arg> -> Result<Search.Reply>, counters: Search.Counters,
               isSpace: char -> bool): (r: (bool, Search.Counters))
    ensures query.query == "" ==> r == (false, counters)
    ensures query.query != "" ==>
      var e := Search.Execute(query, 1, 1, backend, counters, isSpace);
      r.1 == e.1 && (r.0 <==> |e.0.ids| > 0)
  {
    if query.query == "" then (false, counters)
    else
      var e := Search.Execute(query, 1, 1, backend, counters, isSpace);
      (|e.0.ids| > 0, e.1)
  }

  /** Only the empty text short-cuts: a non-empty blank query is sent as `*`, so it
      matches every document, while the empty query matches none. */
  lemma AnyOnBlank(query: RedisQuery, isSpace: char -> bool)
    requires query.query != "" && forall i :: 0 <= i < |query.query| ==> isSpace(query.query[i])
    ensures Search.ExecuteRequest(query, 1, 1, isSpace)[1] == Search.Word("*")
    ensures Search.ExecuteRequest(query.(query := ""), 1, 1, isSpace)[1] == Search.Word("*")
  {
  }

  /** For a non-empty query `AnyAsync` is true exactly when a one-result page of
      `ToListAsync` holds a document, and both leave the same counters. */
  lemma AnyAgreesWithToList(query: RedisQuery, t: Documents.DocType,
                            backend: seq<Search.Arg> -> Result<Search.Reply>, counters: Search.Counters,
                            isSpace: char -> bool)
    requires query.query != "" && Documents.CreateEmpty(Some(t)).Ok?
    ensures var l := ToList(query, 1, 1, t, backend, counters, isSpace);
      l.0.Ok? && (Any(query, backend, counters, isSpace).0 <==> |l.0.value| > 0)
      && Any(query, backend, counters, isSpace).1 == l.1
  {
  }

  // ------------------------------------------------------------------------ selection

  /** `SelectMany(GetSelectedFields)`: the fields of each expression in order; the first
      rejected expression fails the whole enumeration. `valueTyped` tells which
      expressions have a value type statically. */
  function FieldsOf(exprs: seq<Expr>, valueTyped: Expr -> bool): (r: Result<seq<string>>)
    ensures r.Ok? <==> forall i :: 0 <= i < |exprs| ==> Search.GetSelectedFields(exprs[i], valueTyped).Ok?
    ensures r.Err? ==> exists i :: 0 <= i < |exprs| && Search.GetSelectedFields(exprs[i], valueTyped) == Err(r.error)
                                   && forall j :: 0 <= j < i ==> Search.GetSelectedFields(exprs[j], valueTyped).Ok?
    ensures |exprs| > 0 && r.Ok? ==>
      r.value == Search.GetSelectedFields(exprs[0], valueTyped).value + FieldsOf(exprs[1..], valueTyped).value
    decreases |exprs|
  {
    if |exprs| == 0 then Ok([])
    else
      var first :- Search.GetSelectedFields(exprs[0], valueTyped);
      assert forall i :: 1 <= i < |exprs| ==> exprs[i] == exprs[1..][i - 1];
      var rest :- FieldsOf(exprs[1..], valueTyped);
      Ok(first + rest)
  }

  predicate Distinct(xs: seq<string>) {
    forall i, j :: 0 <= i < j < |xs| ==> xs[i] != xs[j]
  }

  /** `Distinct()`: each value once, at the place of its first occurrence. */
  function Dedup(xs: seq<string>): (r: seq<string>)
    ensures Distinct(r)
    ensures forall x :: x in r <==> x in xs
    ensures |r| <= |xs|
    decreases |xs|
  {
    if |xs| == 0 then []
    else
      var init := Dedup(xs[..|xs| - 1]);
      var last := xs[|xs| - 1];
      assert forall x :: x in xs <==> x in xs[..|xs| - 1] || x == last by {
        assert xs == xs[..|xs| - 1] + [last];
      }
      if last in init then init else init + [last]
  }

  /** Values that are already distinct are kept as they are. */
  lemma {:induction false} DedupDistinct(xs: seq<string>)
    requires Distinct(xs)
    ensures Dedup(xs) == xs
    decreases |xs|
  {
    if |xs| > 0 {
      var init := xs[..|xs| - 1];
      DedupDistinct(init);
      assert xs[|xs| - 1] !in init;
      assert init + [xs[|xs| - 1]] == xs;
    }
  }

  /** Deduplicating twice changes nothing. */
  lemma DedupIdempotent(xs: seq<string>)
    ensures Dedup(Dedup(xs)) == Dedup(xs)
  {
    DedupDistinct(Dedup(xs));
  }

  /** Later values never disturb the order of earlier first occurrences. */
  lemma {:induction false} DedupPrefix(xs: seq<string>, ys: seq<string>)
    ensures Dedup(xs) <= Dedup(xs + ys)
    decreases |ys|
  {
    if |ys| == 0 {
      assert xs + ys == xs;
    } else {
      var init := ys[..|ys| - 1];
      DedupPrefix(xs, init);
      assert (xs + ys)[..|xs + ys| - 1] == xs + init;
    }
  }

  /** The field list of `SelectAsync` and `PagedSelectAsync`. */
  function SelectedFields(exprs: seq<Expr>, valueTyped: Expr -> bool): (r: Result<seq<string>>)
    ensures r.Ok? <==> FieldsOf(exprs, valueTyped).Ok?
    ensures r.Ok? ==>
      (Distinct(r.value) && forall f :: f in r.value <==> f in FieldsOf(exprs, valueTyped).value)
  {
    var fields :- FieldsOf(exprs, valueTyped);
    Ok(Dedup(fields))
  }

  /** `PagedSelectAsync(page, pageSize, expressions)`. */
  function PagedSelect(query: RedisQuery, page: int, size: int, exprs: seq<Expr>, valueTyped: Expr -> bool,
                       t: Documents.DocType, backend: seq<Search.Arg> -> Result<Search.Reply>,
                       isSpace: char -> bool): (r: Result<Search.Selection>)
    ensures r.Ok? <==> forall i :: 0 <= i < |exprs| ==> Search.GetSelectedFields(exprs[i], valueTyped).Ok?
    ensures r.Ok? ==>
      r.value == Search.Select(query, SelectedFields(exprs, valueTyped).value, page, size, t, backend, isSpace)
  {
    var fields :- SelectedFields(exprs, valueTyped);
    Ok(Search.Select(query, fields, page, size, t, backend, isSpace))
  }

  /** `SelectAsync(expressions)`: the results of the first page of at most 1000 hits. */
  function SelectFirstPage(query: RedisQuery, exprs: seq<Expr>, valueTyped: Expr -> bool, t: Documents.DocType,
                           backend: seq<Search.Arg> -> Result<Search.Reply>, isSpace: char -> bool): (r: Result<seq<Search.SelectResult>>)
    ensures r.Ok? <==> PagedSelect(query, 1, 1000, exprs, valueTyped, t, backend, isSpace).Ok?
    ensures r.Ok? ==> r.value == PagedSelect(query, 1, 1000, exprs, valueTyped, t, backend, isSpace).value.results
  {
    var s :- PagedSelect(query, 1, 1000, exprs, valueTyped, t, backend, isSpace);
    Ok(s.results)
  }

  /** The select request names each selected field once, first occurrences first, and
      asks for the first 1000 hits. */
  lemma SelectRequestShape(query: RedisQuery, exprs: seq<Expr>, valueTyped: Expr -> bool, isSpace: char -> bool)
    requires SelectedFields(exprs, valueTyped).Ok?
    ensures var fields := SelectedFields(exprs, valueTyped).value;
      var req := Search.SelectRequest(query, fields, 1, 1000, isSpace);
      req[3..7] == [Search.Number(0), Search.Number(1000), Search.Word("RETURN"), Search.Number(|fields|)]
      && Distinct(fields)
  {
  }
}
